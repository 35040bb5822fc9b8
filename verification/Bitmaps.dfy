/** Bitmaps of 16-bit words: testing a bit and finding the first clear one. */
module Bitmaps {

  const BITS: nat := 16
  const ALL_ONES: nat := 0xffff

  // An unsigned short.
  type Word16 = w: nat | w <= ALL_ONES

  // Bit i of the binary form of w.
  predicate Bit(w: nat, i: nat)
    decreases i
  {
    if i == 0 then w % 2 == 1 else Bit(w / 2, i - 1)
  }

  function Power(n: nat): (p: nat)
    ensures p > 0
  {
    if n == 0 then 1 else 2 * Power(n - 1)
  }

  ghost predicate AllSet(w: nat, n: nat) {
    forall i: nat :: i < n ==> Bit(w, i)
  }

  lemma {:induction false} LargestIsSet(n: nat, i: nat)
    requires i < n
    ensures Bit(Power(n) - 1, i)
  {
    if i > 0 {
      LargestIsSet(n - 1, i - 1);
      assert (Power(n) - 1) / 2 == Power(n - 1) - 1;
    }
  }

  lemma NextBit(w: nat, i: nat)
    ensures Bit(w, i + 1) == Bit(w / 2, i)
  {
  }

  lemma {:induction false} SetIsLargest(w: nat, n: nat)
    requires w < Power(n) && AllSet(w, n)
    ensures w == Power(n) - 1
  {
    if n > 0 {
      assert Bit(w, 0);
      forall i: nat | i < n - 1 ensures Bit(w / 2, i) {
        assert i + 1 < n;
        NextBit(w, i);
      }
      SetIsLargest(w / 2, n - 1);
    }
  }

  lemma AllOnesIsAllSet(w: Word16)
    ensures w == ALL_ONES <==> AllSet(w, BITS)
  {
    assert Power(4) == 16 && Power(8) == 16 * Power(4) && Power(12) == 16 * Power(8) && Power(16) == 16 * Power(12);
    if w == ALL_ONES {
      forall i: nat | i < BITS ensures Bit(w, i) {
        LargestIsSet(BITS, i);
      }
    }
    if AllSet(w, BITS) {
      SetIsLargest(w, BITS);
    }
  }

  // gbfs_test_bit
  predicate TestBit(words: seq<Word16>, nr: nat)
    requires nr / BITS < |words|
  {
    Bit(words[nr / BITS], nr % BITS)
  }

  // The kernel's ffz: the least clear bit of a word that has one.
  function Ffz(w: Word16): (r: nat)
    requires w != ALL_ONES
    ensures r < BITS && !Bit(w, r)
    ensures forall i: nat :: i < r ==> Bit(w, i)
  {
    AllOnesIsAllSet(w);
    FfzFrom(w, 0)
  }

  function FfzFrom(w: Word16, i: nat): (r: nat)
    requires i <= BITS && exists k: nat :: i <= k < BITS && !Bit(w, k)
    ensures i <= r < BITS && !Bit(w, r)
    ensures forall k: nat :: i <= k < r ==> Bit(w, k)
    decreases BITS - i
  {
    if !Bit(w, i) then i else FfzFrom(w, i + 1)
  }

  // A conversion to int, which is 32 bits wide and signed.
  function Int32(n: nat): (r: int)
    ensures n < 0x8000_0000 ==> r == n
  {
    var m := n % 0x1_0000_0000;
    if m < 0x8000_0000 then m else m - 0x1_0000_0000
  }

  // The search stays in the memory behind addr: it is over after size / 16 words, or it meets a
  // word that is not full before. For sizes from 1 to 15 the count of words wraps around, and only
  // such a word ends it.
  ghost predicate Ends(words: seq<Word16>, size: nat) {
    || (BITS <= size && size / BITS <= |words|)
    || exists k: nat :: k < |words| && k < WORD_COUNT && words[k] != ALL_ONES
  }

  const WORD_COUNT: nat := 0x1_0000_0000

  // z is the least clear bit, or the end of the bitmap if all its bits are set. For 1 to 15 bits
  // nothing but a clear bit ends the search, even if that is behind the bitmap.
  ghost predicate FirstZero(words: seq<Word16>, size: nat, z: nat) {
    && z <= BITS * |words|
    && (forall i: nat :: i < z ==> TestBit(words, i))
    && (size >= BITS ==> z <= BITS * (size / BITS))
    && (size < BITS || z < BITS * (size / BITS) ==> z < BITS * |words| && !TestBit(words, z))
  }

  // gbfs_find_first_zero_bit. For a size of at least 16 bits nothing behind the words of the bitmap
  // is accessed.
  method FindFirstZeroBit(addr: array<Word16>, size: nat) returns (r: int)
    requires size < WORD_COUNT && (size != 0 ==> Ends(addr[..], size))
    ensures size == 0 ==> r == 0
    ensures size != 0 ==> exists z: nat :: FirstZero(addr[..], size, z) && r == Int32(z)
  {
    if size == 0 {
      return 0;
    }
    var left := size / BITS;
    var p := 0;
    while addr[p] == ALL_ONES
      invariant 0 <= p < addr.Length
      invariant if size < BITS then left == (if p == 0 then 0 else WORD_COUNT - p) else left >= 1 && p + left == size / BITS
      invariant forall k: nat :: k < p ==> addr[k] == ALL_ONES
      invariant size < BITS ==> p < WORD_COUNT && exists k: nat :: p <= k < addr.Length && k < WORD_COUNT && addr[k] != ALL_ONES
      invariant size >= BITS ==> (size / BITS <= addr.Length || exists k: nat :: p <= k < addr.Length && addr[k] != ALL_ONES)
      decreases addr.Length - p
    {
      p := p + 1;
      left := if left == 0 then WORD_COUNT - 1 else left - 1;
      if left == 0 {
        FullWords(addr[..], p);
        assert FirstZero(addr[..], size, BITS * p);
        return Int32(BITS * p);
      }
    }
    FullWords(addr[..], p);
    var least := BITS * p + Ffz(addr[p]);
    r := Int32(least);
    forall i: nat | i < least ensures TestBit(addr[..], i) {
      if i >= BITS * p {
        assert i / BITS == p;
      }
    }
    assert least / BITS == p && least % BITS == Ffz(addr[p]);
    assert FirstZero(addr[..], size, least);
  }

  lemma FullWords(words: seq<Word16>, p: nat)
    requires p <= |words| && forall k: nat :: k < p ==> words[k] == ALL_ONES
    ensures forall i: nat :: i < BITS * p ==> TestBit(words, i)
  {
    forall i: nat | i < BITS * p ensures TestBit(words, i) {
      assert i / BITS < p;
      AllOnesIsAllSet(words[i / BITS]);
      var bit := i % BITS;
      assert bit < BITS && Bit(words[i / BITS], bit);
    }
  }
}
