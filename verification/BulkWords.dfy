/** The buffer of a bulk DBT: 32-bit words growing down from the end, data growing up from the
    start, and why they do not meet. */
module BulkWords {
  import opened Octets

  const WORD: nat := 4
  const WORD_LIMIT: nat := 0x1_0000_0000

  // The terminator of the data and key/data formats, (u_int32_t)-1.
  const MINUS_ONE: nat := WORD_LIMIT - 1

  type Word = w: nat | w < WORD_LIMIT

  // A sum in u_int32_t.
  function Wrap(n: nat): (r: Word)
    ensures n < WORD_LIMIT ==> r == n
  {
    n % WORD_LIMIT
  }

  // A C pointer into the buffer, as an offset from its start.
  datatype Pointer = Null | To(offset: nat)

  // ---- One word ----

  // A u_int32_t read at byte p, least significant byte first.
  function Load(s: seq<Byte>, p: nat): Word
    requires p + WORD <= |s|
  {
    var b0: int, b1: int, b2: int, b3: int := s[p], s[p + 1], s[p + 2], s[p + 3];
    b0 + 0x100 * b1 + 0x1_0000 * b2 + 0x100_0000 * b3
  }

  function Store(s: seq<Byte>, p: nat, w: Word): (r: seq<Byte>)
    requires p + WORD <= |s|
    ensures |r| == |s|
  {
    s[p := w % 0x100][p + 1 := w / 0x100 % 0x100][p + 2 := w / 0x1_0000 % 0x100][p + 3 := w / 0x100_0000]
  }

  lemma Digits(w: int)
    ensures w == w % 0x100 + 0x100 * (w / 0x100 % 0x100) + 0x1_0000 * (w / 0x1_0000 % 0x100) + 0x100_0000 * (w / 0x100_0000)
  {
    assert w / 0x1_0000 == w / 0x100 / 0x100;
    assert w / 0x100_0000 == w / 0x1_0000 / 0x100;
  }

  lemma StoreLoads(s: seq<Byte>, p: nat, w: Word)
    requires p + WORD <= |s|
    ensures Load(Store(s, p, w), p) == w
  {
    Digits(w);
    var r := Store(s, p, w);
    assert r[p] == w % 0x100;
    assert r[p + 1] == w / 0x100 % 0x100;
    assert r[p + 2] == w / 0x1_0000 % 0x100;
    assert r[p + 3] == w / 0x100_0000;
  }

  // A store changes its four bytes, hence no word that does not overlap them.
  lemma StoreFrame(s: seq<Byte>, p: nat, w: Word)
    requires p + WORD <= |s|
    ensures forall k: nat :: k < |s| && !(p <= k < p + WORD) ==> Store(s, p, w)[k] == s[k]
    ensures forall q: nat :: q + WORD <= |s| && (q + WORD <= p || p + WORD <= q) ==> Load(Store(s, p, w), q) == Load(s, q)
  {
  }

  // memcpy of item to the byte off.
  function CopyIn(s: seq<Byte>, off: nat, item: seq<Byte>): (r: seq<Byte>)
    requires off + |item| <= |s|
    ensures |r| == |s|
  {
    s[..off] + item + s[off + |item|..]
  }

  lemma CopyFrame(s: seq<Byte>, off: nat, item: seq<Byte>)
    requires off + |item| <= |s|
    ensures CopyIn(s, off, item)[..off + |item|] == s[..off] + item
    ensures forall q: nat :: q + WORD <= |s| && (q + WORD <= off || off + |item| <= q) ==> Load(CopyIn(s, off, item), q) == Load(s, q)
  {
  }

  // Two pieces copied one behind the other.
  lemma CopyTwo(s: seq<Byte>, off: nat, a: seq<Byte>, b: seq<Byte>)
    requires off + |a| + |b| <= |s|
    ensures CopyIn(CopyIn(s, off, a), off + |a|, b) == CopyIn(s, off, a + b)
  {
  }

  // ---- The layout ----

  // Where the j-th word from the end lies.
  function Slot(size: nat, j: nat): int {
    size - WORD - WORD * j
  }

  // The buffer s holds the bytes data from its start, the words from its end downwards and after
  // them the terminator, and all of them fit without overlapping.
  ghost predicate Layout(s: seq<Byte>, data: seq<Byte>, words: seq<Word>, end: Word) {
    && |data| + WORD * (|words| + 1) <= |s| < WORD_LIMIT
    && s[..|data|] == data
    && (forall j: nat {:trigger words[j]} :: j < |words| ==> Load(s, Slot(|s|, j)) == words[j])
    && Load(s, Slot(|s|, |words|)) == end
  }

  // Words stored one below the other, the first at p.
  function StoreDown(s: seq<Byte>, p: nat, ws: seq<Word>): (r: seq<Byte>)
    requires p + WORD <= |s| && WORD * |ws| <= p + WORD
    ensures |r| == |s|
    decreases |ws|
  {
    if ws == [] then s
    else if |ws| == 1 then Store(s, p, ws[0])
    else StoreDown(Store(s, p, ws[0]), p - WORD, ws[1..])
  }

  lemma {:induction false} StoreDownFrame(s: seq<Byte>, p: nat, ws: seq<Word>)
    requires p + WORD <= |s| && WORD * |ws| <= p + WORD
    ensures var r := StoreDown(s, p, ws);
            && (forall j: nat {:trigger ws[j]} :: j < |ws| ==> Load(r, p - WORD * j) == ws[j])
            && (forall q: nat {:trigger Load(r, q)} :: p + WORD <= q && q + WORD <= |s| ==> Load(r, q) == Load(s, q))
            && r[..p + WORD - WORD * |ws|] == s[..p + WORD - WORD * |ws|]
    decreases |ws|
  {
    if ws != [] {
      var s1 := Store(s, p, ws[0]);
      StoreLoads(s, p, ws[0]);
      StoreFrame(s, p, ws[0]);
      if |ws| > 1 {
        StoreDownFrame(s1, p - WORD, ws[1..]);
        var r := StoreDown(s, p, ws);
        forall j: nat | j < |ws|
          ensures Load(r, p - WORD * j) == ws[j]
        {
          if j > 0 {
            assert ws[1..][j - 1] == ws[j];
          }
        }
        assert s1[..p + WORD - WORD * |ws|] == s[..p + WORD - WORD * |ws|];
      }
    }
  }

  // One append, whatever its format: header words and the terminator go below the words that are
  // there, the bytes go behind the bytes that are there.
  function Push(s: seq<Byte>, words: nat, off: nat, ws: seq<Word>, end: Word, item: seq<Byte>): seq<Byte>
    requires off + |item| + WORD * (words + |ws| + 1) <= |s|
  {
    CopyIn(StoreDown(s, Slot(|s|, words), ws + [end]), off, item)
  }

  lemma PushKeepsLayout(s: seq<Byte>, data: seq<Byte>, words: seq<Word>, end: Word, ws: seq<Word>, item: seq<Byte>)
    requires Layout(s, data, words, end)
    requires |data| + |item| + WORD * (|words| + |ws| + 1) <= |s|
    ensures Layout(Push(s, |words|, |data|, ws, end, item), data + item, words + ws, end)
  {
    var p := Slot(|s|, |words|);
    var down := ws + [end];
    var s1 := StoreDown(s, p, down);
    StoreDownFrame(s, p, down);
    CopyFrame(s1, |data|, item);
    var r := CopyIn(s1, |data|, item);
    assert s1[..|data|] == s[..|data|] by {
      var k := p + WORD - WORD * |down|;
      assert |data| <= k;
      assert s1[..k][..|data|] == s1[..|data|] && s[..k][..|data|] == s[..|data|];
    }
    forall j: nat | j < |words + ws|
      ensures Load(r, Slot(|s|, j)) == (words + ws)[j]
    {
      if j < |words| {
        assert Load(s, Slot(|s|, j)) == words[j];
        assert Load(s1, Slot(|s|, j)) == words[j];
      } else {
        assert down[j - |words|] == ws[j - |words|];
        assert Load(s1, p - WORD * (j - |words|)) == down[j - |words|];
      }
      assert Load(r, Slot(|s|, j)) == Load(s1, Slot(|s|, j));
    }
    assert down[|ws|] == end;
    assert Load(r, Slot(|s|, |words + ws|)) == Load(s1, p - WORD * |ws|);
  }
}
