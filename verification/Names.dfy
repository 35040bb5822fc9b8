/** Directory entry names: NUL-padded byte strings of at most NAME_LEN bytes. */
module Names {
  import opened Octets

  // s_namelen of the only supported layout.
  const NAME_LEN: nat := 60

  type Name = seq<Byte>

  // The bytes that follow the inode number in a directory slot.
  type RawName = r: seq<Byte> | |r| == NAME_LEN witness Zeros(NAME_LEN)

  const DOT: Name := ['.' as int]
  const DOTDOT: Name := ['.' as int, '.' as int]

  function Zeros(n: nat): (z: seq<Byte>)
    ensures |z| == n && forall i :: 0 <= i < n ==> z[i] == 0
  {
    seq(n, _ => 0)
  }

  // What the VFS passes down: non-empty, NUL-free and not longer than a slot holds.
  predicate ValidName(name: Name) {
    0 < |name| <= NAME_LEN && 0 !in name
  }

  // A name that may be created, linked, renamed or removed.
  predicate ChildName(name: Name) {
    ValidName(name) && name != DOT && name != DOTDOT
  }

  // memcpy of the name followed by memset of the rest of the slot to zero.
  function Padded(name: Name): RawName
    requires |name| <= NAME_LEN
  {
    name + Zeros(NAME_LEN - |name|)
  }

  // The early-out byte test, then memcmp over the length of the wanted name.
  predicate NameCompare(len: nat, maxlen: nat, name: Name, buffer: seq<Byte>)
    requires len <= |name| && len <= maxlen <= |buffer|
  {
    if len < maxlen && buffer[len] != 0 then false else name[..len] == buffer[..len]
  }

  // strnlen: the index of the first NUL at or after i, or |buffer|.
  function StrNLen(buffer: seq<Byte>, i: nat): (n: nat)
    requires i <= |buffer|
    ensures i <= n <= |buffer|
    ensures n < |buffer| ==> buffer[n] == 0
    ensures forall j :: i <= j < n ==> buffer[j] != 0
    decreases |buffer| - i
  {
    if i == |buffer| || buffer[i] == 0 then i else StrNLen(buffer, i + 1)
  }

  // The name that readdir reports for a slot.
  function NameOf(raw: RawName): Name {
    raw[..StrNLen(raw, 0)]
  }

  // A name area as the directory code writes it.
  predicate Clean(raw: RawName) {
    ValidName(NameOf(raw)) && raw == Padded(NameOf(raw))
  }

  // Writing a name into the 60 bytes of a slot and reading it back is the identity.
  lemma PaddedRoundTrip(name: Name)
    requires ValidName(name)
    ensures |Padded(name)| == 60 && NameOf(Padded(name)) == name
    ensures Clean(Padded(name))
  {
    var raw := Padded(name);
    assert forall k :: 0 <= k < |name| ==> raw[k] == name[k] && name[k] in name;
    assert |name| < NAME_LEN ==> raw[|name|] == 0;
    assert StrNLen(raw, 0) == |name|;
    assert raw[..|name|] == name;
  }

  // Distinct names have distinct name areas.
  lemma PaddedInjective(a: Name, b: Name)
    requires ValidName(a) && ValidName(b)
    requires Padded(a) == Padded(b)
    ensures a == b
  {
    PaddedRoundTrip(a);
    PaddedRoundTrip(b);
  }

  // The comparison is true exactly on the slot that was written for this very name: a
  // longer stored name fails the byte test, a shorter one fails memcmp.
  lemma NameCompareExact(name: Name, raw: RawName)
    requires ValidName(name) && Clean(raw)
    ensures NameCompare(|name|, NAME_LEN, name, raw) <==> raw == Padded(name)
    ensures NameCompare(|name|, NAME_LEN, name, raw) <==> NameOf(raw) == name
  {
    PaddedRoundTrip(name);
    var stored := NameOf(raw);
    assert forall k :: 0 <= k < |stored| ==> raw[k] == stored[k] && stored[k] in stored;
    assert forall k :: 0 <= k < |name| ==> name[k] in name;
    assert |stored| < NAME_LEN ==> raw[|stored|] == 0;
    if NameCompare(|name|, NAME_LEN, name, raw) {
      assert forall k :: 0 <= k < |name| ==> name[k] == raw[..|name|][k];
      assert |stored| == |name|;
      assert stored == raw[..|name|];
    }
    if raw == Padded(name) {
      assert raw[..|name|] == name;
    }
  }
}
