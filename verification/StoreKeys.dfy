/** The bytes under which pages and inodes are stored, and the stored form of an inode. */
module StoreKeys {
  import opened Octets
  import opened Common

  const U16: nat := 0x1_0000
  const U64: nat := 0x1_0000_0000_0000_0000

  type Number = n: nat | n < U64  // ino_t, pgoff_t

  const GBFS_DB_PAGE: Byte := 0
  const GBFS_DB_INODE: Byte := 1

  // ---- Numbers as bytes, the low byte first ----

  // The k low bytes of n, as an assignment to an unsigned field of k bytes leaves them.
  function Le(n: int, k: nat): (s: seq<Byte>)
    ensures |s| == k
    decreases k
  {
    if k == 0 then [] else [n % 0x100] + Le(n / 0x100, k - 1)
  }

  function Value(s: seq<Byte>): nat {
    if s == [] then 0 else s[0] + 0x100 * Value(s[1..])
  }

  function Power(k: nat): (p: nat)
    ensures p > 0
  {
    if k == 0 then 1 else 0x100 * Power(k - 1)
  }

  // A field keeps the low bits of what is assigned to it.
  lemma {:induction false} FieldWraps(n: int, k: nat)
    ensures Value(Le(n, k)) == n % Power(k)
    decreases k
  {
    if k > 0 {
      FieldWraps(n / 0x100, k - 1);
      assert Le(n, k)[1..] == Le(n / 0x100, k - 1);
      LowDigit(n, Power(k - 1));
    }
  }

  lemma LowDigit(n: int, p: nat)
    requires p > 0
    ensures n % (0x100 * p) == n % 0x100 + 0x100 * (n / 0x100 % p)
  {
    var q := n / 0x100;
    assert n == n % 0x100 + 0x100 * q && q == q % p + p * (q / p);
    Remainder(n, 0x100 * p, q / p, n % 0x100 + 0x100 * (q % p));
  }

  lemma Multiple(p: nat, d: int)
    ensures d > 0 ==> p * d >= p
    ensures d < 0 ==> p * d + p <= 0
  {
  }

  lemma Remainder(n: int, p: nat, q: int, r: nat)
    requires r < p && n == r + p * q
    ensures n % p == r
  {
    var d := n / p - q;
    assert p * (n / p) == p * (q + d) == p * q + p * d;
    Multiple(p, d);
  }

  // Byte j of a field is byte j of the number.
  lemma {:induction false} LowByteFirst(n: int, k: nat, j: nat)
    requires j < k
    ensures Le(n, k)[j] == n / Power(j) % 0x100
    decreases k
  {
    if j > 0 {
      LowByteFirst(n / 0x100, k - 1, j - 1);
      DivideTwice(n, Power(j - 1));
    }
  }

  lemma DivideTwice(n: int, p: nat)
    requires p > 0
    ensures n / (0x100 * p) == n / 0x100 / p
  {
    var q := n / 0x100;
    var r := n % 0x100 + 0x100 * (q % p);
    assert n == n % 0x100 + 0x100 * q && q == q % p + p * (q / p);
    assert n == r + 0x100 * p * (q / p);
    Remainder(n, 0x100 * p, q / p, r);
    assert 0x100 * p * (n / (0x100 * p)) == 0x100 * p * (q / p);
  }

  // It gives back what was assigned to it exactly when the value fits.
  lemma {:induction false} FieldRoundTrip(n: int, k: nat)
    ensures Value(Le(n, k)) == n <==> 0 <= n < Power(k)
  {
    FieldWraps(n, k);
    if 0 <= n < Power(k) {
      Remainder(n, Power(k), 0, n);
    }
  }

  lemma Powers()
    ensures Power(2) == U16 && Power(4) == U32 && Power(8) == U64
  {
    assert Power(3) == 0x100 * Power(2);
    assert Power(5) == 0x100 * Power(4) && Power(6) == 0x100 * Power(5) && Power(7) == 0x100 * Power(6);
  }

  lemma SameNumber(m: Number, n: Number)
    ensures Le(m, 8) == Le(n, 8) <==> m == n
  {
    Powers();
    FieldRoundTrip(m, 8);
    FieldRoundTrip(n, 8);
  }

  // ---- Keys ----

  function DataKey(ino: Number, off: Number): seq<Byte> {
    [GBFS_DB_PAGE] + Le(ino, 8) + Le(off, 8)
  }

  function InodeKey(ino: Number): seq<Byte> {
    [GBFS_DB_INODE] + Le(ino, 8)
  }

  lemma KeysDiffer(i: Number, off: Number, j: Number, pos: Number)
    ensures DataKey(i, off) == DataKey(j, pos) <==> i == j && off == pos
    ensures InodeKey(i) == InodeKey(j) <==> i == j
    ensures DataKey(i, off) != InodeKey(j)
  {
    SameNumber(i, j);
    SameNumber(off, pos);
    assert DataKey(i, off)[1..9] == Le(i, 8) && DataKey(i, off)[9..] == Le(off, 8);
    assert DataKey(j, pos)[1..9] == Le(j, 8) && DataKey(j, pos)[9..] == Le(pos, 8);
    assert InodeKey(i)[1..] == Le(i, 8) && InodeKey(j)[1..] == Le(j, 8);
    assert DataKey(i, off)[0] != InodeKey(j)[0];
  }

  // One byte for the kind of record, then the numbers, the low byte first.
  lemma KeyLayout(i: Number, off: Number)
    ensures |DataKey(i, off)| == 17 && DataKey(i, off)[0] == 0
    ensures Value(DataKey(i, off)[1..9]) == i && Value(DataKey(i, off)[9..17]) == off
    ensures |InodeKey(i)| == 9 && InodeKey(i)[0] == 1 && Value(InodeKey(i)[1..9]) == i
  {
    Powers();
    FieldRoundTrip(i, 8);
    FieldRoundTrip(off, 8);
    KeyParts(Le(i, 8), Le(off, 8));
  }

  lemma KeyParts(a: seq<Byte>, b: seq<Byte>)
    requires |a| == |b| == 8
    ensures ([GBFS_DB_PAGE] + a + b)[1..9] == a && ([GBFS_DB_PAGE] + a + b)[9..17] == b && ([GBFS_DB_INODE] + a)[1..9] == a
  {
  }

  // ---- Inodes ----

  // What is kept of an inode; the fields have the widths of the inode in memory.
  datatype Attributes = Attributes(mode: nat, nlink: nat, uid: nat, gid: nat, size: nat, atime: int, mtime: int, ctime: int)

  const INODE_SIZE: nat := 24  // sizeof(struct gbfs_inode)

  // The value the kernel stores in place of a user or group number of more than 16 bits.
  const OVERFLOW_ID: nat := 65534

  function LowId(id: nat): nat {
    if id < U16 then id else OVERFLOW_ID
  }

  function Encode(a: Attributes): (s: seq<Byte>)
    ensures |s| == INODE_SIZE
  {
    Four(Le(a.mode, 2), Le(a.nlink, 2), Le(LowId(a.uid), 2), Le(LowId(a.gid), 2))
    + Four(Le(a.size, 4), Le(a.atime, 4), Le(a.mtime, 4), Le(a.ctime, 4))
  }

  // Four fields behind each other.
  function Four(a: seq<Byte>, b: seq<Byte>, c: seq<Byte>, d: seq<Byte>): seq<Byte> {
    a + b + c + d
  }

  lemma FourParts(a: seq<Byte>, b: seq<Byte>, c: seq<Byte>, d: seq<Byte>, k: nat)
    requires |a| == k && |b| == k && |c| == k && |d| == k
    ensures var s := Four(a, b, c, d);
            |s| == 4 * k && s[..k] == a && s[k..2 * k] == b && s[2 * k..3 * k] == c && s[3 * k..4 * k] == d
  {
  }

  function Decode(s: seq<Byte>): Attributes
    requires |s| == INODE_SIZE
  {
    Attributes(Value(s[0..2]), Value(s[2..4]), Value(s[4..6]), Value(s[6..8]),
      Value(s[8..12]), Value(s[12..16]), Value(s[16..20]), Value(s[20..24]))
  }

  predicate Fits(a: Attributes) {
    && a.mode < U16 && a.nlink < U16 && a.uid < U16 && a.gid < U16
    && a.size < U32
    && 0 <= a.atime < U32 && 0 <= a.mtime < U32 && 0 <= a.ctime < U32
  }

  lemma DecodeFields(a: Attributes)
    ensures Decode(Encode(a)) == Attributes(Value(Le(a.mode, 2)), Value(Le(a.nlink, 2)), Value(Le(LowId(a.uid), 2)), Value(Le(LowId(a.gid), 2)),
      Value(Le(a.size, 4)), Value(Le(a.atime, 4)), Value(Le(a.mtime, 4)), Value(Le(a.ctime, 4)))
  {
    var m, n, u, g := Le(a.mode, 2), Le(a.nlink, 2), Le(LowId(a.uid), 2), Le(LowId(a.gid), 2);
    var z, x, y, t := Le(a.size, 4), Le(a.atime, 4), Le(a.mtime, 4), Le(a.ctime, 4);
    FourParts(m, n, u, g, 2);
    FourParts(z, x, y, t, 4);
    HalvesDecode(Four(m, n, u, g), Four(z, x, y, t));
  }

  lemma HalvesDecode(narrow: seq<Byte>, wide: seq<Byte>)
    requires |narrow| == 8 && |wide| == 16
    ensures Decode(narrow + wide) == Attributes(Value(narrow[..2]), Value(narrow[2..4]), Value(narrow[4..6]), Value(narrow[6..8]),
      Value(wide[..4]), Value(wide[4..8]), Value(wide[8..12]), Value(wide[12..16]))
  {
    var s := narrow + wide;
    assert s[0..2] == narrow[..2] && s[2..4] == narrow[2..4] && s[4..6] == narrow[4..6] && s[6..8] == narrow[6..8];
    assert s[8..12] == wide[..4] && s[12..16] == wide[4..8] && s[16..20] == wide[8..12] && s[20..24] == wide[12..16];
  }

  // What comes back of an inode: the low bits of its mode, links, size and times, and its user and
  // group if they fit into 16 bits.
  lemma StoredFields(a: Attributes)
    ensures Decode(Encode(a)) == Attributes(
              a.mode % 0x1_0000, a.nlink % 0x1_0000,
              if a.uid < 0x1_0000 then a.uid else 65534, if a.gid < 0x1_0000 then a.gid else 65534,
              a.size % 0x1_0000_0000, a.atime % 0x1_0000_0000, a.mtime % 0x1_0000_0000, a.ctime % 0x1_0000_0000)
  {
    DecodeFields(a);
    Narrow(a.mode);
    Narrow(a.nlink);
    Narrow(LowId(a.uid));
    Narrow(LowId(a.gid));
    Wide(a.size);
    Wide(a.atime);
    Wide(a.mtime);
    Wide(a.ctime);
  }

  lemma Narrow(n: int)
    ensures Value(Le(n, 2)) == n % 0x1_0000
    ensures 0 <= n < 0x1_0000 ==> Value(Le(n, 2)) == n
  {
    Powers();
    FieldWraps(n, 2);
  }

  lemma Wide(n: int)
    ensures Value(Le(n, 4)) == n % 0x1_0000_0000
  {
    Powers();
    FieldWraps(n, 4);
  }

  // The places of the fields in the record.
  lemma RecordLayout(a: Attributes)
    ensures var s := Encode(a);
            && |s| == 24
            && Value(s[0..2]) == a.mode % 0x1_0000 && Value(s[2..4]) == a.nlink % 0x1_0000
            && Value(s[4..6]) == (if a.uid < 0x1_0000 then a.uid else 65534)
            && Value(s[6..8]) == (if a.gid < 0x1_0000 then a.gid else 65534)
            && Value(s[8..12]) == a.size % 0x1_0000_0000 && Value(s[12..16]) == a.atime % 0x1_0000_0000
            && Value(s[16..20]) == a.mtime % 0x1_0000_0000 && Value(s[20..24]) == a.ctime % 0x1_0000_0000
  {
    StoredFields(a);
  }

  // So it comes back unchanged exactly when every field fits its place in the record.
  lemma InodeRoundTrip(a: Attributes)
    ensures Decode(Encode(a)) == a <==> Fits(a)
  {
    DecodeFields(a);
    Powers();
    FieldRoundTrip(a.mode, 2);
    FieldRoundTrip(a.nlink, 2);
    FieldRoundTrip(LowId(a.uid), 2);
    FieldRoundTrip(LowId(a.gid), 2);
    FieldRoundTrip(a.size, 4);
    FieldRoundTrip(a.atime, 4);
    FieldRoundTrip(a.mtime, 4);
    FieldRoundTrip(a.ctime, 4);
  }
}
