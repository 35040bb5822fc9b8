/** fcntl record locks: from the request of the caller to the byte range the kernel locks. */
module FileLocks {

  // loff_t, a signed 64-bit integer.
  const OFFSET_MAX: int := 0x7fff_ffff_ffff_ffff

  type Offset = o: int | -OFFSET_MAX - 1 <= o <= OFFSET_MAX

  // Sums and differences of loff_t, which the kernel lets wrap around.
  function Wrapped(n: int): (o: Offset)
    ensures -OFFSET_MAX - 1 <= n <= OFFSET_MAX ==> o == n
  {
    (n + OFFSET_MAX + 1) % (2 * OFFSET_MAX + 2) - OFFSET_MAX - 1
  }

  function Plus(a: Offset, b: Offset): Offset {
    Wrapped(a + b)
  }

  function Minus(a: Offset, b: Offset): Offset {
    Wrapped(a - b)
  }

  const SEEK_SET: int := 0
  const SEEK_CUR: int := 1
  const SEEK_END: int := 2

  const F_RDLCK: int := 0
  const F_WRLCK: int := 1
  const F_UNLCK: int := 2

  const EINVAL: int := 22
  const EOVERFLOW: int := 75

  datatype Flock64 = Flock64(typ: int, whence: int, start: Offset, len: Offset)

  // The open file the lock is for: its position and its size.
  datatype File = File(pos: Offset, size: Offset)

  predicate KnownWhence(l: Flock64) {
    0 <= l.whence <= 2
  }

  predicate KnownType(l: Flock64) {
    0 <= l.typ <= 2
  }

  // The offset l_start counts from: the start, the position or the end of the file.
  function Base(l: Flock64, f: File): Offset {
    if l.whence == 1 then f.pos else if l.whence == 2 then f.size else 0
  }

  // ---- The request as IEEE Std 1003.1-2001 defines it, over the integers ----

  // Byte b is in the request: l_len bytes from the start if it is positive, the -l_len bytes
  // before the start if it is negative, all from the start if it is 0.
  ghost predicate Requested(l: Flock64, f: File, b: int) {
    var s := Base(l, f) + l.start;
    if l.len > 0 then s <= b <= s + l.len - 1
    else if l.len < 0 then s + l.len <= b <= s - 1
    else s <= b <= OFFSET_MAX
  }

  // The start and all requested bytes are offsets of a file.
  ghost predicate InFile(l: Flock64, f: File) {
    && 0 <= Base(l, f) + l.start <= OFFSET_MAX
    && forall b :: Requested(l, f, b) ==> 0 <= b <= OFFSET_MAX
  }

  lemma InFileBounds(l: Flock64, f: File)
    ensures InFile(l, f) <==>
            var s := Base(l, f) + l.start;
            0 <= s <= 0x7fff_ffff_ffff_ffff && (l.len > 0 ==> s + l.len - 1 <= 0x7fff_ffff_ffff_ffff) && (l.len < 0 ==> s + l.len >= 0)
  {
    var s := Base(l, f) + l.start;
    if l.len > 0 {
      assert Requested(l, f, s + l.len - 1);
    } else if l.len < 0 {
      assert Requested(l, f, s + l.len);
    }
  }

  // The sum on the way may wrap around, the end does not.
  lemma EndOfRange(s: Offset, len: Offset)
    requires 0 <= s && 0 < len && s + len - 1 <= OFFSET_MAX
    ensures Minus(Plus(s, len), 1) == s + len - 1
  {
    if s + len == OFFSET_MAX + 1 {
      assert Plus(s, len) == -OFFSET_MAX - 1;
    }
  }

  // The first and the last byte of the request.
  function FirstByte(l: Flock64, f: File): int {
    Base(l, f) + l.start + if l.len < 0 then l.len else 0
  }

  function LastByte(l: Flock64, f: File): int {
    if l.len > 0 then Base(l, f) + l.start + l.len - 1
    else if l.len < 0 then Base(l, f) + l.start - 1 else OFFSET_MAX
  }

  lemma RequestIsRange(l: Flock64, f: File)
    requires InFile(l, f)
    ensures 0 <= FirstByte(l, f) <= LastByte(l, f) <= OFFSET_MAX
    ensures forall b :: FirstByte(l, f) <= b <= LastByte(l, f) <==> Requested(l, f, b)
  {
    InFileBounds(l, f);
  }

  class FileLock {
    var start: Offset
    var end: Offset
    var typ: int

    constructor ()
      ensures start == 0 && end == 0 && typ == 0
    {
      start := 0;
      end := 0;
      typ := 0;
    }

    method AssignType(t: int) returns (err: int)
      modifies this`typ
      ensures if 0 <= t <= 2 then err == 0 && typ == t else err == -22 && typ == old(typ)
    {
      if t == F_RDLCK || t == F_WRLCK || t == F_UNLCK {
        typ := t;
        return 0;
      }
      return -EINVAL;
    }

    // Succeeds exactly for a known type and whence and a request inside the file, and then locks
    // the requested bytes and no others.
    method FromFlock64(f: File, l: Flock64) returns (err: int)
      requires f.pos >= 0 && f.size >= 0
      modifies this
      ensures err == 0 <==> KnownWhence(l) && InFile(l, f) && KnownType(l)
      ensures err == 0 ==>
                && 0 <= start <= end <= OFFSET_MAX && typ == l.typ
                && forall b :: start <= b <= end <==> Requested(l, f, b)
      ensures err == -75 <==>
                && KnownWhence(l)
                && (Base(l, f) + l.start > OFFSET_MAX || (Base(l, f) + l.start >= 0 && Base(l, f) + l.start + l.len - 1 > OFFSET_MAX))
      ensures err == 0 || err == -22 || err == -75
      ensures err != 0 ==> typ == old(typ)
    {
      InFileBounds(l, f);
      if InFile(l, f) {
        RequestIsRange(l, f);
      }
      err := FillRange(f, l);
      if err != 0 {
        return;
      }
      err := AssignType(l.typ);
    }

    // All but the type.
    method FillRange(f: File, l: Flock64) returns (err: int)
      requires f.pos >= 0 && f.size >= 0
      modifies this`start, this`end
      ensures var s := Base(l, f) + l.start;
              err == if !KnownWhence(l) then -22
                     else if s > OFFSET_MAX then -75
                     else if s < 0 then -22
                     else if s + l.len - 1 > OFFSET_MAX then -75
                     else if s + l.len < 0 then -22 else 0
      ensures err == 0 ==> start == FirstByte(l, f) && end == LastByte(l, f)
    {
      if l.whence == SEEK_SET {
        start := 0;
      } else if l.whence == SEEK_CUR {
        start := f.pos;
      } else if l.whence == SEEK_END {
        start := f.size;
      } else {
        return -EINVAL;
      }
      if l.start > Minus(OFFSET_MAX, start) {
        return -EOVERFLOW;
      }
      start := Plus(start, l.start);
      if start < 0 {
        return -EINVAL;
      }
      if l.len > 0 {
        if Minus(l.len, 1) > Minus(OFFSET_MAX, start) {
          return -EOVERFLOW;
        }
        EndOfRange(start, l.len);
        end := Minus(Plus(start, l.len), 1);
      } else if l.len < 0 {
        if Plus(start, l.len) < 0 {
          return -EINVAL;
        }
        end := Minus(start, 1);
        start := Plus(start, l.len);
      } else {
        end := OFFSET_MAX;
      }
      err := 0;
    }
  }
}
