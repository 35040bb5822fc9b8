/** A DBT with its caller-allocated bytes: the bulk macros as methods that store into it. */
module BulkBuffer {
  import opened Octets
  import opened BulkWords
  import opened BulkItems

  // An append answered w turns the buffer from before into after and the cursor into next.
  ghost predicate Wrote(w: Written, before: seq<Byte>, after: seq<Byte>, next: Pointer) {
    match w
    case NoRoom => next == Null && after == before
    case Room(buffer, cursor) => next == To(cursor) && after == buffer
  }

  class Dbt {
    const data: array<Byte>  // ulen bytes
    var bulk: bool           // DB_DBT_BULK in flags

    constructor (data: array<Byte>)
      ensures this.data == data && !bulk
    {
      this.data := data;
      bulk := false;
    }

    ghost predicate Valid() {
      WORD <= data.Length < WORD_LIMIT
    }

    ghost function Contents(): seq<Byte>
      reads data
    {
      data[..]
    }

    // A cursor at which a writer may look at the last header, if there is one.
    ghost predicate WriteCursor(p: nat) {
      p + WORD == data.Length || p + 3 * WORD <= data.Length
    }

    method StoreAt(p: nat, w: Word)
      requires p + WORD <= data.Length
      modifies data
      ensures Contents() == Store(old(Contents()), p, w)
    {
      data[p] := w % 0x100;
      data[p + 1] := w / 0x100 % 0x100;
      data[p + 2] := w / 0x1_0000 % 0x100;
      data[p + 3] := w / 0x100_0000;
    }

    method StoreTwo(p: nat, a: Word, b: Word)
      requires p + WORD <= data.Length && WORD <= p
      modifies data
      ensures Contents() == StoreDown(old(Contents()), p, [a, b])
    {
      StoreAt(p, a);
      StoreAt(p - WORD, b);
      DownTwo(old(Contents()), p, a, b);
    }

    method StoreThree(p: nat, a: Word, b: Word, c: Word)
      requires p + WORD <= data.Length && 2 * WORD <= p
      modifies data
      ensures Contents() == StoreDown(old(Contents()), p, [a, b, c])
    {
      StoreAt(p, a);
      StoreTwo(p - WORD, b, c);
      DownMore(old(Contents()), p, [a], [b, c]);
      assert [a] + [b, c] == [a, b, c];
    }

    method LoadAt(p: nat) returns (w: Word)
      requires p + WORD <= data.Length
      ensures w == Load(Contents(), p)
    {
      var b0: int, b1: int, b2: int, b3: int := data[p], data[p + 1], data[p + 2], data[p + 3];
      w := b0 + 0x100 * b1 + 0x1_0000 * b2 + 0x100_0000 * b3;
    }

    // memcpy
    method CopyAt(off: nat, bytes: seq<Byte>)
      requires off + |bytes| <= data.Length
      modifies data
      ensures Contents() == CopyIn(old(Contents()), off, bytes)
    {
      forall k | 0 <= k < |bytes| {
        data[off + k] := bytes[k];
      }
    }

    // Both copies of a pair into the room reserved at cursor p of buffer s.
    method CopyPair(ghost s: seq<Byte>, ghost p: nat, destk: Pointer, key: seq<Byte>, destd: Pointer, bytes: seq<Byte>)
      requires p + WORD <= |s| < WORD_LIMIT && (p + WORD == |s| || p + 3 * WORD <= |s|)
      requires var off := NextFree(s, p);
               && destk == To(off) && destd == To(off + |key|) && off + |key| + |bytes| <= p - 4 * WORD
               && Contents() == StoreDown(s, p, [off, |key|, off + |key|, |bytes|, MINUS_ONE])
      modifies data
      ensures Wrote(Put(Keyed, s, p, Pair(key, bytes)), s, Contents(), To(p - 4 * WORD))
    {
      CopyAt(destk.offset, key);
      if destd != Null {
        CopyAt(destd.offset, bytes);
      }
      PairWrote(s, p, key, bytes, Contents());
    }

    // The bytes of a record, unless there are none, into the room reserved at cursor p of buffer s.
    method CopyRecord(ghost s: seq<Byte>, ghost p: nat, ghost recno: Word, dest: Pointer, bytes: seq<Byte>)
      requires p + WORD <= |s| < WORD_LIMIT && (p + WORD == |s| || p + 3 * WORD <= |s|)
      requires var off := NextFree(s, p);
               && dest == To(off) && off + |bytes| <= p - 3 * WORD
               && Contents() == StoreDown(s, p, [recno, off, |bytes|, 0])
      modifies data
      ensures Wrote(Put(Numbered, s, p, Record(recno, bytes)), s, Contents(), To(p - 3 * WORD))
    {
      RecordWrote(s, p, recno, bytes);
      if |bytes| != 0 {
        CopyAt(dest.offset, bytes);
      }
    }

    method FreeOffset(p: nat) returns (off: Word)
      requires Valid() && p + WORD <= data.Length && WriteCursor(p)
      ensures off == NextFree(Contents(), p)
    {
      if p == data.Length - WORD {
        off := 0;
      } else {
        var len: nat := LoadAt(p + WORD);
        var at: nat := LoadAt(p + 2 * WORD);
        off := Wrap(len + at);
      }
    }

    // ---- Data items ----

    method WriteInit() returns (pointer: nat)
      requires Valid()
      modifies data, this`bulk
      ensures bulk && pointer == data.Length - WORD
      ensures Contents() == Init(Plain, old(Contents()))
    {
      bulk := true;
      pointer := data.Length - WORD;
      StoreAt(pointer, MINUS_ONE);
    }

    method ReserveNext(pointer: nat, writedlen: nat) returns (writedata: Pointer, next: nat)
      requires Valid() && pointer + WORD <= data.Length && WriteCursor(pointer)
      modifies data
      ensures var off := NextFree(old(Contents()), pointer);
              if off + writedlen > pointer - 2 * WORD then
                writedata == Null && next == pointer && Contents() == old(Contents())
              else
                && writedata == To(off) && next == pointer - 2 * WORD
                && Contents() == StoreDown(old(Contents()), pointer, [off, writedlen, MINUS_ONE])
    {
      next := pointer;
      var off := FreeOffset(pointer);
      if off + writedlen > pointer - 2 * WORD {
        writedata := Null;
      } else {
        writedata := To(off);
        StoreThree(pointer, off, writedlen, MINUS_ONE);
        next := pointer - 2 * WORD;
      }
    }

    method WriteNext(pointer: nat, writedata: seq<Byte>) returns (next: Pointer)
      requires Valid() && pointer + WORD <= data.Length && WriteCursor(pointer)
      modifies data
      ensures Wrote(Put(Plain, old(Contents()), pointer, Datum(writedata)), old(Contents()), Contents(), next)
    {
      var dest, p := ReserveNext(pointer, |writedata|);
      if dest == Null {
        next := Null;
      } else {
        CopyAt(dest.offset, writedata);
        next := To(p);
        assert Header(Datum(writedata), dest.offset) + [MINUS_ONE] == [dest.offset, |writedata|, MINUS_ONE];
      }
    }

    // DB_MULTIPLE_INIT
    method ReadInit() returns (pointer: nat)
      requires Valid()
      ensures pointer == CursorAt(Plain, data.Length, 0)
    {
      pointer := data.Length - WORD;
    }

    method Next(pointer: nat) returns (next: Pointer, retdata: Pointer, retdlen: Word)
      requires pointer + WORD <= data.Length
      requires Load(Contents(), pointer) == MINUS_ONE || 2 * WORD <= pointer
      ensures match Get(Plain, Contents(), pointer)
              case Over => next == Null && retdata == Null
              case Got(p, _, _, d) => next == To(p) && Piece(retdata, retdlen) == d
    {
      var w := LoadAt(pointer);
      if w == MINUS_ONE {
        return Null, Null, 0;
      }
      retdata := To(w);
      retdlen := LoadAt(pointer - WORD);
      next := To(pointer - 2 * WORD);
      if retdlen == 0 && retdata == To(0) {
        retdata := Null;
      }
    }

    // ---- Key/data pairs ----

    method KeyReserveNext(pointer: nat, writeklen: nat, writedlen: nat) returns (writekey: Pointer, writedata: Pointer, next: nat)
      requires Valid() && pointer + WORD <= data.Length && WriteCursor(pointer)
      modifies data
      ensures var off := NextFree(old(Contents()), pointer);
              if off + writeklen + writedlen > pointer - 4 * WORD then
                writekey == Null && writedata == Null && next == pointer && Contents() == old(Contents())
              else
                && writekey == To(off) && writedata == To(off + writeklen) && next == pointer - 4 * WORD
                && Contents() == StoreDown(old(Contents()), pointer, [off, writeklen, off + writeklen, writedlen, MINUS_ONE])
    {
      next := pointer;
      var off := FreeOffset(pointer);
      if off + writeklen + writedlen > pointer - 4 * WORD {
        writekey := Null;
        writedata := Null;
      } else {
        writekey := To(off);
        StoreTwo(pointer, off, writeklen);
        var p := pointer - 2 * WORD;
        ghost var key := [off, writeklen];
        off := Wrap(off + writeklen);
        writedata := To(off);
        StoreThree(p, off, writedlen, MINUS_ONE);
        next := p - 2 * WORD;
        DownMore(old(Contents()), pointer, key, [off, writedlen, MINUS_ONE]);
        assert key + [off, writedlen, MINUS_ONE] == [key[0], key[1], off, writedlen, MINUS_ONE];
      }
    }

    method KeyWriteNext(pointer: nat, writekey: seq<Byte>, writedata: seq<Byte>) returns (next: Pointer)
      requires Valid() && pointer + WORD <= data.Length && WriteCursor(pointer)
      modifies data
      ensures Wrote(Put(Keyed, old(Contents()), pointer, Pair(writekey, writedata)), old(Contents()), Contents(), next)
    {
      ghost var was := Contents();
      var destk, destd, p := KeyReserveNext(pointer, |writekey|, |writedata|);
      if destk == Null {
        next := Null;
      } else {
        CopyPair(was, pointer, destk, writekey, destd, writedata);
        next := To(p);
      }
    }

    method KeyNext(pointer: nat) returns (next: Pointer, retkey: Pointer, retklen: Word, retdata: Pointer, retdlen: Word)
      requires pointer + WORD <= data.Length
      requires Load(Contents(), pointer) == MINUS_ONE || 4 * WORD <= pointer
      ensures match Get(Keyed, Contents(), pointer)
              case Over => next == Null && retkey == Null && retdata == Null
              case Got(p, _, k, d) => next == To(p) && Piece(retkey, retklen) == k && Piece(retdata, retdlen) == d
    {
      var w := LoadAt(pointer);
      if w == MINUS_ONE {
        return Null, Null, 0, Null, 0;
      }
      retkey := To(w);
      retklen := LoadAt(pointer - WORD);
      w := LoadAt(pointer - 2 * WORD);
      retdata := To(w);
      retdlen := LoadAt(pointer - 3 * WORD);
      next := To(pointer - 4 * WORD);
    }

    // ---- Numbered records ----

    method RecnoWriteInit() returns (pointer: nat)
      requires Valid()
      modifies data, this`bulk
      ensures bulk && pointer == data.Length - WORD
      ensures Contents() == Init(Numbered, old(Contents()))
    {
      bulk := true;
      pointer := data.Length - WORD;
      StoreAt(pointer, 0);
    }

    method RecnoReserveNext(pointer: nat, recno: Word, writedlen: nat) returns (writedata: Pointer, next: nat)
      requires Valid() && pointer + WORD <= data.Length && WriteCursor(pointer)
      modifies data
      ensures var off := NextFree(old(Contents()), pointer);
              if off + writedlen > pointer - 3 * WORD then
                writedata == Null && next == pointer && Contents() == old(Contents())
              else
                && writedata == To(off) && next == pointer - 3 * WORD
                && Contents() == StoreDown(old(Contents()), pointer, [recno, off, writedlen, 0])
    {
      next := pointer;
      var off := FreeOffset(pointer);
      if off + writedlen > pointer - 3 * WORD {
        writedata := Null;
      } else {
        writedata := To(off);
        StoreTwo(pointer, recno, off);
        StoreTwo(pointer - 2 * WORD, writedlen, 0);
        next := pointer - 3 * WORD;
        DownMore(old(Contents()), pointer, [recno, off], [writedlen, 0]);
        assert [recno, off] + [writedlen, 0] == [recno, off, writedlen, 0];
      }
    }

    method RecnoWriteNext(pointer: nat, recno: Word, writedata: seq<Byte>) returns (next: Pointer)
      requires Valid() && pointer + WORD <= data.Length && WriteCursor(pointer)
      modifies data
      ensures Wrote(Put(Numbered, old(Contents()), pointer, Record(recno, writedata)), old(Contents()), Contents(), next)
    {
      ghost var was := Contents();
      var dest, p := RecnoReserveNext(pointer, recno, |writedata|);
      if dest == Null {
        next := Null;
      } else {
        CopyRecord(was, pointer, recno, dest, writedata);
        next := To(p);
      }
    }

    method RecnoNext(pointer: nat) returns (next: Pointer, recno: Word, retdata: Pointer, retdlen: Word)
      requires pointer + WORD <= data.Length
      requires Load(Contents(), pointer) == 0 || 3 * WORD <= pointer
      ensures match Get(Numbered, Contents(), pointer)
              case Over => next == Null && recno == 0 && retdata == Null
              case Got(p, r, _, d) => next == To(p) && recno == r && Piece(retdata, retdlen) == d
    {
      var w := LoadAt(pointer);
      if w == 0 {
        return Null, 0, Null, 0;
      }
      recno := w;
      w := LoadAt(pointer - WORD);
      retdata := To(w);
      retdlen := LoadAt(pointer - 2 * WORD);
      next := To(pointer - 3 * WORD);
    }
  }

  // Appending a pair copies the key and behind it the data.
  lemma PairWrote(s: seq<Byte>, p: nat, key: seq<Byte>, data: seq<Byte>, after: seq<Byte>)
    requires p + WORD <= |s| < WORD_LIMIT && (p + WORD == |s| || p + 3 * WORD <= |s|)
    requires NextFree(s, p) + |key| + |data| <= p - 4 * WORD
    requires var off := NextFree(s, p);
             after == CopyIn(CopyIn(StoreDown(s, p, [off, |key|, off + |key|, |data|, MINUS_ONE]), off, key), off + |key|, data)
    ensures Wrote(Put(Keyed, s, p, Pair(key, data)), s, after, To(p - 4 * WORD))
  {
    var off := NextFree(s, p);
    var ws := [off, |key|, off + |key|, |data|, MINUS_ONE];
    assert Header(Pair(key, data), off) + [MINUS_ONE] == ws;
    CopyTwo(StoreDown(s, p, ws), off, key, data);
  }

  lemma RecordWrote(s: seq<Byte>, p: nat, recno: Word, data: seq<Byte>)
    requires p + WORD <= |s| < WORD_LIMIT && (p + WORD == |s| || p + 3 * WORD <= |s|)
    requires NextFree(s, p) + |data| <= p - 3 * WORD
    ensures var off := NextFree(s, p);
            var reserved := StoreDown(s, p, [recno, off, |data|, 0]);
            && Wrote(Put(Numbered, s, p, Record(recno, data)), s, CopyIn(reserved, off, data), To(p - 3 * WORD))
            && (data == [] ==> CopyIn(reserved, off, data) == reserved)
  {
    var off := NextFree(s, p);
    assert Header(Record(recno, data), off) + [0] == [recno, off, |data|, 0];
  }

  lemma DownTwo(s: seq<Byte>, p: nat, a: Word, b: Word)
    requires p + WORD <= |s| && WORD <= p
    ensures StoreDown(s, p, [a, b]) == Store(Store(s, p, a), p - WORD, b)
  {
    assert [a, b][1..] == [b];
  }

  // Words stored below words.
  lemma {:induction false} DownMore(s: seq<Byte>, p: nat, ws: seq<Word>, more: seq<Word>)
    requires p + WORD <= |s| && more != [] && WORD * (|ws| + |more|) <= p + WORD
    ensures StoreDown(s, p, ws + more) == StoreDown(StoreDown(s, p, ws), p - WORD * |ws|, more)
    decreases |ws|
  {
    if ws == [] {
      assert ws + more == more;
    } else {
      assert (ws + more)[1..] == ws[1..] + more;
      DownMore(Store(s, p, ws[0]), p - WORD, ws[1..], more);
    }
  }
}
