/** What callers do with the bulk macros: fill a buffer with a list of items, and read a buffer to
    its end. */
module BulkLists {
  import opened Octets
  import opened BulkWords
  import opened BulkItems
  import opened BulkBuffer

  method InitFor(dbt: Dbt, f: Format) returns (pointer: nat)
    requires dbt.Valid()
    modifies dbt.data, dbt`bulk
    ensures dbt.bulk && Encoded(f, dbt.Contents(), pointer, [])
  {
    InitEncodes(f, dbt.Contents());
    if f == Numbered {
      pointer := dbt.RecnoWriteInit();
    } else {
      assert Init(f, dbt.Contents()) == Init(Plain, dbt.Contents());
      pointer := dbt.WriteInit();
    }
  }

  method Append(dbt: Dbt, f: Format, pointer: nat, i: Item) returns (next: Pointer)
    requires dbt.Valid() && pointer + WORD <= dbt.data.Length && dbt.WriteCursor(pointer) && Of(f, i)
    modifies dbt.data
    ensures Wrote(Put(f, old(dbt.Contents()), pointer, i), old(dbt.Contents()), dbt.Contents(), next)
  {
    match i
    case Datum(d) => next := dbt.WriteNext(pointer, d);
    case Pair(k, d) => next := dbt.KeyWriteNext(pointer, k, d);
    case Record(r, d) => next := dbt.RecnoWriteNext(pointer, r, d);
  }

  // A list of items goes into the buffer exactly when it fits, and is then read back from it.
  method WriteAll(dbt: Dbt, f: Format, items: seq<Item>) returns (ok: bool)
    requires dbt.Valid() && AllOf(f, items)
    modifies dbt.data, dbt`bulk
    ensures ok <==> Needed(f, items) <= dbt.data.Length
    ensures ok ==> ReadsBack(f, dbt.Contents(), items)
  {
    var pointer := InitFor(dbt, f);
    var k := 0;
    assert items[..0] == [];
    while k < |items|
      invariant k <= |items| && Encoded(f, dbt.Contents(), pointer, items[..k])
    {
      var done := AppendNext(dbt, f, pointer, items, k);
      if done == Null {
        return false;
      }
      pointer := done.offset;
      k := k + 1;
    }
    assert items[..k] == items;
    EncodedFits(f, dbt.Contents(), pointer, items);
    EncodedReadsBack(f, dbt.Contents(), pointer, items);
    ok := true;
  }

  method AppendNext(dbt: Dbt, f: Format, pointer: nat, items: seq<Item>, k: nat) returns (next: Pointer)
    requires dbt.Valid() && AllOf(f, items) && k < |items|
    requires Encoded(f, dbt.Contents(), pointer, items[..k])
    modifies dbt.data
    ensures next == Null ==> Needed(f, items) > dbt.data.Length
    ensures next.To? ==> Encoded(f, dbt.Contents(), next.offset, items[..k + 1])
  {
    ghost var s := dbt.Contents();
    assert items[..k] + [items[k]] == items[..k + 1];
    PutFits(f, s, pointer, items[..k], items[k]);
    NeededGrows(f, items, k + 1);
    if Put(f, s, pointer, items[k]).Room? {
      PutAppends(f, s, pointer, items[..k], items[k]);
    }
    next := Append(dbt, f, pointer, items[k]);
  }

  lemma EncodedFits(f: Format, s: seq<Byte>, p: int, items: seq<Item>)
    requires Encoded(f, s, p, items)
    ensures Needed(f, items) <= |s|
  {
    WordsCount(f, items);
  }

  lemma {:induction false} NeededGrows(f: Format, items: seq<Item>, k: nat)
    requires k <= |items|
    ensures Needed(f, items[..k]) <= Needed(f, items)
    decreases |items|
  {
    if k == |items| {
      assert items[..k] == items;
    } else {
      var front := items[..|items| - 1];
      assert front[..k] == items[..k];
      NeededGrows(f, front, k);
    }
  }

  // What the macro for the format stores in its variables, as one record; over at the end.
  method Fetch(dbt: Dbt, f: Format, pointer: nat) returns (g: Fetched)
    requires pointer + WORD <= dbt.data.Length
    requires Load(dbt.Contents(), pointer) == End(f) || WORD * Width(f) <= pointer
    ensures g == Get(f, dbt.Contents(), pointer)
  {
    match f
    case Plain =>
      var next, data, len := dbt.Next(pointer);
      g := if next == Null then Over else Got(pointer - 2 * WORD, 0, NO_PIECE, Piece(data, len));
    case Keyed =>
      var next, key, klen, data, len := dbt.KeyNext(pointer);
      g := if next == Null then Over else Got(pointer - 4 * WORD, 0, Piece(key, klen), Piece(data, len));
    case Numbered =>
      var next, recno, data, len := dbt.RecnoNext(pointer);
      g := if next == Null then Over else Got(pointer - 3 * WORD, recno, NO_PIECE, Piece(data, len));
  }

  // Reading until the pointer is null collects what the buffer lists.
  method ReadAll(dbt: Dbt, f: Format) returns (pieces: seq<Fetched>)
    requires dbt.Valid() && Collect(f, dbt.Contents(), dbt.data.Length - WORD).Listed?
    ensures Collect(f, dbt.Contents(), dbt.data.Length - WORD) == Listed(pieces)
  {
    ghost var s := dbt.Contents();
    ghost var all := Collect(f, s, |s| - WORD).pieces;
    var pointer: int := dbt.ReadInit();
    pieces := [];
    while true
      invariant Collect(f, s, pointer).Listed? && all == pieces + Collect(f, s, pointer).pieces
      decreases pointer
    {
      CollectNext(f, s, pointer);
      var g := Fetch(dbt, f, pointer);
      if g == Over {
        return;
      }
      pieces := pieces + [g];
      pointer := g.next;
    }
  }

  lemma CollectNext(f: Format, s: seq<Byte>, p: int)
    requires Collect(f, s, p).Listed?
    ensures 0 <= p <= |s| - WORD
    ensures Load(s, p) == End(f) || WORD * Width(f) <= p
    ensures var g := Get(f, s, p);
            if g.Over? then Collect(f, s, p) == Listed([])
            else g.next < p && Collect(f, s, g.next).Listed? && Collect(f, s, p).pieces == [g] + Collect(f, s, g.next).pieces
  {
  }

  lemma BackStands(f: Format, s: seq<Byte>, items: seq<Item>, pieces: seq<Fetched>)
    requires ReadsBack(f, s, items) && Collect(f, s, |s| - WORD) == Listed(pieces)
    ensures AllStand(s, pieces, BeforeZero(items)) && InPlace(pieces, items, 0)
  {
  }

  // Read from a buffer that items were written to, that is the items up to the first record
  // numbered 0, each in its place.
  method ReadItems(dbt: Dbt, f: Format, ghost items: seq<Item>) returns (pieces: seq<Fetched>)
    requires dbt.Valid() && ReadsBack(f, dbt.Contents(), items)
    ensures AllStand(dbt.Contents(), pieces, BeforeZero(items)) && InPlace(pieces, items, 0)
  {
    pieces := ReadAll(dbt, f);
    BackStands(f, dbt.Contents(), items, pieces);
  }
}
