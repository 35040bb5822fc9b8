/** The three formats of a bulk DBT as functions on its bytes: appending an item, fetching the
    item under the cursor, and what a buffer filled by appends gives back. */
module BulkItems {
  import opened Octets
  import opened BulkWords

  datatype Format = Plain | Keyed | Numbered

  datatype Item = Datum(data: seq<Byte>) | Pair(key: seq<Byte>, data: seq<Byte>) | Record(recno: Word, data: seq<Byte>)

  predicate Of(f: Format, i: Item) {
    match f
    case Plain => i.Datum?
    case Keyed => i.Pair?
    case Numbered => i.Record?
  }

  ghost predicate AllOf(f: Format, items: seq<Item>) {
    forall k: nat :: k < |items| ==> Of(f, items[k])
  }

  // How many header words an item takes.
  function Width(f: Format): nat {
    match f case Plain => 2 case Keyed => 4 case Numbered => 3
  }

  // How many header words n items take.
  function Widths(f: Format, n: nat): nat {
    match f case Plain => 2 * n case Keyed => 4 * n case Numbered => 3 * n
  }

  function End(f: Format): Word {
    if f == Numbered then 0 else MINUS_ONE
  }

  function Bytes(i: Item): seq<Byte> {
    if i.Pair? then i.key + i.data else i.data
  }

  // The header words of an item whose bytes start at off, the highest first.
  function Header(i: Item, off: nat): seq<Word>
    requires off + |Bytes(i)| < WORD_LIMIT
  {
    match i
    case Datum(d) => [off, |d|]
    case Pair(k, d) => [off, |k|, off + |k|, |d|]
    case Record(r, d) => [r, off, |d|]
  }

  // ---- What a buffer of items holds ----

  function AllBytes(items: seq<Item>): seq<Byte> {
    if items == [] then [] else AllBytes(items[..|items| - 1]) + Bytes(items[|items| - 1])
  }

  function AllWords(items: seq<Item>): seq<Word>
    requires |AllBytes(items)| < WORD_LIMIT
  {
    if items == [] then []
    else
      var front := items[..|items| - 1];
      AllWords(front) + Header(items[|items| - 1], |AllBytes(front)|)
  }

  // Buffer s holds items in format f, and p is the place for the next header word.
  ghost predicate Encoded(f: Format, s: seq<Byte>, p: int, items: seq<Item>) {
    && AllOf(f, items)
    && |AllBytes(items)| < WORD_LIMIT
    && Layout(s, AllBytes(items), AllWords(items), End(f))
    && p == Slot(|s|, |AllWords(items)|)
  }

  // The bytes a buffer needs to hold items.
  ghost function Needed(f: Format, items: seq<Item>): nat {
    |AllBytes(items)| + WORD * (Widths(f, |items|) + 1)
  }

  lemma {:induction false} WordsCount(f: Format, items: seq<Item>)
    requires AllOf(f, items) && |AllBytes(items)| < WORD_LIMIT
    ensures |AllWords(items)| == Widths(f, |items|)
  {
    if items != [] {
      WordsCount(f, items[..|items| - 1]);
      assert Of(f, items[|items| - 1]);
    }
  }

  // ---- Appending ----

  // Where the next item's bytes go, computed from the header of the last one.
  function NextFree(s: seq<Byte>, p: nat): Word
    requires p + WORD <= |s|
    requires p + WORD == |s| || p + 3 * WORD <= |s|
  {
    if p + WORD == |s| then 0 else Wrap(Load(s, p + WORD) + Load(s, p + 2 * WORD))
  }

  datatype Written = NoRoom | Room(buffer: seq<Byte>, cursor: nat)

  function Init(f: Format, s: seq<Byte>): seq<Byte>
    requires WORD <= |s|
  {
    Store(s, |s| - WORD, End(f))
  }

  function Put(f: Format, s: seq<Byte>, p: nat, i: Item): Written
    requires p + WORD <= |s| < WORD_LIMIT
    requires p + WORD == |s| || p + 3 * WORD <= |s|
    requires Of(f, i)
  {
    var off := NextFree(s, p);
    if off + |Bytes(i)| > p - WORD * Width(f) then NoRoom
    else Room(CopyIn(StoreDown(s, p, Header(i, off) + [End(f)]), off, Bytes(i)), p - WORD * Width(f))
  }

  lemma InitEncodes(f: Format, s: seq<Byte>)
    requires WORD <= |s| < WORD_LIMIT
    ensures Encoded(f, Init(f, s), |s| - WORD, [])
  {
    StoreLoads(s, |s| - WORD, End(f));
  }

  lemma LastTwo(i: Item, off: nat)
    requires off + |Bytes(i)| < WORD_LIMIT
    ensures var h := Header(i, off); |h| >= 2 && h[|h| - 1] + h[|h| - 2] == off + |Bytes(i)|
  {
  }

  lemma LastTwoWords(items: seq<Item>)
    requires items != [] && |AllBytes(items)| < WORD_LIMIT
    ensures var w := AllWords(items); |w| >= 2 && w[|w| - 1] + w[|w| - 2] == |AllBytes(items)|
  {
    var n := |items| - 1;
    LastTwo(items[n], |AllBytes(items[..n])|);
  }

  lemma LayoutLoads(s: seq<Byte>, data: seq<Byte>, words: seq<Word>, end: Word, j: nat)
    requires Layout(s, data, words, end) && j < |words|
    ensures Slot(|s|, j) >= 0 && Load(s, Slot(|s|, j)) == words[j]
  {
  }

  lemma LayoutNext(s: seq<Byte>, p: int, data: seq<Byte>, words: seq<Word>, end: Word)
    requires Layout(s, data, words, end) && p == Slot(|s|, |words|)
    requires |words| >= 2 && (words[|words| - 1] as int) + (words[|words| - 2] as int) == |data|
    ensures p >= 0 && p + 3 * WORD <= |s| && NextFree(s, p) == |data|
  {
    LayoutLoads(s, data, words, end, |words| - 1);
    LayoutLoads(s, data, words, end, |words| - 2);
  }

  // The last header's offset and length lead behind the last byte, in every format.
  lemma NextFreeIsEnd(f: Format, s: seq<Byte>, p: int, items: seq<Item>)
    requires Encoded(f, s, p, items)
    ensures p >= 0 && p + WORD <= |s| && (p + WORD == |s| || p + 3 * WORD <= |s|)
    ensures p + WORD == |s| <==> items == []
    ensures NextFree(s, p) == |AllBytes(items)|
  {
    if items != [] {
      LastTwoWords(items);
      LayoutNext(s, p, AllBytes(items), AllWords(items), End(f));
    }
  }

  lemma LayoutPut(f: Format, s: seq<Byte>, p: nat, data: seq<Byte>, words: seq<Word>, i: Item)
    requires Layout(s, data, words, End(f)) && p == Slot(|s|, |words|) && Of(f, i)
    requires p + WORD == |s| || p + 3 * WORD <= |s|
    requires NextFree(s, p) == |data|
    ensures Put(f, s, p, i).Room? <==> |data| + |Bytes(i)| + WORD * (|words| + Width(f) + 1) <= |s|
    ensures var w := Put(f, s, p, i);
            w.Room? ==>
              && |w.buffer| == |s|
              && w.cursor == Slot(|s|, |words + Header(i, |data|)|)
              && |Header(i, |data|)| == Width(f)
              && Layout(w.buffer, data + Bytes(i), words + Header(i, |data|), End(f))
  {
    if Put(f, s, p, i).Room? {
      PushKeepsLayout(s, data, words, End(f), Header(i, |data|), Bytes(i));
    }
  }

  lemma OneMore(items: seq<Item>, i: Item)
    requires |AllBytes(items + [i])| < WORD_LIMIT
    ensures AllBytes(items + [i]) == AllBytes(items) + Bytes(i)
    ensures AllWords(items + [i]) == AllWords(items) + Header(i, |AllBytes(items)|)
  {
    assert (items + [i])[..|items|] == items;
  }

  // An append succeeds exactly when the buffer is large enough for the longer list;
  lemma PutFits(f: Format, s: seq<Byte>, p: nat, items: seq<Item>, i: Item)
    requires Encoded(f, s, p, items) && Of(f, i)
    ensures p + WORD <= |s| && (p + WORD == |s| || p + 3 * WORD <= |s|)
    ensures Put(f, s, p, i).Room? <==> Needed(f, items + [i]) <= |s|
  {
    NextFreeIsEnd(f, s, p, items);
    WordsCount(f, items);
    assert (items + [i])[..|items|] == items;
    assert AllBytes(items + [i]) == AllBytes(items) + Bytes(i);
  }

  // it then holds it.
  lemma PutAppends(f: Format, s: seq<Byte>, p: nat, items: seq<Item>, i: Item)
    requires Encoded(f, s, p, items) && Of(f, i)
    requires p + WORD <= |s| && (p + WORD == |s| || p + 3 * WORD <= |s|) && Put(f, s, p, i).Room?
    ensures var w := Put(f, s, p, i);
            |w.buffer| == |s| && Encoded(f, w.buffer, w.cursor, items + [i])
  {
    NextFreeIsEnd(f, s, p, items);
    LayoutPut(f, s, p, AllBytes(items), AllWords(items), i);
    assert AllBytes(items + [i]) == AllBytes(items) + Bytes(i) by {
      assert (items + [i])[..|items|] == items;
    }
    OneMore(items, i);
  }

  lemma LayoutsAgree(s: seq<Byte>, r: seq<Byte>, data: seq<Byte>, more: seq<Byte>, words: seq<Word>, longer: seq<Word>, end: Word)
    requires Layout(s, data, words, end) && Layout(r, data + more, words + longer, end) && |r| == |s|
    ensures r[..|data|] == s[..|data|]
    ensures forall j: nat :: j < |words| ==> Load(r, Slot(|s|, j)) == Load(s, Slot(|s|, j))
  {
    assert r[..|data|] == r[..|data + more|][..|data|];
    forall j: nat | j < |words|
      ensures Load(r, Slot(|s|, j)) == Load(s, Slot(|s|, j))
    {
      LayoutLoads(s, data, words, end, j);
      LayoutLoads(r, data + more, words + longer, end, j);
    }
  }

  // An append touches neither the bytes of the items that are there nor their header words.
  lemma PutKeepsEarlier(f: Format, s: seq<Byte>, p: nat, items: seq<Item>, i: Item)
    requires Encoded(f, s, p, items) && Of(f, i)
    requires p + WORD <= |s| && (p + WORD == |s| || p + 3 * WORD <= |s|) && Put(f, s, p, i).Room?
    ensures var r := Put(f, s, p, i).buffer;
            && |r| == |s|
            && r[..|AllBytes(items)|] == s[..|AllBytes(items)|]
            && forall j: nat :: j < |AllWords(items)| ==> Load(r, Slot(|s|, j)) == Load(s, Slot(|s|, j))
  {
    NextFreeIsEnd(f, s, p, items);
    var r := Put(f, s, p, i).buffer;
    var data, words := AllBytes(items), AllWords(items);
    LayoutPut(f, s, p, data, words, i);
    LayoutsAgree(s, r, data, Bytes(i), words, Header(i, |data|), End(f));
  }

  // ---- Fetching ----

  // A pointer into the data area and a length.
  datatype Piece = Piece(at: Pointer, len: Word)

  datatype Fetched = Over | Got(next: int, recno: Word, key: Piece, data: Piece)

  const NO_PIECE: Piece := Piece(Null, 0)

  // The header words from p downwards.
  function HeaderAt(f: Format, s: seq<Byte>, p: nat): (h: seq<Word>)
    requires WORD * (Width(f) - 1) <= p && p + WORD <= |s|
    ensures |h| == Width(f)
  {
    match f
    case Plain => [Load(s, p), Load(s, p - WORD)]
    case Keyed => [Load(s, p), Load(s, p - WORD), Load(s, p - 2 * WORD), Load(s, p - 3 * WORD)]
    case Numbered => [Load(s, p), Load(s, p - WORD), Load(s, p - 2 * WORD)]
  }

  function Decode(f: Format, h: seq<Word>, next: int): Fetched
    requires |h| == Width(f)
  {
    match f
    case Plain => Got(next, 0, NO_PIECE, Piece(if h[0] == 0 && h[1] == 0 then Null else To(h[0]), h[1]))
    case Keyed => Got(next, 0, Piece(To(h[0]), h[1]), Piece(To(h[2]), h[3]))
    case Numbered => Got(next, h[0], NO_PIECE, Piece(To(h[1]), h[2]))
  }

  function Get(f: Format, s: seq<Byte>, p: nat): Fetched
    requires p + WORD <= |s|
    requires Load(s, p) == End(f) || WORD * (Width(f) - 1) <= p
  {
    if Load(s, p) == End(f) then Over else Decode(f, HeaderAt(f, s, p), p - WORD * Width(f))
  }

  // The bytes a piece stands for, if they lie in the buffer.
  ghost predicate Reads(s: seq<Byte>, piece: Piece, bytes: seq<Byte>) {
    if piece.at == Null then piece.len == 0 && bytes == []
    else
      && piece.at.offset + piece.len <= |s|
      && bytes == s[piece.at.offset..piece.at.offset + piece.len]
  }

  ghost predicate Stands(s: seq<Byte>, g: Fetched, i: Item) {
    && g.Got?
    && Reads(s, g.data, i.data)
    && Reads(s, g.key, if i.Pair? then i.key else [])
    && (i.Record? ==> g.recno == i.recno)
  }

  // Where the pieces of an item lie whose bytes start at off, empty pieces too.
  ghost predicate Placed(g: Fetched, i: Item, off: nat) {
    && g.Got?
    && match i
       case Datum(d) => g.key.at == Null && g.data.at == (if d == [] && off == 0 then Null else To(off))
       case Pair(k, d) => g.key.at == To(off) && g.data.at == To(off + |k|)
       case Record(_, d) => g.key.at == Null && g.data.at == To(off)
  }

  // The cursor in front of the k-th item.
  function CursorAt(f: Format, size: nat, k: nat): int {
    Slot(size, Widths(f, k))
  }

  lemma {:induction false} PrefixBytes(items: seq<Item>, k: nat)
    requires k < |items|
    ensures AllBytes(items[..k]) + Bytes(items[k]) <= AllBytes(items)
    decreases |items|
  {
    var front := items[..|items| - 1];
    if k < |front| {
      PrefixBytes(front, k);
      assert front[..k] == items[..k];
    }
  }

  lemma {:induction false} PrefixWords(items: seq<Item>, k: nat)
    requires k < |items| && |AllBytes(items)| < WORD_LIMIT
    ensures |AllBytes(items[..k])| + |Bytes(items[k])| < WORD_LIMIT
    ensures AllWords(items[..k]) + Header(items[k], |AllBytes(items[..k])|) <= AllWords(items)
    decreases |items|
  {
    PrefixBytes(items, k);
    var front := items[..|items| - 1];
    if k < |front| {
      PrefixWords(front, k);
      assert front[..k] == items[..k];
    }
  }

  // What the buffer says about its k-th item: the bytes in their place,
  lemma BytesAt(f: Format, s: seq<Byte>, p: int, items: seq<Item>, k: nat)
    requires Encoded(f, s, p, items) && k < |items|
    ensures |AllBytes(items[..k])| + |Bytes(items[k])| <= |AllBytes(items)| <= |s| - WORD
    ensures var off := |AllBytes(items[..k])|;
            s[off..off + |Bytes(items[k])|] == Bytes(items[k])
  {
    PrefixBytes(items, k);
    assert AllBytes(items) <= s;
    MiddleOfPrefix(s, AllBytes(items[..k]), Bytes(items[k]), |AllBytes(items[..k])|);
  }

  lemma LayoutHeader(f: Format, s: seq<Byte>, data: seq<Byte>, words: seq<Word>, end: Word, j: nat, h: seq<Word>)
    requires Layout(s, data, words, end)
    requires |h| == Width(f) && j + |h| <= |words| && words[j..j + |h|] == h
    ensures WORD * Width(f) <= Slot(|s|, j) <= |s| - WORD
    ensures HeaderAt(f, s, Slot(|s|, j)) == h
  {
    assert forall i: nat :: i < |h| ==> words[j + i] == h[i];
    LayoutLoads(s, data, words, end, j);
    LayoutLoads(s, data, words, end, j + 1);
    assert words[j + 0] == h[0] && words[j + 1] == h[1];
    if f != Plain {
      LayoutLoads(s, data, words, end, j + 2);
      assert words[j + 2] == h[2];
    }
    if f == Keyed {
      LayoutLoads(s, data, words, end, j + 3);
      assert words[j + 3] == h[3];
    }
  }

  lemma MiddleOfPrefix<T>(all: seq<T>, a: seq<T>, b: seq<T>, j: nat)
    requires a + b <= all && j == |a|
    ensures j + |b| <= |all| && all[j..j + |b|] == b
  {
    assert all[j..j + |b|] == all[..|a + b|][|a|..];
  }

  // and the header words in theirs.
  lemma HeaderPlace(f: Format, items: seq<Item>, k: nat)
    requires AllOf(f, items) && |AllBytes(items)| < WORD_LIMIT && k < |items|
    ensures |AllBytes(items[..k])| + |Bytes(items[k])| < WORD_LIMIT
    ensures var h, j, words := Header(items[k], |AllBytes(items[..k])|), Widths(f, k), AllWords(items);
            |h| == Width(f) && j + |h| <= |words| && words[j..j + |h|] == h
  {
    PrefixWords(items, k);
    assert Of(f, items[k]);
    HeaderBehind(f, items[..k], items[k], AllWords(items));
  }

  lemma HeaderBehind(f: Format, front: seq<Item>, i: Item, words: seq<Word>)
    requires AllOf(f, front) && Of(f, i) && |AllBytes(front)| + |Bytes(i)| < WORD_LIMIT
    requires AllWords(front) + Header(i, |AllBytes(front)|) <= words
    ensures var h, j := Header(i, |AllBytes(front)|), Widths(f, |front|);
            |h| == Width(f) && j + |h| <= |words| && words[j..j + |h|] == h
  {
    WordsCount(f, front);
    MiddleOfPrefix(words, AllWords(front), Header(i, |AllBytes(front)|), Widths(f, |front|));
  }

  lemma HeaderIsAt(f: Format, s: seq<Byte>, p: int, items: seq<Item>, k: nat)
    requires Encoded(f, s, p, items) && k < |items|
    ensures |AllBytes(items[..k])| + |Bytes(items[k])| < WORD_LIMIT
    ensures var c := CursorAt(f, |s|, k);
            && WORD * Width(f) <= c <= |s| - WORD
            && HeaderAt(f, s, c) == Header(items[k], |AllBytes(items[..k])|)
  {
    HeaderPlace(f, items, k);
    LayoutHeader(f, s, AllBytes(items), AllWords(items), End(f), Widths(f, k), Header(items[k], |AllBytes(items[..k])|));
  }

  // A header decodes to its item, if the item's bytes lie at the offset the header names.
  lemma DecodeHeader(f: Format, s: seq<Byte>, i: Item, off: nat, next: int)
    requires Of(f, i) && off + |Bytes(i)| <= |s| < WORD_LIMIT && s[off..off + |Bytes(i)|] == Bytes(i)
    ensures |Header(i, off)| == Width(f)
    ensures Stands(s, Decode(f, Header(i, off), next), i) && Placed(Decode(f, Header(i, off), next), i, off)
    ensures Decode(f, Header(i, off), next).next == next
    ensures f != Numbered ==> Header(i, off)[0] == off
    ensures f == Numbered ==> Header(i, off)[0] == i.recno
  {
    if f == Keyed {
      SplitSlice(s, off, i.key, i.data);
    }
  }

  lemma SplitSlice(s: seq<Byte>, off: nat, a: seq<Byte>, b: seq<Byte>)
    requires off + |a + b| <= |s| && s[off..off + |a + b|] == a + b
    ensures s[off..off + |a|] == a && s[off + |a|..off + |a| + |b|] == b
  {
    assert s[off..off + |a|] == s[off..off + |a + b|][..|a|];
    assert s[off + |a|..off + |a| + |b|] == s[off..off + |a + b|][|a|..];
  }

  predicate IsZero(i: Item) {
    i.Record? && i.recno == 0
  }

  // Fetching at c gives item i, whose bytes start at off, and moves to next, unless i reads as the
  // end of the list.
  ghost predicate Gets(f: Format, s: seq<Byte>, c: int, i: Item, off: nat, next: int) {
    && WORD * Width(f) <= c <= |s| - WORD
    && (Get(f, s, c).Over? <==> IsZero(i))
    && (Get(f, s, c).Got? ==> Stands(s, Get(f, s, c), i) && Placed(Get(f, s, c), i, off) && Get(f, s, c).next == next)
  }

  // Fetching at the k-th cursor gives the k-th item behind the bytes of the items before it, and
  // moves on to the next, unless the item is a record numbered 0, which reads as the end of the
  // list.
  lemma GetIsItem(f: Format, s: seq<Byte>, p: int, items: seq<Item>, k: nat)
    requires Encoded(f, s, p, items) && k < |items|
    ensures var c := CursorAt(f, |s|, k);
            Gets(f, s, c, items[k], |AllBytes(items[..k])|, CursorAt(f, |s|, k + 1))
  {
    BytesAt(f, s, p, items, k);
    HeaderIsAt(f, s, p, items, k);
    assert Of(f, items[k]);
    var c := CursorAt(f, |s|, k);
    DecodeHeader(f, s, items[k], |AllBytes(items[..k])|, c - WORD * Width(f));
    assert HeaderAt(f, s, c)[0] == Load(s, c);
  }

  // Behind the last item the cursor is at the terminator.
  lemma GetIsOver(f: Format, s: seq<Byte>, p: int, items: seq<Item>)
    requires Encoded(f, s, p, items)
    ensures 0 <= p <= |s| - WORD && p == CursorAt(f, |s|, |items|) && Load(s, p) == End(f)
  {
    WordsCount(f, items);
  }

  // The plain format returns a null data pointer for exactly the items that are empty and lie at
  // offset 0, that is for empty items before the first nonempty one; the cursor does not
  // become null, so such an item is not the end of the list.
  lemma NullDatum(s: seq<Byte>, p: int, items: seq<Item>, k: nat)
    requires Encoded(Plain, s, p, items) && k < |items|
    ensures var c := CursorAt(Plain, |s|, k);
            && 2 * WORD <= c <= |s| - WORD
            && Get(Plain, s, c).Got?
            && (Get(Plain, s, c).data.at == Null <==> AllBytes(items[..k + 1]) == [])
  {
    HeaderIsAt(Plain, s, p, items, k);
    GetIsItem(Plain, s, p, items, k);
    assert Of(Plain, items[k]);
    var upto := items[..k + 1];
    assert upto[..k] == items[..k] && upto[k] == items[k];
  }

  // The header words of an item from w downwards: where its bytes start and how many they are, a
  // key before its data and a record number in front.
  ghost predicate WordsAt(s: seq<Byte>, w: int, i: Item, off: nat) {
    match i
    case Datum(d) => 4 <= w <= |s| - 4 && Load(s, w) == off && Load(s, w - 4) == |d|
    case Pair(key, d) =>
      && 12 <= w <= |s| - 4 && Load(s, w) == off && Load(s, w - 4) == |key|
      && Load(s, w - 8) == off + |key| && Load(s, w - 12) == |d|
    case Record(recno, d) =>
      8 <= w <= |s| - 4 && Load(s, w) == recno && Load(s, w - 4) == off && Load(s, w - 8) == |d|
  }

  lemma HeaderWords(f: Format, s: seq<Byte>, w: nat, i: Item, off: nat)
    requires Of(f, i) && off + |Bytes(i)| < WORD_LIMIT && WORD * Width(f) <= w <= |s| - WORD
    requires HeaderAt(f, s, w) == Header(i, off)
    ensures WordsAt(s, w, i, off)
  {
    var h := HeaderAt(f, s, w);
    assert h[0] == Load(s, w) && h[1] == Load(s, w - 4);
    assert f != Plain ==> h[2] == Load(s, w - 8);
    assert f == Keyed ==> h[3] == Load(s, w - 12);
  }

  // The words of the items, counted down from the last word of the buffer,
  lemma StoredLayout(f: Format, s: seq<Byte>, p: int, items: seq<Item>, k: nat)
    requires Encoded(f, s, p, items) && k < |items|
    ensures var words := match f case Plain => 2 case Keyed => 4 case Numbered => 3;
            WordsAt(s, |s| - 4 - 4 * (words * k), items[k], |AllBytes(items[..k])|)
  {
    HeaderIsAt(f, s, p, items, k);
    assert Of(f, items[k]);
    HeaderWords(f, s, CursorAt(f, |s|, k), items[k], |AllBytes(items[..k])|);
  }

  // and the terminator behind them.
  lemma StoredEnd(f: Format, s: seq<Byte>, p: int, items: seq<Item>)
    requires Encoded(f, s, p, items)
    ensures var words := match f case Plain => 2 case Keyed => 4 case Numbered => 3;
            var w := |s| - 4 - 4 * (words * |items|);
            w >= 0 && Load(s, w) == if f == Numbered then 0 else 0xffff_ffff
  {
    GetIsOver(f, s, p, items);
  }

  // ---- Whole runs ----

  lemma FillStep(f: Format, s: seq<Byte>, p: nat, items: seq<Item>, n: nat)
    requires n + 1 == |items| && Encoded(f, s, p, items[..n]) && Of(f, items[n])
    requires p + WORD <= |s| && (p + WORD == |s| || p + 3 * WORD <= |s|)
    ensures var w := Put(f, s, p, items[n]);
            w.Room? ==> |w.buffer| == |s| && Encoded(f, w.buffer, w.cursor, items)
  {
    assert items[..n] + [items[n]] == items;
    if Put(f, s, p, items[n]).Room? {
      PutAppends(f, s, p, items[..n], items[n]);
    }
  }

  // A buffer initialised and given the items one after the other, if there is room for all.
  function Fill(f: Format, s: seq<Byte>, items: seq<Item>): (r: Written)
    requires WORD <= |s| < WORD_LIMIT && forall k: nat :: k < |items| ==> Of(f, items[k])
    ensures r.Room? ==> |r.buffer| == |s| && Encoded(f, r.buffer, r.cursor, items)
    ensures r.Room? <==> Needed(f, items) <= |s|
  {
    if items == [] then
      InitEncodes(f, s);
      Room(Init(f, s), |s| - WORD)
    else
      var n := |items| - 1;
      assert items[..n] + [items[n]] == items;
      var w := Fill(f, s, items[..n]);
      if w.NoRoom? then NoRoom
      else
        PutFits(f, w.buffer, w.cursor, items[..n], items[n]);
        FillStep(f, w.buffer, w.cursor, items, n);
        Put(f, w.buffer, w.cursor, items[n])
  }

  // The pieces a reader collects from cursor p until the end, if it never leaves the buffer.
  datatype Listing = Lost | Listed(pieces: seq<Fetched>)

  function Collect(f: Format, s: seq<Byte>, p: int): Listing
    decreases p
  {
    if !(0 <= p <= |s| - WORD) then Lost
    else if Load(s, p) != End(f) && p < WORD * (Width(f) - 1) then Lost
    else
      var g := Get(f, s, p);
      if g.Over? then Listed([])
      else
        After(g, Collect(f, s, g.next))
  }

  function After(g: Fetched, rest: Listing): Listing {
    if rest.Lost? then Lost else Listed([g] + rest.pieces)
  }

  // The items in front of the first record numbered 0.
  function BeforeZero(items: seq<Item>): seq<Item> {
    if items == [] || IsZero(items[0]) then []
    else [items[0]] + BeforeZero(items[1..])
  }

  ghost predicate AllStand(s: seq<Byte>, pieces: seq<Fetched>, items: seq<Item>) {
    && |pieces| == |items|
    && forall k: nat :: k < |items| ==> Stands(s, pieces[k], items[k])
  }

  // Each piece lies behind the bytes of the items before it; the first piece is of item k.
  ghost predicate InPlace(pieces: seq<Fetched>, items: seq<Item>, k: nat) {
    && k + |pieces| <= |items|
    && forall j: nat :: j < |pieces| ==> Placed(pieces[j], items[k + j], |AllBytes(items[..k + j])|)
  }

  lemma InPlaceCons(g: Fetched, pieces: seq<Fetched>, items: seq<Item>, k: nat)
    requires k < |items| && Placed(g, items[k], |AllBytes(items[..k])|) && InPlace(pieces, items, k + 1)
    ensures InPlace([g] + pieces, items, k)
  {
    var all := [g] + pieces;
    forall j: nat | j < |all|
      ensures Placed(all[j], items[k + j], |AllBytes(items[..k + j])|)
    {
      if j > 0 {
        assert all[j] == pieces[j - 1] && k + 1 + (j - 1) == k + j;
      }
    }
  }

  lemma CollectStep(f: Format, s: seq<Byte>, p: nat)
    requires WORD * Width(f) <= p <= |s| - WORD
    ensures Get(f, s, p).Over? ==> Collect(f, s, p) == Listed([])
    ensures var g := Get(f, s, p);
            g.Got? ==> g.next < p && Collect(f, s, p) == After(g, Collect(f, s, g.next))
  {
  }

  lemma AllStandCons(s: seq<Byte>, g: Fetched, pieces: seq<Fetched>, items: seq<Item>)
    requires items != [] && Stands(s, g, items[0]) && AllStand(s, pieces, items[1..])
    ensures AllStand(s, [g] + pieces, items)
  {
    forall k: nat | k < |items|
      ensures Stands(s, ([g] + pieces)[k], items[k])
    {
      if k > 0 {
        assert Stands(s, pieces[k - 1], items[1..][k - 1]);
      }
    }
  }

  // Every item can be fetched in its turn, and behind them is the end.
  ghost predicate Fetchable(f: Format, s: seq<Byte>, items: seq<Item>) {
    && (forall k: nat :: k < |items| ==> Gets(f, s, CursorAt(f, |s|, k), items[k], |AllBytes(items[..k])|, CursorAt(f, |s|, k + 1)))
    && var c := CursorAt(f, |s|, |items|); 0 <= c <= |s| - WORD && Load(s, c) == End(f)
  }

  lemma EncodedFetchable(f: Format, s: seq<Byte>, p: int, items: seq<Item>)
    requires Encoded(f, s, p, items)
    ensures Fetchable(f, s, items)
  {
    forall k: nat | k < |items|
      ensures Gets(f, s, CursorAt(f, |s|, k), items[k], |AllBytes(items[..k])|, CursorAt(f, |s|, k + 1))
    {
      GetIsItem(f, s, p, items, k);
    }
    GetIsOver(f, s, p, items);
  }

  lemma {:induction false} CollectFrom(f: Format, s: seq<Byte>, items: seq<Item>, k: nat, c: int)
    requires Fetchable(f, s, items) && k <= |items| && c == CursorAt(f, |s|, k)
    ensures var all := Collect(f, s, c);
            all.Listed? && AllStand(s, all.pieces, BeforeZero(items[k..])) && InPlace(all.pieces, items, k)
    decreases |items| - k
  {
    if k < |items| {
      var next := CursorAt(f, |s|, k + 1);
      assert Gets(f, s, c, items[k], |AllBytes(items[..k])|, next);
      CollectStep(f, s, c);
      var rest := items[k + 1..];
      assert items[k..][1..] == rest && items[k..][0] == items[k];
      if IsZero(items[k]) {
        assert BeforeZero(items[k..]) == [];
      } else {
        CollectFrom(f, s, items, k + 1, next);
        var before := BeforeZero(items[k..]);
        assert before == [items[k]] + BeforeZero(rest);
        assert before[1..] == BeforeZero(rest);
        AllStandCons(s, Get(f, s, c), Collect(f, s, next).pieces, before);
        InPlaceCons(Get(f, s, c), Collect(f, s, next).pieces, items, k);
      }
    }
  }

  lemma {:induction false} BeforeZeroIsAll(items: seq<Item>)
    ensures BeforeZero(items) == items <==> forall k: nat :: k < |items| ==> !IsZero(items[k])
  {
    if items != [] {
      BeforeZeroIsAll(items[1..]);
      if IsZero(items[0]) {
        assert BeforeZero(items) != items;
      } else {
        assert BeforeZero(items)[1..] == BeforeZero(items[1..]);
        assert items == [items[0]] + items[1..];
        assert forall k: nat :: k < |items| - 1 ==> items[1..][k] == items[k + 1];
        if forall k: nat :: k < |items[1..]| ==> !IsZero(items[1..][k]) {
          forall k: nat | k < |items| ensures !IsZero(items[k]) {
            if k > 0 {
              assert items[1..][k - 1] == items[k];
            }
          }
        }
      }
    }
  }

  lemma {:induction false} BeforeZeroPrefix(items: seq<Item>)
    ensures BeforeZero(items) <= items
  {
    if items != [] {
      BeforeZeroPrefix(items[1..]);
    }
  }

  // A reader of buffer s gets exactly the items before the first record numbered 0, in their
  // places, and after them the end; so it gets all of them exactly when no record is numbered 0.
  ghost predicate ReadsBack(f: Format, s: seq<Byte>, items: seq<Item>) {
    var c := Collect(f, s, |s| - WORD);
    && c.Listed?
    && AllStand(s, c.pieces, BeforeZero(items)) && InPlace(c.pieces, items, 0)
    && (AllStand(s, c.pieces, items) <==> forall k: nat :: k < |items| ==> !IsZero(items[k]))
  }

  lemma FetchableReadsBack(f: Format, s: seq<Byte>, items: seq<Item>)
    requires Fetchable(f, s, items)
    ensures ReadsBack(f, s, items)
  {
    CollectFrom(f, s, items, 0, |s| - WORD);
    assert items[0..] == items;
    StandsOrNot(s, Collect(f, s, |s| - WORD).pieces, items);
  }

  lemma StandsOrNot(s: seq<Byte>, pieces: seq<Fetched>, items: seq<Item>)
    requires AllStand(s, pieces, BeforeZero(items))
    ensures AllStand(s, pieces, items) <==> forall k: nat :: k < |items| ==> !IsZero(items[k])
  {
    BeforeZeroIsAll(items);
    BeforeZeroPrefix(items);
  }

  lemma EncodedReadsBack(f: Format, s: seq<Byte>, p: int, items: seq<Item>)
    requires Encoded(f, s, p, items)
    ensures ReadsBack(f, s, items)
  {
    EncodedFetchable(f, s, p, items);
    FetchableReadsBack(f, s, items);
  }

  // The round trip: whatever the buffer held before, filling it with items succeeds exactly when
  // they fit, and a reader then gets them back.
  lemma RoundTrip(f: Format, s: seq<Byte>, items: seq<Item>)
    requires WORD <= |s| < WORD_LIMIT && forall k: nat :: k < |items| ==> Of(f, items[k])
    ensures var w := Fill(f, s, items);
            && (w.Room? <==> Needed(f, items) <= |s|)
            && (w.Room? ==> ReadsBack(f, w.buffer, items))
  {
    var w := Fill(f, s, items);
    if w.Room? {
      EncodedReadsBack(f, w.buffer, w.cursor, items);
    }
  }
}
