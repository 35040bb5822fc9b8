/** gbfs_readdir: one call, and whole scans made of many calls while the directory changes. */
module Readdir {
  import opened Names
  import opened Paging
  import opened Slots
  import opened Scans
  import opened Directory

  // One entry as dir_emit passes it on: the position it was found at, its name and its inode number.
  datatype Dirent = Dirent(pos: nat, name: Name, ino: nat)

  /** struct dir_context: where the scan stands, and the caller's buffer, which takes room more
      entries and then refuses. */
  class DirContext {
    var pos: nat
    var room: nat
    var out: seq<Dirent>

    constructor (pos: nat, room: nat)
      ensures this.pos == pos && this.room == room && out == []
    {
      this.pos, this.room, out := pos, room, [];
    }

    method Emit(name: Name, ino: nat) returns (ok: bool)
      modifies this`room, this`out
      ensures ok <==> old(room) > 0
      ensures out == if ok then old(out) + [Dirent(pos, name, ino)] else old(out)
      ensures room == if ok then old(room) - 1 else old(room)
    {
      ok := room > 0;
      if ok {
        out, room := out + [Dirent(pos, name, ino)], room - 1;
      }
    }
  }

  // ---- What one call does, slot by slot ----

  datatype Scanned = Scanned(pos: nat, out: seq<Dirent>)

  // From slot i on, standing at position pos. The position is advanced for every slot that is
  // passed, but not for the slots of a page that cannot be read.
  function Scan(slots: seq<Slot>, bad: set<nat>, i: nat, pos: nat, room: nat): (r: Scanned)
    requires i <= |slots|
    ensures pos <= r.pos
    decreases |slots| - i
  {
    if i == |slots| then Scanned(pos, [])
    else if !Readable(bad, i) then Scan(slots, bad, i + 1, pos, room)
    else if slots[i].ino == 0 then Scan(slots, bad, i + 1, pos + DIR_SIZE, room)
    else if room == 0 then Scanned(pos, [])
    else
      var rest := Scan(slots, bad, i + 1, pos + DIR_SIZE, room - 1);
      Scanned(rest.pos, [Dirent(pos, NameOf(slots[i].name), slots[i].ino)] + rest.out)
  }

  // ALIGN(pos, chunk_size)
  function Align(pos: nat): nat {
    (pos + DIR_SIZE - 1) / DIR_SIZE * DIR_SIZE
  }

  function Call(slots: seq<Slot>, bad: set<nat>, pos: nat, room: nat): Scanned {
    var start := Align(pos);
    if start >= DIR_SIZE * |slots| then Scanned(start, []) else Scan(slots, bad, start / DIR_SIZE, start, room)
  }

  // ---- The method ----

  // The context c has got as far as slot i of a call whose whole result is r.
  ghost predicate Progress(c: DirContext, slots: seq<Slot>, bad: set<nat>, i: nat, before: seq<Dirent>, r: Scanned)
    requires i <= |slots|
    reads c
  {
    var rest := Scan(slots, bad, i, c.pos, c.room);
    r.pos == rest.pos && before + r.out == c.out + rest.out
  }

  lemma {:induction false} SkipUnread(c: DirContext, slots: seq<Slot>, bad: set<nat>, n: nat, i: nat, j: nat, before: seq<Dirent>, r: Scanned)
    requires n in bad && First(n) <= i <= j <= |slots| && j <= First(n) + SLOTS_PER_PAGE
    requires Progress(c, slots, bad, i, before, r)
    ensures Progress(c, slots, bad, j, before, r)
    decreases j - i
  {
    if i < j {
      IndexSplits(n, i - First(n));
      SkipUnread(c, slots, bad, n, i + 1, j, before, r);
    }
  }

  // The scan of one page from its slot q on; done when the buffer is full.
  method ScanOnPage(dir: Inode, ctx: DirContext, n: nat, q: nat, bad: set<nat>, ghost before: seq<Dirent>, ghost r: Scanned) returns (done: bool)
    requires dir.Valid() && n !in bad && First(n) < |dir.slots| && q <= SlotsIn(|dir.slots|, n)
    requires First(n) + q <= |dir.slots| && Progress(ctx, dir.slots, bad, First(n) + q, before, r)
    modifies ctx
    ensures done ==> ctx.pos == r.pos && ctx.out == before + r.out
    ensures !done ==> Progress(ctx, dir.slots, bad, Low(n + 1, |dir.slots|), before, r)
  {
    ghost var slots := dir.slots;
    ScanPage(|slots|, n);
    dir.PageShows(n);
    var last := LastByte(dir.size, n, |slots|);
    var page := dir.PageAt(n);
    var p := q;
    while DIR_SIZE * p + DIR_SIZE <= last
      invariant q <= p <= SlotsIn(|slots|, n)
      invariant Progress(ctx, slots, bad, First(n) + p, before, r)
    {
      var slot := page[p];
      assert slot == slots[First(n) + p];
      IndexSplits(n, p);
      if slot.ino != 0 {
        var l := StrNLen(slot.name, 0);
        var ok := ctx.Emit(slot.name[..l], slot.ino);
        if !ok {
          return true;
        }
      }
      ctx.pos := ctx.pos + DIR_SIZE;
      p := p + 1;
    }
    done := false;
  }

  method ReadDir(dir: Inode, ctx: DirContext, bad: set<nat>)
    requires dir.Valid()
    modifies dir`pins, ctx
    ensures dir.Valid() && dir.pins == old(dir.pins)
    ensures var r := Call(dir.slots, bad, old(ctx.pos), old(ctx.room));
            ctx.pos == r.pos && ctx.out == old(ctx.out) + r.out
  {
    ghost var slots := dir.slots;
    ghost var before := ctx.out;
    ghost var r := Call(slots, bad, ctx.pos, ctx.room);
    var npages := DirPages(dir.size, |slots|);
    ctx.pos := (ctx.pos + DIR_SIZE - 1) / DIR_SIZE * DIR_SIZE;
    if ctx.pos >= dir.size {
      return;
    }
    ghost var i := ctx.pos / DIR_SIZE;
    var n: nat, p: nat := StartOf(ctx.pos, i);
    SplitIndex(i);
    PageVisited(|slots|, n);
    ScanPage(|slots|, n);
    StartsInPage(|slots|, i);
    while n < npages
      invariant dir.Valid() && dir.pins == old(dir.pins) && n <= npages
      invariant n < npages ==> p <= SlotsIn(|slots|, n) && First(n) + p <= |slots|
      invariant n < npages ==> Progress(ctx, slots, bad, First(n) + p, before, r)
      invariant n == npages ==> ctx.pos == r.pos && ctx.out == before + r.out
    {
      PageVisited(|slots|, n);
      PageVisited(|slots|, n + 1);
      var done := ReadOnPage(dir, ctx, n, p, bad, before, r);
      if done {
        return;
      }
      n, p := n + 1, 0;
    }
  }

  // One page of the scan; a page that cannot be read is skipped.
  method ReadOnPage(dir: Inode, ctx: DirContext, n: nat, p: nat, bad: set<nat>, ghost before: seq<Dirent>, ghost r: Scanned) returns (done: bool)
    requires dir.Valid() && First(n) < |dir.slots| && p <= SlotsIn(|dir.slots|, n)
    requires First(n) + p <= |dir.slots| && Progress(ctx, dir.slots, bad, First(n) + p, before, r)
    modifies dir`pins, ctx
    ensures dir.Valid() && dir.pins == old(dir.pins)
    ensures done ==> ctx.pos == r.pos && ctx.out == before + r.out
    ensures !done ==> Low(n + 1, |dir.slots|) <= |dir.slots| && Progress(ctx, dir.slots, bad, Low(n + 1, |dir.slots|), before, r)
  {
    ScanPage(|dir.slots|, n);
    var ok := dir.GetPage(n, bad);
    if !ok {
      SkipUnread(ctx, dir.slots, bad, n, First(n) + p, Low(n + 1, |dir.slots|), before, r);
      return false;
    }
    done := ScanOnPage(dir, ctx, n, p, bad, before, r);
    dir.PutPage(n);
  }

  // The page and the slot on it at which a scan at byte pos starts.
  method StartOf(pos: nat, ghost i: nat) returns (n: nat, p: nat)
    requires pos == DIR_SIZE * i
    ensures n == PageOf(i) && p == Offset(i)
  {
    StartSplits(pos, i);
    n := pos / PAGE_SIZE;
    var offset := pos % PAGE_SIZE;
    p := offset / DIR_SIZE;
  }

  lemma StartSplits(pos: nat, i: nat)
    requires pos == DIR_SIZE * i
    ensures pos / PAGE_SIZE == PageOf(i) && pos % PAGE_SIZE == DIR_SIZE * Offset(i)
  {
    SplitIndex(i);
    FirstIsProduct(PageOf(i));
    assert DIR_SIZE * i == PageOf(i) * PAGE_SIZE + DIR_SIZE * Offset(i);
    QuotientIs(pos, PAGE_SIZE, PageOf(i), DIR_SIZE * Offset(i));
  }

  lemma StartsInPage(m: nat, i: nat)
    requires i < m
    ensures Offset(i) <= SlotsIn(m, PageOf(i)) && First(PageOf(i)) < m
  {
    SplitIndex(i);
    ScanPage(m, PageOf(i));
    if PageOf(i) == PageOf(m) {
      SplitIndex(m);
    }
  }
}
