/** Directories as the code keeps them: slots in cached pages, edited in place under page locks. */
module Directory {
  import opened Names
  import opened Paging
  import opened Slots
  import opened Scans
  import opened Common

  // What reading a page that has never been written gives.
  function BlankPage(): Page {
    seq(SLOTS_PER_PAGE, _ => BLANK)
  }

  function PageOr(pages: map<nat, Page>, n: nat): Page {
    if n in pages then pages[n] else BlankPage()
  }

  // What an insertion that ends at a spot does to the slots, and what it returns.
  predicate Added(before: seq<Slot>, after: seq<Slot>, spot: Spot, slot: Slot, torn: bool, err: Errno) {
    match spot
    case At(i) => i <= |before| && after == PutAt(before, i, slot) && err == if torn then EIO else OK
    case Duplicate => after == before && err == EEXIST
    case Unreadable => after == before && err == EIO
  }

  /** A struct inode with its page cache. The page references (each with its mapping) that the
      code holds are counted in pins, the page locks it holds are in locked. */
  class Inode {
    const ino: nat
    const dir: bool
    var nlink: nat
    var size: nat
    var pages: map<nat, Page>
    var pins: multiset<nat>
    var locked: set<nat>

    // The slots below i_size, wherever they are stored.
    ghost var slots: seq<Slot>

    // i_size is a whole number of slots, and the pages hold them.
    ghost predicate Mirrors()
      reads this`size, this`pages, this`slots
    {
      && size == DIR_SIZE * |slots|
      && forall i: nat {:trigger slots[i]} {:trigger Cell(i)} :: i < |slots| ==> slots[i] == Cell(i)
    }

    // Between two operations no page is locked.
    ghost predicate Valid()
      reads this
    {
      Mirrors() && locked == {}
    }

    constructor (ino: nat, dir: bool)
      ensures this.ino == ino && this.dir == dir && nlink == 1 && size == 0
      ensures Valid() && slots == [] && pins == multiset{}
    {
      this.ino, this.dir := ino, dir;
      nlink, size, pages, pins, locked, slots := 1, 0, map[], multiset{}, {}, [];
    }

    // inode_inc_link_count and drop_nlink on the in-core counter.
    method IncLink()
      modifies this`nlink
      ensures old(Valid()) ==> Valid()
      ensures nlink == old(nlink) + 1
    {
      nlink := nlink + 1;
    }

    method DropLink()
      modifies this`nlink
      ensures old(Valid()) ==> Valid()
      ensures nlink == if old(nlink) == 0 then U32 - 1 else old(nlink) - 1
    {
      nlink := if nlink == 0 then U32 - 1 else nlink - 1;
    }

    function PageAt(n: nat): Page
      reads this`pages
    {
      PageOr(pages, n)
    }

    function Cell(i: nat): Slot
      reads this`pages
    {
      PageAt(PageOf(i))[Offset(i)]
    }

    // ---- Pages ----

    // dir_get_page: pin and map page n, unless it cannot be read.
    method GetPage(n: nat, bad: set<nat>) returns (ok: bool)
      modifies this`pins
      ensures ok <==> n !in bad
      ensures pins == if ok then old(pins) + multiset{n} else old(pins)
    {
      ok := n !in bad;
      if ok {
        pins := pins + multiset{n};
      }
    }

    method PutPage(n: nat)
      requires n in pins
      modifies this`pins
      ensures pins == old(pins) - multiset{n}
    {
      pins := pins - multiset{n};
    }

    // The same for a page that an operation has handed out.
    method ReleasePage(n: nat)
      requires Valid() && n in pins
      modifies this`pins
      ensures Valid() && pins == old(pins) - multiset{n}
    {
      PutPage(n);
    }

    // A page that is already locked would block its holder for ever.
    method LockPage(n: nat)
      requires n in pins && n !in locked
      modifies this`locked
      ensures locked == old(locked) + {n}
    {
      locked := locked + {n};
    }

    method UnlockPage(n: nat)
      requires n in locked
      modifies this`locked
      ensures locked == old(locked) - {n}
    {
      locked := locked - {n};
    }

    // A store into one slot of a locked page.
    method Store(n: nat, p: nat, ghost i: nat, slot: Slot)
      requires n in locked && p < SLOTS_PER_PAGE && First(n) + p == i
      modifies this`pages
      ensures Cell(i) == slot
      ensures forall k: nat {:trigger Cell(k)} :: k != i ==> Cell(k) == old(Cell(k))
    {
      pages := pages[n := PageAt(n)[p := slot]];
      IndexSplits(n, p);
      forall k: nat | k != i
        ensures Cell(k) == old(Cell(k))
      {
        SplitIndex(k);
      }
    }

    // dir_commit_chunk: i_size grows to cover the chunk; a DIRSYNC directory also writes the page
    // out, which releases the lock whether or not the write succeeds.
    method CommitChunk(n: nat, pos: nat, len: nat, torn: bool) returns (err: Errno)
      requires n in locked
      modifies this`size, this`locked
      ensures size == if pos + len > old(size) then pos + len else old(size)
      ensures locked == old(locked) - {n}
      ensures err == if torn then EIO else OK
    {
      if pos + len > size {
        size := pos + len;
      }
      UnlockPage(n);
      err := if torn then EIO else OK;
    }

    lemma PageShows(n: nat)
      requires Mirrors() && First(n) + SlotsIn(|slots|, n) <= |slots|
      ensures Shows(PageAt(n), slots, First(n), SlotsIn(|slots|, n))
    {
      forall q: nat | q < SlotsIn(|slots|, n)
        ensures PageAt(n)[q] == slots[First(n) + q]
      {
        IndexSplits(n, q);
      }
    }

    // ---- gbfs_find_entry ----

    // One page of the search. A page that cannot be read is skipped; the page stays pinned when
    // the entry is on it.
    method FindOnPage(n: nat, name: Name, bad: set<nat>) returns (found: bool, p: nat)
      requires Valid() && |name| <= NAME_LEN && First(n) < |slots|
      modifies this`pins
      ensures Valid() && pins == if found then old(pins) + multiset{n} else old(pins)
      ensures found ==> p < SLOTS_PER_PAGE && First(n) + p < |slots|
      ensures FindFrom(slots, name, bad, Low(n, |slots|)) == if found then First(n) + p else FindFrom(slots, name, bad, Low(n + 1, |slots|))
    {
      var ok := GetPage(n, bad);
      if !ok {
        PageHidden(slots, name, bad, n);
        return false, 0;
      }
      ScanPage(|slots|, n);
      PageShows(n);
      var last := LastByte(size, n, |slots|);
      found, p := FindInPage(PageAt(n), last, name);
      PageSearched(PageAt(n), slots, name, bad, n, p);
      if !found {
        PutPage(n);
      }
    }

    method FindEntry(name: Name, bad: set<nat>) returns (found: bool, n: nat, p: nat)
      requires Valid() && |name| <= NAME_LEN
      modifies this`pins
      ensures Valid()
      ensures found <==> FindFrom(slots, name, bad, 0) < |slots|
      ensures found ==> p < SLOTS_PER_PAGE && First(n) + p == FindFrom(slots, name, bad, 0)
      ensures pins == if found then old(pins) + multiset{n} else old(pins)
    {
      var npages := DirPages(size, |slots|);
      found, n, p := false, 0, 0;
      while n < npages
        invariant pins == old(pins) && n <= npages
        invariant FindFrom(slots, name, bad, 0) == FindFrom(slots, name, bad, Low(n, |slots|))
      {
        PageVisited(|slots|, n);
        found, p := FindOnPage(n, name, bad);
        if found {
          return;
        }
        n := n + 1;
      }
      PageVisited(|slots|, n);
    }

    // The inode number in a slot whose page is pinned; the pin is released.
    method TakeIno(n: nat, p: nat) returns (x: nat)
      requires Valid() && n in pins && p < SLOTS_PER_PAGE && First(n) + p < |slots|
      modifies this`pins
      ensures Valid() && pins == old(pins) - multiset{n}
      ensures x == slots[First(n) + p].ino
    {
      IndexSplits(n, p);
      x := PageAt(n)[p].ino;
      PutPage(n);
    }

    // ---- gbfs_add_link ----

    method AddLink(name: Name, x: nat, f: Fault) returns (err: Errno)
      requires Valid() && |name| <= NAME_LEN
      modifies this`pins, this`locked, this`pages, this`size, this`slots
      ensures Valid() && pins == old(pins)
      ensures Added(old(slots), slots, SpotFrom(old(slots), name, f.bad, 0), Slot(x, Padded(name)), f.torn, err)
    {
      ghost var c := slots;
      var npages := DirPages(size, |c|);
      var n := 0;
      while n <= npages
        invariant pins == old(pins) && locked == {} && unchanged(`pages, `size, `slots)
        invariant n <= PageOf(|c|) && First(n) <= |c|
        invariant SpotFrom(c, name, f.bad, 0) == SpotFrom(c, name, f.bad, First(n))
        decreases npages + 1 - n
      {
        var done;
        done, err := AddOnPage(n, name, x, f, c, SpotFrom(c, name, f.bad, First(n)));
        if done {
          return;
        }
        n := n + 1;
      }
      // the loop always meets a free slot or i_size, so BUG() is not reached
      assert false;
    }

    // The scan of page n with its limits.
    method SpotOnPage(n: nat, name: Name, ghost bad: set<nat>) returns (p: nat, taken: bool)
      requires Mirrors() && |name| <= NAME_LEN && n <= PageOf(|slots|) && n !in bad
      ensures First(n) + p <= |slots| && p <= SLOTS_PER_PAGE && First(n) <= |slots|
      ensures taken ==> SpotFrom(slots, name, bad, First(n)) == Duplicate
      ensures !taken && p < SLOTS_PER_PAGE ==> SpotFrom(slots, name, bad, First(n)) == At(First(n) + p)
      ensures p == SLOTS_PER_PAGE ==>
                && n < PageOf(|slots|) && First(n + 1) <= |slots|
                && SpotFrom(slots, name, bad, First(n)) == SpotFrom(slots, name, bad, First(n + 1))
      ensures taken ==> p < SLOTS_PER_PAGE
    {
      ghost var c := slots;
      EndPage(|c|, n);
      PageShows(n);
      var dirEnd := LastByte(size, n, |c|);
      p, taken := SpotInPage(PageAt(n), dirEnd, name);
      PageAnswers(PageAt(n), c, name, bad, n, p, taken);
    }

    // The body of the loop over pages; done when the search ends on page n.
    method AddOnPage(n: nat, name: Name, x: nat, f: Fault, ghost c: seq<Slot>, ghost spot: Spot) returns (done: bool, err: Errno)
      requires Mirrors() && |name| <= NAME_LEN && locked == {} && c == slots
      requires n <= PageOf(|c|) && First(n) <= |c| && spot == SpotFrom(c, name, f.bad, First(n))
      modifies this`pins, this`locked, this`pages, this`size, this`slots
      ensures pins == old(pins) && locked == {} && Mirrors()
      ensures done ==> Added(c, slots, spot, Slot(x, Padded(name)), f.torn, err)
      ensures !done ==> unchanged(`pages, `size, `slots)
      ensures !done ==> n < PageOf(|c|) && First(n + 1) <= |c| && spot == SpotFrom(c, name, f.bad, First(n + 1))
    {
      var ok := GetPage(n, f.bad);
      if !ok {
        PageRefused(c, name, f.bad, n);
        return true, EIO;
      }
      LockPage(n);
      var p, taken := SpotOnPage(n, name, f.bad);
      if taken || p == SLOTS_PER_PAGE {
        UnlockPage(n);
        PutPage(n);
        return taken, EEXIST;
      }
      assert spot == At(First(n) + p);
      err := Fill(n, p, name, x, f.torn);
      assert slots == PutAt(c, First(n) + p, Slot(x, Padded(name)));
      done := true;
    }

    // The code from got_it on: the name is copied and padded, then the inode number set.
    method Fill(n: nat, p: nat, name: Name, x: nat, torn: bool) returns (err: Errno)
      requires n in pins && locked == {n} && p < SLOTS_PER_PAGE && |name| <= NAME_LEN
      requires Mirrors() && First(n) + p <= |slots|
      modifies this`pins, this`locked, this`pages, this`size, this`slots
      ensures pins == old(pins) - multiset{n} && locked == {} && Mirrors()
      ensures slots == PutAt(old(slots), First(n) + p, Slot(x, Padded(name)))
      ensures err == if torn then EIO else OK
    {
      var start := PageOffset(n);
      Store(n, p, First(n) + p, Slot(x, Padded(name)));
      err := CommitChunk(n, start + DIR_SIZE * p, DIR_SIZE, torn);
      slots := PutAt(slots, First(n) + p, Slot(x, Padded(name)));
      PutPage(n);
    }

    // ---- gbfs_delete_entry and gbfs_set_link ----

    // Both store an inode number, and both take over the pin that came with the entry.
    method SetIno(n: nat, p: nat, ghost i: nat, x: nat, torn: bool) returns (err: Errno)
      requires Valid() && n in pins && p < SLOTS_PER_PAGE && First(n) + p == i < |slots|
      modifies this`pins, this`locked, this`pages, this`size, this`slots
      ensures Valid() && pins == old(pins) - multiset{n}
      ensures slots == old(slots)[i := old(slots)[i].(ino := x)]
      ensures err == if torn then EIO else OK
    {
      IndexSplits(n, p);
      var slot := PageAt(n)[p].(ino := x);
      var start := PageOffset(n);
      LockPage(n);
      Store(n, p, i, slot);
      err := CommitChunk(n, start + DIR_SIZE * p, DIR_SIZE, torn);
      slots := slots[i := slot];
      PutPage(n);
    }

    method DeleteEntry(n: nat, p: nat, ghost i: nat, torn: bool) returns (err: Errno)
      requires Valid() && n in pins && p < SLOTS_PER_PAGE && First(n) + p == i < |slots|
      modifies this`pins, this`locked, this`pages, this`size, this`slots
      ensures Valid() && pins == old(pins) - multiset{n}
      ensures slots == old(slots)[i := old(slots)[i].(ino := 0)]
      ensures err == if torn then EIO else OK
    {
      err := SetIno(n, p, i, 0, torn);
    }

    // The result of the write is dropped.
    method SetLink(n: nat, p: nat, ghost i: nat, x: nat, torn: bool)
      requires Valid() && n in pins && p < SLOTS_PER_PAGE && First(n) + p == i < |slots|
      modifies this`pins, this`locked, this`pages, this`size, this`slots
      ensures Valid() && pins == old(pins) - multiset{n}
      ensures slots == old(slots)[i := old(slots)[i].(ino := x)]
    {
      var _ := SetIno(n, p, i, x, torn);
    }

    // ---- gbfs_dotdot ----

    // The second slot of the first page, whatever it holds.
    method DotDot(unreadable: bool) returns (ok: bool, n: nat, p: nat)
      modifies this`pins
      ensures old(Valid()) ==> Valid()
      ensures ok <==> !unreadable
      ensures ok ==> First(n) + p == 1 && p < SLOTS_PER_PAGE
      ensures pins == if ok then old(pins) + multiset{n} else old(pins)
    {
      n, p := 0, 1;
      ok := GetPage(0, if unreadable then {0} else {});
    }

    // ---- gbfs_make_empty ----

    method MakeEmpty(parent: nat, page: bool, torn: bool) returns (err: Errno)
      requires Valid() && slots == [] && pins == multiset{}
      modifies this`pins, this`locked, this`pages, this`size, this`slots
      ensures Valid() && pins == multiset{}
      ensures err == if !page then ENOMEM else if torn then EIO else OK
      ensures slots == if page then DotSlots(ino, parent) else []
    {
      // grab_cache_page returns the page referenced and locked
      if !page {
        return ENOMEM;
      }
      pins, locked := pins + multiset{0}, locked + {0};
      pages := pages[0 := BlankPage()];
      Store(0, 0, 0, Slot(ino, Padded(DOT)));
      Store(0, 1, 1, Slot(parent, Padded(DOTDOT)));
      err := CommitChunk(0, 0, 2 * DIR_SIZE, torn);
      assert Cell(0) == DotSlots(ino, parent)[0];
      slots := DotSlots(ino, parent);
      PutPage(0);
    }

    // ---- gbfs_empty_dir ----

    // One page of the check; a page that cannot be read is skipped.
    method EmptyOnPage(n: nat, bad: set<nat>) returns (empty: bool)
      requires Valid() && First(n) < |slots| && EmptyBelow(slots, ino, bad, Low(n, |slots|))
      modifies this`pins
      ensures Valid() && pins == old(pins)
      ensures empty <==> EmptyBelow(slots, ino, bad, Low(n + 1, |slots|))
    {
      var ok := GetPage(n, bad);
      if !ok {
        PageUnchecked(slots, ino, bad, n);
        return true;
      }
      ScanPage(|slots|, n);
      PageShows(n);
      var last := LastByte(size, n, |slots|);
      empty := EmptyInPage(PageAt(n), last, ino);
      PageChecked(PageAt(n), slots, ino, bad, n);
      PutPage(n);
    }

    method IsEmpty(bad: set<nat>) returns (empty: bool)
      requires Valid()
      modifies this`pins
      ensures Valid() && pins == old(pins)
      ensures empty <==> LooksEmpty(slots, ino, bad)
    {
      var npages := DirPages(size, |slots|);
      var n := 0;
      while n < npages
        invariant pins == old(pins) && n <= npages
        invariant EmptyBelow(slots, ino, bad, Low(n, |slots|))
      {
        PageVisited(|slots|, n);
        empty := EmptyOnPage(n, bad);
        if !empty {
          return;
        }
        n := n + 1;
      }
      PageVisited(|slots|, n);
      empty := true;
    }
  }
}
