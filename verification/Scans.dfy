/** Scans of single pages, and what they add up to over a whole directory. */
module Scans {
  import opened Names
  import opened Paging
  import opened Slots

  type Page = p: seq<Slot> | |p| == SLOTS_PER_PAGE ghost witness seq(SLOTS_PER_PAGE, _ => BLANK)

  // ---- The inner loops ----

  // The first slot below the byte limit that holds the name.
  method FindInPage(page: Page, last: nat, name: Name) returns (found: bool, p: nat)
    requires |name| <= NAME_LEN && last % DIR_SIZE == 0 && last <= PAGE_SIZE
    ensures p <= last / DIR_SIZE && (found <==> p < last / DIR_SIZE)
    ensures forall q: nat :: q < p ==> !Hit(page[q], name)
    ensures found ==> Hit(page[p], name)
  {
    found, p := false, 0;
    while DIR_SIZE * p + DIR_SIZE <= last
      invariant p <= last / DIR_SIZE
      invariant forall q: nat :: q < p ==> !Hit(page[q], name)
    {
      var slot := page[p];
      if slot.ino != 0 && NameCompare(|name|, NAME_LEN, name, slot.name) {
        found := true;
        return;
      }
      p := p + 1;
    }
  }

  // The first slot that is free or starts at i_size, unless the name comes before it.
  method SpotInPage(page: Page, dirEnd: nat, name: Name) returns (p: nat, taken: bool)
    requires |name| <= NAME_LEN && dirEnd % DIR_SIZE == 0 && dirEnd <= PAGE_SIZE
    ensures p <= dirEnd / DIR_SIZE
    ensures forall q: nat :: q < p ==> page[q].ino != 0 && !NameCompare(|name|, NAME_LEN, name, page[q].name)
    ensures taken ==> p < dirEnd / DIR_SIZE && Hit(page[p], name)
    ensures !taken && p < dirEnd / DIR_SIZE ==> page[p].ino == 0
  {
    p, taken := 0, false;
    while DIR_SIZE * p + DIR_SIZE <= PAGE_SIZE
      invariant p <= dirEnd / DIR_SIZE
      invariant forall q: nat :: q < p ==> page[q].ino != 0 && !NameCompare(|name|, NAME_LEN, name, page[q].name)
    {
      var slot := page[p];
      if DIR_SIZE * p == dirEnd || slot.ino == 0 {
        return;
      }
      if NameCompare(|name|, NAME_LEN, name, slot.name) {
        taken := true;
        return;
      }
      p := p + 1;
    }
  }

  // Whether all occupied slots below the byte limit are "." for self or "..".
  method EmptyInPage(page: Page, last: nat, self: nat) returns (empty: bool)
    requires last % DIR_SIZE == 0 && last <= PAGE_SIZE
    ensures empty <==> forall q: nat :: q < last / DIR_SIZE && page[q].ino != 0 ==> DotSlot(page[q], self)
  {
    var p := 0;
    while DIR_SIZE * p + DIR_SIZE <= last
      invariant p <= last / DIR_SIZE
      invariant forall q: nat :: q < p && page[q].ino != 0 ==> DotSlot(page[q], self)
    {
      var slot := page[p];
      if slot.ino != 0 {
        if slot.name[0] != '.' as int {
          return false;
        }
        if slot.name[1] == 0 {
          if slot.ino != self {
            return false;
          }
        } else if slot.name[1] != '.' as int {
          return false;
        } else if slot.name[2] != 0 {
          return false;
        }
      }
      p := p + 1;
    }
    empty := true;
  }

  // ---- find_entry, page by page ----

  // The page holds the slots from low on, as far as the directory goes.
  ghost predicate Shows(page: Page, c: seq<Slot>, low: nat, count: nat) {
    && count <= SLOTS_PER_PAGE && low + count <= |c|
    && (forall q: nat {:trigger page[q]} :: q < count ==> page[q] == c[low + q])
  }

  lemma {:induction false} NoHit(c: seq<Slot>, name: Name, bad: set<nat>, i: nat, j: nat)
    requires |name| <= NAME_LEN && i <= j <= |c|
    requires forall k :: i <= k < j && Readable(bad, k) ==> !Hit(c[k], name)
    ensures FindFrom(c, name, bad, i) == FindFrom(c, name, bad, j)
    decreases j - i
  {
    if i < j {
      NoHit(c, name, bad, i + 1, j);
    }
  }

  // A page that cannot be read hides its slots.
  lemma PageHidden(c: seq<Slot>, name: Name, bad: set<nat>, n: nat)
    requires |name| <= NAME_LEN && n in bad
    ensures FindFrom(c, name, bad, Low(n, |c|)) == FindFrom(c, name, bad, Low(n + 1, |c|))
  {
    InPage(n, |c|);
    NoHit(c, name, bad, Low(n, |c|), Low(n + 1, |c|));
  }

  lemma PageSearched(page: Page, c: seq<Slot>, name: Name, bad: set<nat>, n: nat, p: nat)
    requires |name| <= NAME_LEN && n !in bad && First(n) < |c|
    requires Shows(page, c, First(n), SlotsIn(|c|, n)) && p <= SlotsIn(|c|, n)
    requires forall q: nat :: q < p ==> !Hit(page[q], name)
    ensures p == SlotsIn(|c|, n) ==> FindFrom(c, name, bad, Low(n, |c|)) == FindFrom(c, name, bad, Low(n + 1, |c|))
    ensures p < SlotsIn(|c|, n) && Hit(page[p], name) ==> FindFrom(c, name, bad, Low(n, |c|)) == First(n) + p < |c|
  {
    var low := First(n);
    ScanPage(|c|, n);
    InPage(n, |c|);
    forall k | low <= k < low + p
      ensures !Hit(c[k], name)
    {
      assert c[k] == page[k - low];
    }
    NoHit(c, name, bad, low, low + p);
    if p < SlotsIn(|c|, n) {
      assert c[low + p] == page[p];
      assert Readable(bad, low + p);
    }
  }

  // ---- add_link, page by page ----

  // An occupied slot with another name.
  predicate PassedOver(c: seq<Slot>, name: Name, bad: set<nat>, k: nat)
    requires |name| <= NAME_LEN && k < |c|
  {
    Readable(bad, k) && c[k].ino != 0 && !NameCompare(|name|, NAME_LEN, name, c[k].name)
  }

  lemma {:induction false} AllTaken(c: seq<Slot>, name: Name, bad: set<nat>, i: nat, j: nat)
    requires |name| <= NAME_LEN && i <= j <= |c|
    requires forall k :: i <= k < j ==> PassedOver(c, name, bad, k)
    ensures SpotFrom(c, name, bad, i) == SpotFrom(c, name, bad, j)
    decreases j - i
  {
    if i < j {
      assert PassedOver(c, name, bad, i);
      AllTaken(c, name, bad, i + 1, j);
    }
  }

  // Slots of page n, up to the one at i_size, that the search for a place has passed.
  lemma PagePassed(page: Page, c: seq<Slot>, name: Name, bad: set<nat>, n: nat, p: nat)
    requires |name| <= NAME_LEN && n !in bad && First(n) + SlotsIn(|c|, n) <= |c|
    requires Shows(page, c, First(n), SlotsIn(|c|, n)) && p <= SlotsIn(|c|, n)
    requires forall q: nat :: q < p ==> page[q].ino != 0 && !NameCompare(|name|, NAME_LEN, name, page[q].name)
    ensures SpotFrom(c, name, bad, First(n)) == SpotFrom(c, name, bad, First(n) + p)
  {
    var low := First(n);
    forall k | low <= k < low + p
      ensures PassedOver(c, name, bad, k)
    {
      PassedSlot(page, c, name, bad, n, p, k - low);
    }
    AllTaken(c, name, bad, low, low + p);
  }

  lemma PassedSlot(page: Page, c: seq<Slot>, name: Name, bad: set<nat>, n: nat, p: nat, q: nat)
    requires |name| <= NAME_LEN && n !in bad && q < p <= SlotsIn(|c|, n) && First(n) + q < |c|
    requires Shows(page, c, First(n), SlotsIn(|c|, n))
    requires page[q].ino != 0 && !NameCompare(|name|, NAME_LEN, name, page[q].name)
    ensures PassedOver(c, name, bad, First(n) + q)
  {
    IndexSplits(n, q);
  }

  lemma PageRefused(c: seq<Slot>, name: Name, bad: set<nat>, n: nat)
    requires |name| <= NAME_LEN && n in bad && First(n) <= |c|
    ensures SpotFrom(c, name, bad, First(n)) == Unreadable
  {
    IndexSplits(n, 0);
  }

  // What the scan of one page says about the whole search.
  lemma PageAnswers(page: Page, c: seq<Slot>, name: Name, bad: set<nat>, n: nat, p: nat, taken: bool)
    requires |name| <= NAME_LEN && n !in bad && n <= PageOf(|c|)
    requires Shows(page, c, First(n), SlotsIn(|c|, n)) && p <= SlotsIn(|c|, n)
    requires forall q: nat :: q < p ==> page[q].ino != 0 && !NameCompare(|name|, NAME_LEN, name, page[q].name)
    requires taken ==> p < SlotsIn(|c|, n) && Hit(page[p], name)
    requires !taken && p < SlotsIn(|c|, n) ==> page[p].ino == 0
    ensures First(n) + p <= |c|
    ensures taken ==> SpotFrom(c, name, bad, First(n)) == Duplicate
    ensures !taken && p < SLOTS_PER_PAGE ==> SpotFrom(c, name, bad, First(n)) == At(First(n) + p)
    ensures p == SLOTS_PER_PAGE ==> n < PageOf(|c|) && SpotFrom(c, name, bad, First(n)) == SpotFrom(c, name, bad, First(n + 1))
  {
    EndPage(|c|, n);
    PagePassed(page, c, name, bad, n, p);
    if p < SLOTS_PER_PAGE {
      IndexSplits(n, p);
      assert p < SlotsIn(|c|, n) ==> page[p] == c[First(n) + p];
    }
  }

  // ---- empty_dir, page by page ----

  // The emptiness check has passed the slots below i.
  predicate EmptyBelow(c: seq<Slot>, self: nat, bad: set<nat>, i: nat) {
    forall k :: 0 <= k < |c| && k < i && Readable(bad, k) && c[k].ino != 0 ==> DotSlot(c[k], self)
  }

  lemma PageChecked(page: Page, c: seq<Slot>, self: nat, bad: set<nat>, n: nat)
    requires n !in bad && First(n) < |c| && EmptyBelow(c, self, bad, Low(n, |c|))
    requires Shows(page, c, First(n), SlotsIn(|c|, n))
    ensures (forall q: nat :: q < SlotsIn(|c|, n) && page[q].ino != 0 ==> DotSlot(page[q], self)) <==>
            EmptyBelow(c, self, bad, Low(n + 1, |c|))
  {
    ScanPage(|c|, n);
    if EmptyBelow(c, self, bad, Low(n + 1, |c|)) {
      forall q: nat | q < SlotsIn(|c|, n) && page[q].ino != 0
        ensures DotSlot(page[q], self)
      {
        IndexSplits(n, q);
        assert c[First(n) + q] == page[q] && Readable(bad, First(n) + q);
      }
    }
    if forall q: nat :: q < SlotsIn(|c|, n) && page[q].ino != 0 ==> DotSlot(page[q], self) {
      forall k: nat | k < |c| && k < Low(n + 1, |c|) && Readable(bad, k) && c[k].ino != 0
        ensures DotSlot(c[k], self)
      {
        if k >= First(n) {
          assert page[k - First(n)] == c[First(n) + (k - First(n))];
        }
      }
    }
  }

  lemma PageUnchecked(c: seq<Slot>, self: nat, bad: set<nat>, n: nat)
    requires n in bad && EmptyBelow(c, self, bad, Low(n, |c|))
    ensures EmptyBelow(c, self, bad, Low(n + 1, |c|))
  {
    InPage(n, |c|);
  }
}
