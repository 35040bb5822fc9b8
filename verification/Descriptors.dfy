/** The descriptor table as its users see it, and what every legal history of it keeps. */
module Descriptors {
  import opened Sets

  const FIRST_FD: nat := 3

  // The number of cells, and the least value of a pointer.
  const LIMIT: nat := 1024

  // A struct file pointer.
  type File = f: nat | f >= LIMIT witness LIMIT

  // Descriptors from next on were never handed out; free lists the closed ones, the last closed
  // first; flying ones are handed out and not yet published; live ones are published.
  datatype Table = Table(next: nat, free: seq<nat>, flying: map<nat, File>, live: map<nat, File>)

  datatype Event =
    | Quiet
    | Took(fd: nat, file: File)       // install_file chose fd
    | Full                            // install_file found none
    | Published(fd: nat, file: File)  // install_file stored the pointer
    | Closed(fd: nat, file: File)     // uninstall_file freed fd
    | NotOpen(fd: nat)                // uninstall_file found nothing to free
    | Saw(fd: nat, file: File)        // get_file answered a file
    | SawNone(fd: nat)                // get_file answered NULL

  function Initial(): Table {
    Table(FIRST_FD, [], map[], map[])
  }

  // The answers a table gives.
  ghost predicate Allowed(t: Table, e: Event) {
    match e
    case Quiet => true
    case Took(fd, _) => if t.next < LIMIT then fd == t.next else t.free != [] && fd == t.free[0]
    case Full => t.next == LIMIT && t.free == []
    case Published(fd, file) => fd in t.flying && t.flying[fd] == file
    case Closed(fd, file) => fd in t.live && t.live[fd] == file
    case NotOpen(fd) => fd !in t.live
    case Saw(fd, file) => fd in t.live && t.live[fd] == file
    case SawNone(fd) => fd !in t.live
  }

  ghost function After(t: Table, e: Event): Table {
    match e
    case Took(fd, file) =>
      if t.next < LIMIT then t.(next := t.next + 1, flying := t.flying[fd := file])
      else t.(free := if t.free == [] then [] else t.free[1..], flying := t.flying[fd := file])
    case Published(fd, file) => t.(flying := t.flying - {fd}, live := t.live[fd := file])
    case Closed(fd, _) => t.(live := t.live - {fd}, free := [fd] + t.free)
    case _ => t
  }

  // ---- The partition ----

  ghost predicate Distinct(s: seq<nat>) {
    forall i: nat, j: nat :: i < j < |s| ==> s[i] != s[j]
  }

  // Every descriptor below next is exactly one of free, flying and live, and no other is any.
  ghost predicate Partition(t: Table) {
    && FIRST_FD <= t.next <= LIMIT
    && Distinct(t.free)
    && (forall fd :: fd in t.free ==> FIRST_FD <= fd < t.next && fd !in t.flying && fd !in t.live)
    && (forall fd :: fd in t.flying ==> FIRST_FD <= fd < t.next && fd !in t.live)
    && (forall fd :: fd in t.live ==> FIRST_FD <= fd < t.next)
    && (forall fd :: FIRST_FD <= fd < t.next ==> fd in t.free || fd in t.flying || fd in t.live)
  }

  lemma Popped(free: seq<nat>)
    requires free != [] && Distinct(free)
    ensures Distinct(free[1..])
    ensures forall fd :: fd in free[1..] <==> fd in free && fd != free[0]
  {
    assert free == [free[0]] + free[1..];
  }

  lemma Pushed(fd: nat, free: seq<nat>)
    requires fd !in free && Distinct(free)
    ensures Distinct([fd] + free)
    ensures forall x :: x in [fd] + free <==> x == fd || x in free
  {
    assert forall i: nat :: i < |free| ==> free[i] in free;
  }

  lemma PartitionKept(t: Table, e: Event)
    requires Partition(t) && Allowed(t, e)
    ensures Partition(After(t, e))
  {
    match e
    case Took(fd, file) =>
      if t.next == LIMIT {
        Popped(t.free);
        assert fd in t.free;
      }
    case Closed(fd, _) =>
      Pushed(fd, t.free);
    case _ =>
  }

  // ---- Exhaustion ----

  ghost function Range(lo: nat, hi: nat): (s: set<nat>)
    requires lo <= hi
    ensures |s| == hi - lo
    ensures forall fd: nat :: fd in s <==> lo <= fd < hi
    decreases hi
  {
    if lo == hi then {} else Range(lo, hi - 1) + {hi - 1}
  }

  // A set of numbers of a range has as many elements as the range exactly when it has all of them.
  lemma RangeFilled(lo: nat, hi: nat, used: set<nat>)
    requires lo <= hi && forall x: nat :: x in used ==> lo <= x < hi
    ensures |used| == hi - lo <==> forall x: nat :: lo <= x < hi ==> x in used
  {
    var all := Range(lo, hi);
    if x: nat :| lo <= x < hi && x !in used {
      SubsetSize(used, all - {x});
    } else {
      assert used == all;
    }
  }

  lemma UsedCount(t: Table)
    requires Partition(t)
    ensures |t.live.Keys + t.flying.Keys| == |t.live| + |t.flying|
  {
    assert t.live.Keys !! t.flying.Keys;
  }

  // The table is full exactly when all descriptors are live or flying.
  lemma FullExactly(t: Table)
    requires Partition(t)
    ensures Allowed(t, Full) <==> |t.live| + |t.flying| == 1021
  {
    UsedCount(t);
    var used := t.live.Keys + t.flying.Keys;
    RangeFilled(FIRST_FD, LIMIT, used);
    if !Allowed(t, Full) {
      var spare := if t.next < LIMIT then t.next else t.free[0];
      assert t.next == LIMIT ==> spare in t.free;
      assert FIRST_FD <= spare < LIMIT && spare !in used;
    }
  }

  // ---- Histories ----

  ghost function TableOf(h: seq<Event>): Table {
    if h == [] then Initial() else After(TableOf(h[..|h| - 1]), h[|h| - 1])
  }

  ghost predicate LegalHistory(h: seq<Event>) {
    h == [] || (LegalHistory(h[..|h| - 1]) && Allowed(TableOf(h[..|h| - 1]), h[|h| - 1]))
  }

  lemma {:induction false} HistoryPartition(h: seq<Event>)
    requires LegalHistory(h)
    ensures Partition(TableOf(h))
  {
    if h != [] {
      HistoryPartition(h[..|h| - 1]);
      PartitionKept(TableOf(h[..|h| - 1]), h[|h| - 1]);
    }
  }

  lemma {:induction false} LegalPrefix(h: seq<Event>, n: nat)
    requires LegalHistory(h) && n <= |h|
    ensures LegalHistory(h[..n])
  {
    if n < |h| {
      LegalPrefix(h[..|h| - 1], n);
      assert h[..|h| - 1][..n] == h[..n];
    } else {
      assert h[..n] == h;
    }
  }

  lemma LegalStep(h: seq<Event>, n: nat)
    requires LegalHistory(h) && n < |h|
    ensures LegalHistory(h[..n]) && Allowed(TableOf(h[..n]), h[n]) && Partition(TableOf(h[..n]))
  {
    LegalPrefix(h, n);
    LegalPrefix(h, n + 1);
    assert h[..n + 1][..n] == h[..n];
    HistoryPartition(h[..n]);
  }

  ghost predicate TakenIn(h: seq<Event>, fd: nat) {
    exists i: nat :: i < |h| && h[i].Took? && h[i].fd == fd
  }

  ghost predicate ClosedIn(h: seq<Event>, lo: nat, fd: nat) {
    exists i: nat :: lo <= i < |h| && h[i].Closed? && h[i].fd == fd
  }

  // The index of the last close of fd, or -1.
  ghost function LastClose(h: seq<Event>, fd: nat): (r: int)
    ensures -1 <= r < |h|
    ensures r >= 0 ==> h[r].Closed? && h[r].fd == fd
    ensures forall i: nat :: r < i < |h| ==> !(h[i].Closed? && h[i].fd == fd)
  {
    if h == [] then -1
    else if h[|h| - 1].Closed? && h[|h| - 1].fd == fd then |h| - 1
    else LastClose(h[..|h| - 1], fd)
  }

  // The descriptors that were handed out are exactly those from 3 to below next.
  lemma {:induction false} IssuedExactly(h: seq<Event>, fd: nat)
    requires LegalHistory(h)
    ensures TakenIn(h, fd) <==> 3 <= fd < TableOf(h).next
  {
    if h != [] {
      var n := |h| - 1;
      IssuedExactly(h[..n], fd);
      LegalStep(h, n);
      assert TakenIn(h, fd) <==> TakenIn(h[..n], fd) || (h[n].Took? && h[n].fd == fd) by {
        if TakenIn(h[..n], fd) {
          var i: nat :| i < n && h[..n][i].Took? && h[..n][i].fd == fd;
          assert h[i] == h[..n][i];
        }
        if TakenIn(h, fd) {
          var i: nat :| i < |h| && h[i].Took? && h[i].fd == fd;
          assert i < n ==> h[..n][i] == h[i];
        }
      }
      if h[n].Took? && TableOf(h[..n]).next == LIMIT {
        assert h[n].fd in TableOf(h[..n]).free;
      }
    }
  }

  ghost predicate InUse(t: Table, fd: nat) {
    fd in t.flying || fd in t.live
  }

  // A descriptor that was handed out stays flying or live until it is closed.
  lemma {:induction false} TakenUntilClosed(h: seq<Event>, i: nat)
    requires LegalHistory(h) && i < |h| && h[i].Took?
    ensures InUse(TableOf(h), h[i].fd) || ClosedIn(h, i, h[i].fd)
    decreases |h|
  {
    var n := |h| - 1;
    LegalStep(h, n);
    if i < n {
      TakenUntilClosed(h[..n], i);
      var fd := h[i].fd;
      if ClosedIn(h[..n], i, fd) {
        var k: nat :| i <= k < n && h[..n][k].Closed? && h[..n][k].fd == fd;
        assert h[k] == h[..n][k];
      }
    }
  }

  // Between two times a descriptor is handed out it is closed, and the second time no descriptor
  // that was never handed out is left.
  lemma NoTwoOwners(h: seq<Event>, i: nat, j: nat)
    requires LegalHistory(h) && i < j < |h|
    requires h[i].Took? && h[j].Took? && h[i].fd == h[j].fd
    ensures ClosedIn(h[..j], i, h[i].fd)
    ensures forall fd :: 3 <= fd < 1024 ==> TakenIn(h[..j], fd)
  {
    LegalStep(h, j);
    assert h[..j][i] == h[i];
    TakenUntilClosed(h[..j], i);
    IssuedExactly(h[..j], h[i].fd);
    forall fd | FIRST_FD <= fd < LIMIT ensures TakenIn(h[..j], fd) {
      IssuedExactly(h[..j], fd);
    }
  }

  // The free list is in the order of closing, the last first.
  ghost predicate NewestFirst(h: seq<Event>, free: seq<nat>) {
    && (forall i: nat :: i < |free| ==> LastClose(h, free[i]) >= 0)
    && (forall i: nat, j: nat :: i < j < |free| ==> LastClose(h, free[i]) > LastClose(h, free[j]))
  }

  // A descriptor closed now becomes the newest.
  lemma ClosedIsNewest(before: seq<Event>, h: seq<Event>, free: seq<nat>, fd: nat)
    requires |h| == |before| + 1 && h[..|before|] == before && h[|before|].Closed? && h[|before|].fd == fd
    requires NewestFirst(before, free) && fd !in free
    ensures NewestFirst(h, [fd] + free)
  {
    var n := |before|;
    forall i: nat | i < |free| + 1
      ensures LastClose(h, ([fd] + free)[i]) == if i == 0 then n else LastClose(before, free[i - 1])
    {
      assert i > 0 ==> free[i - 1] in free;
    }
  }

  lemma SameClose(before: seq<Event>, h: seq<Event>, fd: nat)
    requires |h| == |before| + 1 && h[..|before|] == before && !h[|before|].Closed?
    ensures LastClose(h, fd) == LastClose(before, fd)
  {
  }

  lemma {:induction false} FreeInOrder(h: seq<Event>)
    requires LegalHistory(h)
    ensures NewestFirst(h, TableOf(h).free)
  {
    if h != [] {
      var n := |h| - 1;
      FreeInOrder(h[..n]);
      LegalStep(h, n);
      var t := TableOf(h[..n]);
      if h[n].Closed? {
        ClosedIsNewest(h[..n], h, t.free, h[n].fd);
      } else {
        forall fd: nat
          ensures LastClose(h, fd) == LastClose(h[..n], fd)
        {
          SameClose(h[..n], h, fd);
        }
      }
    }
  }

  // Which descriptor install_file hands out: the least that was never handed out; when there is
  // none, the last closed of the closed ones.
  lemma TakesNewest(h: seq<Event>, j: nat)
    requires LegalHistory(h) && j < |h| && h[j].Took?
    ensures var t, fd := TableOf(h[..j]), h[j].fd;
            if t.next < LIMIT then !TakenIn(h[..j], fd) && forall k: nat :: 3 <= k < fd ==> TakenIn(h[..j], k)
            else LastClose(h[..j], fd) >= 0 && forall k: nat {:trigger LastClose(h[..j], k)} :: k in t.free && k != fd ==> LastClose(h[..j], k) < LastClose(h[..j], fd)
  {
    LegalStep(h, j);
    var t, fd := TableOf(h[..j]), h[j].fd;
    if t.next < LIMIT {
      IssuedExactly(h[..j], fd);
      forall k: nat | FIRST_FD <= k < fd ensures TakenIn(h[..j], k) {
        IssuedExactly(h[..j], k);
      }
    } else {
      FreeInOrder(h[..j]);
      forall k: nat | k in t.free && k != fd ensures LastClose(h[..j], k) < LastClose(h[..j], fd) {
        var i: nat :| i < |t.free| && t.free[i] == k;
      }
    }
  }

  ghost predicate PublishedIn(h: seq<Event>, i: int, fd: nat, file: File) {
    0 <= i < |h| && h[i] == Published(fd, file)
  }

  // A descriptor is live for exactly the file published for it last, and only until it is closed.
  lemma {:induction false} LiveIsPublished(h: seq<Event>, fd: nat)
    requires LegalHistory(h) && fd in TableOf(h).live
    ensures exists i: int :: LastClose(h, fd) < i && PublishedIn(h, i, fd, TableOf(h).live[fd])
  {
    var n := |h| - 1;
    LegalStep(h, n);
    if h[n].Published? && h[n].fd == fd {
      assert PublishedIn(h, n, fd, TableOf(h).live[fd]);
    } else {
      LiveIsPublished(h[..n], fd);
      var i: int :| LastClose(h[..n], fd) < i && PublishedIn(h[..n], i, fd, TableOf(h[..n]).live[fd]);
      assert PublishedIn(h, i, fd, TableOf(h).live[fd]);
    }
  }

  // get_file answers a file only after it was published there, and not after the descriptor was
  // closed again.
  lemma SeenWasPublished(h: seq<Event>, j: nat)
    requires LegalHistory(h) && j < |h| && h[j].Saw?
    ensures exists i: int :: LastClose(h[..j], h[j].fd) < i && PublishedIn(h[..j], i, h[j].fd, h[j].file)
  {
    LegalStep(h, j);
    LiveIsPublished(h[..j], h[j].fd);
  }
}
