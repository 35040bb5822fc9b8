/** What the invariant means for a user of the file system, and what single operations mean. */
module Consequences {
  import opened Names
  import opened Paging
  import opened Slots
  import opened Common
  import opened Namespace
  import opened Invariant
  import opened Preservation
  import opened Safety

  // ---- The directory tree ----

  // Every live directory below the root is named by exactly one slot of the whole tree besides
  // the dots; slot 1 names the directory that slot is in, slot 0 the directory itself.
  lemma OneEntry(s: State, x: nat)
    requires Inv(s) && Live(s, x) && x != ROOT
    ensures exists p: nat, i: nat ::
              && Entry(s, p, i, x) && p != x
              && (forall q: nat, j: nat :: Entry(s, q, j, x) ==> q == p && j == i)
              && SlotAt(s, x, 0) == Slot(x, Padded(DOT)) && SlotAt(s, x, 1) == Slot(p, Padded(DOTDOT))
  {
    assert GoodDir(s, x);
    DotsTaken(s, x);
    var p := Parent(s, x);
    var i: nat :| Entry(s, p, i, x);
    NotOwnParent(s, x);
    assert Entry(s, p, i, x) && p != x;
  }

  lemma CycleMissesRoot(s: State, x: nat, n: nat, m: nat)
    requires Up(s, x, n) == x && n > 0 && Up(s, x, m) == ROOT
    ensures x == ROOT
  {
    CycleRepeats(s, x, n, m);
    Multiple(m, n);
    UpAdd(s, x, m, m * n - m);
    UpRoot(s, m * n - m);
  }

  // No directory is its own proper ancestor.
  lemma NoCycle(s: State, x: nat, n: nat)
    requires Inv(s) && Live(s, x) && x != ROOT && n > 0
    ensures Up(s, x, n) != x
  {
    assert Above(s, ROOT, x);
    var m: nat :| Up(s, x, m) == ROOT;
    if Up(s, x, n) == x {
      CycleMissesRoot(s, x, n, m);
    }
  }

  lemma Multiple(m: nat, n: nat)
    requires n > 0
    ensures m <= m * n
  {
  }

  lemma {:induction false} CycleRepeats(s: State, x: nat, n: nat, k: nat)
    requires Up(s, x, n) == x
    ensures Up(s, x, k * n) == x
    decreases k
  {
    if k > 0 {
      CycleRepeats(s, x, n, k - 1);
      UpAdd(s, x, (k - 1) * n, n);
      assert (k - 1) * n + n == k * n;
    }
  }

  // ---- No orphans ----

  predicate ValidPath(path: seq<Name>) {
    forall i :: 0 <= i < |path| ==> ValidName(path[i])
  }

  // Resolving a path component by component with find_entry; 0 when a component is missing.
  function Walk(s: State, d: nat, path: seq<Name>): nat
    requires ValidPath(path)
    decreases |path|
  {
    if path == [] then d
    else
      var slots := SlotsOf(s, d);
      var i := FindFrom(slots, path[0], {}, 0);
      if i == |slots| then 0 else Walk(s, slots[i].ino, path[1..])
  }

  lemma {:induction false} WalkAppend(s: State, d: nat, a: seq<Name>, b: seq<Name>)
    requires ValidPath(a) && ValidPath(b) && (Walk(s, d, a) != 0)
    ensures ValidPath(a + b) && Walk(s, d, a + b) == Walk(s, Walk(s, d, a), b)
    decreases |a|
  {
    if a == [] {
      assert a + b == b;
    } else {
      assert (a + b)[1..] == a[1..] + b;
      var slots := SlotsOf(s, d);
      var i := FindFrom(slots, a[0], {}, 0);
      WalkAppend(s, slots[i].ino, a[1..], b);
    }
  }

  // The name stored in an entry finds that very entry.
  lemma EntryFound(s: State, p: nat, i: nat, x: nat)
    requires Inv(s) && Entry(s, p, i, x)
    ensures var name := NameOf(SlotAt(s, p, i).name);
            ValidName(name) && Walk(s, p, [name]) == x
  {
    var slots := SlotsOf(s, p);
    assert GoodDir(s, p);
    var name := NameOf(slots[i].name);
    NameCompareExact(name, slots[i].name);
    assert Readable({}, i);
    var r := FindFrom(slots, name, {}, 0);
    NameCompareExact(name, slots[r].name);
    assert r == i;
    var single: seq<Name> := [name];
    assert |single[1..]| == 0;
  }

  ghost predicate Reachable(s: State, x: nat) {
    exists path: seq<Name> :: ValidPath(path) && Walk(s, ROOT, path) == x
  }

  lemma ReachFurther(s: State, p: nat, i: nat, x: nat)
    requires Inv(s) && Entry(s, p, i, x) && Reachable(s, p)
    ensures Reachable(s, x)
  {
    EntryFound(s, p, i, x);
    var name := NameOf(SlotAt(s, p, i).name);
    var path: seq<Name> :| ValidPath(path) && Walk(s, ROOT, path) == p;
    WalkAppend(s, ROOT, path, [name]);
    assert Walk(s, ROOT, path + [name]) == x;
  }

  lemma ParentLive(s: State, x: nat, n: nat) returns (p: nat, m: nat)
    requires GoodDirs(s) && Live(s, x) && x != ROOT && Up(s, x, n) == ROOT
    ensures p == Parent(s, x) && m < n && Live(s, p) && Up(s, p, m) == ROOT
  {
    p, m := Parent(s, x), n - 1;
  }

  lemma {:induction false} DirReachable(s: State, x: nat, n: nat)
    requires Inv(s) && Live(s, x) && Up(s, x, n) == ROOT
    ensures Reachable(s, x)
    decreases n
  {
    if x == ROOT {
      assert ValidPath([]) && Walk(s, ROOT, []) == x;
    } else {
      var p, m := ParentLive(s, x, n);
      DirReachable(s, p, m);
      EntryReaches(s, x);
    }
  }

  lemma EntryReaches(s: State, x: nat)
    requires Inv(s) && Live(s, x) && x != ROOT && Reachable(s, Parent(s, x))
    ensures Reachable(s, x)
  {
    var i: nat :| Entry(s, Parent(s, x), i, x);
    ReachFurther(s, Parent(s, x), i, x);
  }

  // Every inode that counts a link can be reached from the root by its path.
  lemma NoOrphans(s: State, x: nat)
    requires Inv(s) && x in s.nodes && s.nodes[x].nlink > 0
    ensures Reachable(s, x)
  {
    if s.nodes[x].dir {
      LiveReachable(s, x);
    } else {
      FileReachable(s, x);
    }
  }

  lemma FileReachable(s: State, x: nat)
    requires Inv(s) && x in s.nodes && s.nodes[x].nlink > 0 && !s.nodes[x].dir
    ensures Reachable(s, x)
  {
    assert Refs(s, x) != {};
    var ref :| ref in Refs(s, x);
    var (p, i) := ref;
    assert Refers(s, p, i, x);
    NotADot(s, p, i, x);
    LiveReachable(s, p);
    ReachFurther(s, p, i, x);
  }

  lemma LiveReachable(s: State, x: nat)
    requires Inv(s) && Live(s, x)
    ensures Reachable(s, x)
  {
    assert Above(s, ROOT, x);
    var n: nat :| Up(s, x, n) == ROOT;
    DirReachable(s, x, n);
  }

  lemma NotADot(s: State, p: nat, i: nat, x: nat)
    requires Inv(s) && Refers(s, p, i, x) && x in s.nodes && !s.nodes[x].dir && x != 0
    ensures Entry(s, p, i, x)
  {
    if p != ROOT {
      DotsTaken(s, p);
    }
  }

  // ---- Failed operations ----

  // t is s but for at most one inode without links.
  ghost predicate Unaffected(s: State, t: State) {
    && (forall x :: x in s.nodes ==> x in t.nodes && t.nodes[x] == s.nodes[x])
    && (forall x :: x in t.nodes && x !in s.nodes ==> x == s.next && t.nodes[x].nlink == 0)
  }

  lemma PutDiffers(slots: seq<Slot>, i: nat, slot: Slot)
    requires i <= |slots| && (i < |slots| ==> slots[i].ino == 0) && slot.ino != 0
    ensures PutAt(slots, i, slot) != slots
  {
    if i < |slots| {
      assert PutAt(slots, i, slot)[i].ino != slots[i].ino;
    }
  }

  // An insertion that has put its slot into at.dir has affected it.
  lemma PutAffects(s: State, t: State, at: Dentry, f: Fault, x: nat)
    requires at.dir in s.nodes && |at.name| <= NAME_LEN && Adds(s, at.dir, at.name, f) && x != 0
    requires var slots := s.nodes[at.dir].slots;
             at.dir in t.nodes ==> t.nodes[at.dir].slots == PutAt(slots, SpotFrom(slots, at.name, f.bad, 0).index, Slot(x, Padded(at.name)))
    ensures !Unaffected(s, t)
  {
    PutDiffers(s.nodes[at.dir].slots, SpotFrom(s.nodes[at.dir].slots, at.name, f.bad, 0).index, Slot(x, Padded(at.name)));
  }

  lemma CreateFails(s: State, at: Dentry, f: Fault)
    requires at.dir in s.nodes && s.next !in s.nodes && s.next != 0 && |at.name| <= NAME_LEN
    requires AddNondir(NewInode(s, false), at.dir, at.name, s.next, f).err != OK
    ensures Unaffected(s, AddNondir(NewInode(s, false), at.dir, at.name, s.next, f).state) <==> !Spoils(s, at, f)
  {
    var t := AddNondir(NewInode(s, false), at.dir, at.name, s.next, f).state;
    assert NewInode(s, false).nodes[at.dir] == s.nodes[at.dir];
    if Adds(s, at.dir, at.name, f) {
      PutAffects(s, t, at, f, s.next);
    } else {
      MknodState(s, at, f);
    }
  }

  lemma LinkFails(s: State, x: nat, at: Dentry, f: Fault)
    requires at.dir in s.nodes && x in s.nodes && x != at.dir && x != 0 && |at.name| <= NAME_LEN
    requires Link(s, x, at, f).err != OK
    ensures Unaffected(s, Link(s, x, at, f).state) <==> !Spoils(s, at, f)
  {
    if Adds(s, at.dir, at.name, f) {
      PutAffects(s, Link(s, x, at, f).state, at, f, x);
    } else {
      LinkState(s, x, at, f);
    }
  }

  lemma MkdirFails(s: State, at: Dentry, alloc: bool, page: bool, dotsTorn: bool, f: Fault)
    requires at.dir in s.nodes && s.next !in s.nodes && s.next != 0 && |at.name| <= NAME_LEN
    requires Mkdir(s, at, alloc, page, dotsTorn, f).err != OK
    ensures Unaffected(s, Mkdir(s, at, alloc, page, dotsTorn, f).state) <==> !MkdirTorn(s, at, alloc, page, dotsTorn, f)
  {
    MkdirState(s, at, alloc, page, dotsTorn, f);
    if alloc && page && !dotsTorn && Adds(s, at.dir, at.name, f) {
      PutAffects(s, Mkdir(s, at, alloc, page, dotsTorn, f).state, at, f, s.next);
    }
  }

  lemma UnlinkFails(s: State, at: Dentry, f: Fault)
    requires at.dir in s.nodes && at.ino in s.nodes && |at.name| <= NAME_LEN && Unlink(s, at, f).err != OK
    ensures Unlink(s, at, f).state == s || !Unaffected(s, Unlink(s, at, f).state)
    ensures Unaffected(s, Unlink(s, at, f).state) <==> !Finds(s, at, f.bad)
  {
    if Finds(s, at, f.bad) {
      var i := FindFrom(s.nodes[at.dir].slots, at.name, f.bad, 0);
      assert Unlink(s, at, f).state.nodes[at.dir].slots[i].ino != s.nodes[at.dir].slots[i].ino;
    }
  }

  lemma RmdirFails(s: State, at: Dentry, unseen: set<nat>, f: Fault)
    requires at.dir in s.nodes && at.ino in s.nodes && |at.name| <= NAME_LEN && Rmdir(s, at, unseen, f).err != OK
    ensures Unaffected(s, Rmdir(s, at, unseen, f).state) <==> !(LooksEmpty(s.nodes[at.ino].slots, at.ino, unseen) && Finds(s, at, f.bad))
  {
    if LooksEmpty(s.nodes[at.ino].slots, at.ino, unseen) {
      UnlinkFails(s, at, f);
    }
  }

  lemma RenameFails(s: State, from: Dentry, to: Dentry, flags: nat, f: RenameFaults)
    requires from.dir in s.nodes && from.ino in s.nodes && from.ino != 0 && to.dir in s.nodes
    requires to.ino == 0 || to.ino in s.nodes
    requires |from.name| <= NAME_LEN && |to.name| <= NAME_LEN
    requires Rename(s, from, to, flags, f).err != OK
    ensures Unaffected(s, Rename(s, from, to, flags, f).state) <==>
            !(to.ino == 0 && Proceeds(s, from, flags, f) && Adds(s, to.dir, to.name, f.add))
  {
    if to.ino == 0 {
      RenameFreeState(s, from, to, flags, f);
      if Proceeds(s, from, flags, f) && Adds(s, to.dir, to.name, f.add) {
        RenameFailsTorn(s, from, to, flags, f);
        PutAffects(s, Rename(s, from, to, flags, f).state, to, f.add, from.ino);
      }
    } else {
      RenameTakenFails(s, from, to, flags, f);
    }
  }

  lemma RenameFailsTorn(s: State, from: Dentry, to: Dentry, flags: nat, f: RenameFaults)
    requires from.dir in s.nodes && from.ino in s.nodes && to.dir in s.nodes && to.ino == 0
    requires |from.name| <= NAME_LEN && |to.name| <= NAME_LEN
    requires Proceeds(s, from, flags, f) && Adds(s, to.dir, to.name, f.add)
    ensures Rename(s, from, to, flags, f).err != OK <==> f.add.torn
  {
  }

  lemma RenameTakenFails(s: State, from: Dentry, to: Dentry, flags: nat, f: RenameFaults)
    requires from.dir in s.nodes && from.ino in s.nodes && to.dir in s.nodes && to.ino != 0 && to.ino in s.nodes
    requires |from.name| <= NAME_LEN && |to.name| <= NAME_LEN
    requires Rename(s, from, to, flags, f).err != OK
    ensures Rename(s, from, to, flags, f).state == s
  {
  }

  // An operation that returns an error has changed no directory and no link count, and left
  // behind at most an inode without links, if and only if it is not torn.
  lemma ErrorChangesNothing(s: State, op: Op)
    requires Inv(s) && Legal(s, op)
    ensures Step(s, op).err != OK ==> (Unaffected(s, Step(s, op).state) <==> !Torn(s, op))
  {
    if Step(s, op).err != OK {
      match op
      case OpMknod(at, devOk, alloc, f) =>
        if devOk && alloc {
          CreateFails(s, at, f);
        }
      case OpTmpfile(alloc) =>
      case OpSymlink(at, textLen, alloc, written, f) =>
        if textLen + 1 <= PAGE_SIZE && alloc && written == OK {
          CreateFails(s, at, f);
        }
      case OpLink(x, at, f) => LinkFails(s, x, at, f);
      case OpMkdir(at, alloc, page, dotsTorn, f) => MkdirFails(s, at, alloc, page, dotsTorn, f);
      case OpUnlink(at, f) => UnlinkFails(s, at, f);
      case OpRmdir(at, unseen, f) => RmdirFails(s, at, unseen, f);
      case OpRename(from, to, flags, f) => RenameErrs(s, from, to, flags, f);
    }
  }

  lemma RenameErrs(s: State, from: Dentry, to: Dentry, flags: nat, f: RenameFaults)
    requires Inv(s) && Legal(s, OpRename(from, to, flags, f)) && Rename(s, from, to, flags, f).err != OK
    ensures Unaffected(s, Rename(s, from, to, flags, f).state) <==> !RenameTorn(s, from, to, flags, f)
  {
    RenameFails(s, from, to, flags, f);
    if to.ino == 0 {
      if Proceeds(s, from, flags, f) && Adds(s, to.dir, to.name, f.add) {
        RenameFailsTorn(s, from, to, flags, f);
      }
    } else {
      RenameOverAnswers(s, from, to, flags, f);
    }
  }

  // A rename over an existing name that is torn reports success.
  lemma RenameOverAnswers(s: State, from: Dentry, to: Dentry, flags: nat, f: RenameFaults)
    requires from.dir in s.nodes && from.ino in s.nodes && to.dir in s.nodes && to.ino != 0 && to.ino in s.nodes
    requires |from.name| <= NAME_LEN && |to.name| <= NAME_LEN
    ensures RenameTorn(s, from, to, flags, f) ==> Rename(s, from, to, flags, f).err == OK
  {
  }
}
