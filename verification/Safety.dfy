/** Every VFS operation keeps the invariant unless a disk fault tears it apart, and then never. */
module Safety {
  import opened Names
  import opened Paging
  import opened Slots
  import opened Common
  import opened Namespace
  import opened Invariant
  import opened Preservation
  import opened RenameSteps
  import opened Sets

  // ---- When a fault does damage ----

  // The insertion gets as far as writing its slot.
  predicate Adds(s: State, d: nat, name: Name, f: Fault)
    requires |name| <= NAME_LEN
  {
    SpotFrom(SlotsOf(s, d), name, f.bad, 0).At?
  }

  predicate Finds(s: State, at: Dentry, bad: set<nat>)
    requires |at.name| <= NAME_LEN
  {
    FindFrom(SlotsOf(s, at.dir), at.name, bad, 0) < |SlotsOf(s, at.dir)|
  }

  // The directory is empty but for "." and "..".
  predicate TrulyEmpty(s: State, x: nat) {
    LooksEmpty(SlotsOf(s, x), x, {})
  }

  // The lookup has missed the name: it is in the directory although the dentry is negative.
  predicate Hidden(s: State, at: Dentry)
    requires |at.name| <= NAME_LEN
  {
    !Absent(SlotsOf(s, at.dir), Padded(at.name))
  }

  // The insertion writes a slot, and writing it out fails or the name is there twice now.
  predicate Spoils(s: State, at: Dentry, f: Fault)
    requires |at.name| <= NAME_LEN
  {
    Adds(s, at.dir, at.name, f) && (f.torn || Hidden(s, at))
  }

  // Either a directory write fails after the slot has changed, so that the caller unwinds a
  // change that stays; or a name is inserted a second time because the lookup could not read the
  // page it is on; or a directory is taken for empty because its entries lie on pages that cannot
  // be read.
  ghost predicate Torn(s: State, op: Op)
    requires Legal(s, op)
  {
    match op
    case OpMknod(at, devOk, alloc, f) => devOk && alloc && Spoils(s, at, f)
    case OpTmpfile(_) => false
    case OpSymlink(at, textLen, alloc, written, f) =>
      textLen + 1 <= PAGE_SIZE && alloc && written == OK && Spoils(s, at, f)
    case OpLink(_, at, f) => Spoils(s, at, f)
    case OpMkdir(at, alloc, page, dotsTorn, f) => MkdirTorn(s, at, alloc, page, dotsTorn, f)
    case OpUnlink(at, f) => Finds(s, at, f.bad) && f.torn
    case OpRmdir(at, unseen, f) =>
      LooksEmpty(SlotsOf(s, at.ino), at.ino, unseen) && Finds(s, at, f.bad) && (f.torn || !TrulyEmpty(s, at.ino))
    case OpRename(from, to, flags, f) => RenameTorn(s, from, to, flags, f)
  }

  // The rename has found what it is to move.
  predicate Proceeds(s: State, from: Dentry, flags: nat, f: RenameFaults)
    requires from.ino in s.nodes && |from.name| <= NAME_LEN
  {
    flags <= 1 && Finds(s, from, f.oldBad) && !(s.nodes[from.ino].dir && f.dotsUnreadable)
  }

  predicate RenameTorn(s: State, from: Dentry, to: Dentry, flags: nat, f: RenameFaults)
    requires from.ino in s.nodes && |from.name| <= NAME_LEN && |to.name| <= NAME_LEN
  {
    && Proceeds(s, from, flags, f)
    && if to.ino == 0 then Spoils(s, to, f.add)
       else s.nodes[from.ino].dir && LooksEmpty(SlotsOf(s, to.ino), to.ino, f.unseen) && Finds(s, to, f.newBad) && !TrulyEmpty(s, to.ino)
  }

  // ---- From names to slots ----

  // The entry a positive dentry stands for is the slot that find_entry returns, if any.
  lemma FoundEntry(s: State, at: Dentry, bad: set<nat>)
    requires Inv(s) && Positive(s, at)
    ensures var r := FindFrom(s.nodes[at.dir].slots, at.name, bad, 0);
            r < |s.nodes[at.dir].slots| ==> Entry(s, at.dir, r, at.ino) && SlotAt(s, at.dir, r).name == Padded(at.name)
    ensures Finds(s, at, {})
  {
    var slots := s.nodes[at.dir].slots;
    assert GoodDir(s, at.dir);
    var i: nat :| Holds(slots, Padded(at.name), i) && SlotAt(s, at.dir, i).ino == at.ino;
    assert Readable({}, i);
    NameCompareExact(at.name, slots[i].name);
    var r := FindFrom(slots, at.name, bad, 0);
    if r < |slots| {
      NameCompareExact(at.name, slots[r].name);
      assert r == i;
      NotDots(at.name);
    }
  }

  lemma NotDots(name: Name)
    requires ChildName(name)
    ensures Clean(Padded(name)) && Padded(name) != Padded(DOT) && Padded(name) != Padded(DOTDOT)
  {
    PaddedRoundTrip(name);
    PaddedRoundTrip(DOT);
    PaddedRoundTrip(DOTDOT);
  }

  // The slot an insertion of an absent name chooses has room for it.
  lemma SpotIsRoom(s: State, at: Dentry, bad: set<nat>)
    requires Negative(s, at) && !Hidden(s, at)
    ensures var r := SpotFrom(s.nodes[at.dir].slots, at.name, bad, 0);
            r.At? ==> Room(s, at.dir, r.index, Padded(at.name))
  {
    NotDots(at.name);
  }

  // An insertion that does not notice the name writes it in front of where it is.
  lemma HiddenBehind(s: State, at: Dentry, bad: set<nat>) returns (k: nat)
    requires GoodDirs(s) && Negative(s, at) && Hidden(s, at)
    requires SpotFrom(s.nodes[at.dir].slots, at.name, bad, 0).At?
    ensures SpotFrom(s.nodes[at.dir].slots, at.name, bad, 0).index < k
    ensures Holds(s.nodes[at.dir].slots, Padded(at.name), k)
  {
    assert GoodDir(s, at.dir);
    k := OccurrenceBehind(s.nodes[at.dir].slots, at.name, bad);
  }

  // A name in two slots breaks the invariant.
  lemma TwiceBreaks(t: State, d: nat, raw: RawName, j: nat, k: nat)
    requires Live(t, d) && j != k && Holds(t.nodes[d].slots, raw, j) && Holds(t.nodes[d].slots, raw, k)
    ensures !Inv(t)
  {
    assert !Unique(t.nodes[d].slots);
    assert !GoodDir(t, d);
  }

  // So does an insertion that did not notice the name, whatever else is done with other inodes
  // and other slots.
  lemma HiddenBreaks(s: State, t: State, at: Dentry, bad: set<nat>)
    requires GoodDirs(s) && Negative(s, at) && Hidden(s, at) && Live(t, at.dir)
    requires var slots := s.nodes[at.dir].slots;
             var spot := SpotFrom(slots, at.name, bad, 0);
             && spot.At?
             && exists x: nat :: x != 0 && t.nodes[at.dir].slots == PutAt(slots, spot.index, Slot(x, Padded(at.name)))
    ensures !Inv(t)
  {
    var k := HiddenBehind(s, at, bad);
    var i := SpotFrom(s.nodes[at.dir].slots, at.name, bad, 0).index;
    assert t.nodes[at.dir].slots[k] == s.nodes[at.dir].slots[k];
    TwiceBreaks(t, at.dir, Padded(at.name), i, k);
  }

  // The emptiness check, byte by byte, sees exactly the entries on the pages it can read.
  lemma LooksEmptyExact(s: State, x: nat, bad: set<nat>)
    requires GoodDirs(s) && Numbered(s) && Live(s, x) && x != ROOT
    ensures LooksEmpty(s.nodes[x].slots, x, bad) <==>
            forall j: nat :: 2 <= j < |s.nodes[x].slots| && Readable(bad, j) ==> SlotAt(s, x, j).ino == 0
  {
    var slots := s.nodes[x].slots;
    assert GoodDir(s, x);
    DotsTaken(s, x);
    PaddedRoundTrip(DOT);
    PaddedRoundTrip(DOTDOT);
    forall j: nat | j < |slots| && slots[j].ino != 0
      ensures DotSlot(slots[j], x) <==> j < 2
    {
      DotSlotExact(slots[j], x);
      if j >= 2 {
        assert slots[0].ino != 0 && slots[j].name != slots[0].name && slots[j].name != slots[1].name;
      }
    }
  }

  lemma TrulyEmptyExact(s: State, x: nat)
    requires GoodDirs(s) && Numbered(s) && Live(s, x) && x != ROOT
    ensures TrulyEmpty(s, x) <==> EmptyDir(s, x)
  {
    LooksEmptyExact(s, x, {});
    assert forall j :: 2 <= j < |s.nodes[x].slots| ==> Readable({}, j);
  }

  // ---- States that break the invariant ----

  lemma SurplusRef(s: State, t: State, d: nat, i: nat, x: nat)
    requires Counted(s) && Live(s, d) && SlotAt(s, d, i).ino == 0 && x in s.nodes && x != 0
    requires Rewritten(s, t, d, i, x) && x in t.nodes && t.nodes[x].nlink == s.nodes[x].nlink
    ensures !Counted(t)
  {
    RewrittenRefs(s, t, d, i, x, x);
    assert (d, i) !in Refs(s, x);
  }

  lemma MissingRef(s: State, t: State, d: nat, i: nat, x: nat)
    requires Counted(s) && Refers(s, d, i, x) && x in s.nodes && x != 0
    requires Rewritten(s, t, d, i, 0) && x in t.nodes && t.nodes[x].nlink == s.nodes[x].nlink
    ensures !Counted(t)
  {
    RewrittenRefs(s, t, d, i, 0, x);
    assert (d, i) in Refs(s, x);
  }

  lemma DanglingRef(t: State, d: nat, i: nat, x: nat)
    requires Refers(t, d, i, x) && x in t.nodes && x != 0 && x != ROOT && t.nodes[x].nlink == 0
    ensures !Counted(t)
  {
    assert (d, i) in Refs(t, x);
  }

  // ---- Creation ----

  // What a creation leaves: an inode without a name, or one attached to its slot; a torn write
  // leaves the slot but takes the link away again.
  lemma MknodState(s: State, at: Dentry, f: Fault)
    requires at.dir in s.nodes && s.next !in s.nodes && |at.name| <= NAME_LEN
    ensures var spot := SpotFrom(s.nodes[at.dir].slots, at.name, f.bad, 0);
            var t := AddNondir(NewInode(s, false), at.dir, at.name, s.next, f).state;
            var s0 := Fresh(s, false, []);
            && (!spot.At? ==> t == s0)
            && (spot.At? ==> var a := Attach(s0, at.dir, spot.index, Padded(at.name), s.next);
                             t == if f.torn then Dec(a, s.next) else a)
  {
    var spot := SpotFrom(s.nodes[at.dir].slots, at.name, f.bad, 0);
    var s1 := NewInode(s, false);
    var s0 := Fresh(s, false, []);
    assert s1.nodes[at.dir] == s.nodes[at.dir] == s0.nodes[at.dir];
    if spot.At? {
      var slot := Slot(s.next, Padded(at.name));
      assert Write(s1, at.dir, spot.index, slot).nodes == Inc(Write(s0, at.dir, spot.index, slot), s.next).nodes;
    }
  }

  lemma RoomAfterFresh(s: State, dir: bool, slots: seq<Slot>, d: nat, i: nat, raw: RawName)
    requires Room(s, d, i, raw) && s.next !in s.nodes
    ensures Room(Fresh(s, dir, slots), d, i, raw)
  {
  }

  lemma MknodSafe(s: State, at: Dentry, f: Fault)
    requires Inv(s) && Negative(s, at)
    ensures Inv(AddNondir(NewInode(s, false), at.dir, at.name, s.next, f).state) <==> !Spoils(s, at, f)
  {
    MknodState(s, at, f);
    FreshKeeps(s, false, []);
    var spot := SpotFrom(s.nodes[at.dir].slots, at.name, f.bad, 0);
    if spot.At? && Hidden(s, at) {
      HiddenBreaks(s, AddNondir(NewInode(s, false), at.dir, at.name, s.next, f).state, at, f.bad);
    } else if spot.At? {
      SpotIsRoom(s, at, f.bad);
      RoomAfterFresh(s, false, [], at.dir, spot.index, Padded(at.name));
      AttachSafe(Fresh(s, false, []), at.dir, spot.index, Padded(at.name), s.next);
    }
  }

  // Attaching keeps the invariant; attaching without the link does not.
  lemma AttachSafe(s: State, d: nat, i: nat, raw: RawName, x: nat)
    requires Inv(s) && Room(s, d, i, raw) && x in s.nodes && !s.nodes[x].dir && s.nodes[x].nlink < LINK_MAX
    ensures Inv(Attach(s, d, i, raw, x))
    ensures !Inv(Dec(Attach(s, d, i, raw, x), x))
  {
    AttachAt(s, d, i, raw, x);
    AttachKeeps(s, d, i, raw, x);
    var a := Attach(s, d, i, raw, x);
    assert Bounded(a);
    DecRewritten(s, a, d, i, x);
    SurplusRef(s, Dec(a, x), d, i, x);
  }

  lemma DecRewritten(s: State, a: State, d: nat, i: nat, x: nat)
    requires Rewritten(s, a, d, i, x) && x in a.nodes && !a.nodes[x].dir && a.nodes[x].nlink > 0
    ensures Rewritten(s, Dec(a, x), d, i, x)
  {
  }

  lemma TmpfileSafe(s: State)
    requires Inv(s)
    ensures Inv(Dec(NewInode(s, false), s.next))
  {
    FreshKeeps(s, false, []);
    assert Dec(NewInode(s, false), s.next) == Fresh(s, false, []);
  }

  lemma LinkState(s: State, x: nat, at: Dentry, f: Fault)
    requires at.dir in s.nodes && x in s.nodes && x != at.dir && |at.name| <= NAME_LEN
    ensures var spot := SpotFrom(s.nodes[at.dir].slots, at.name, f.bad, 0);
            var t := Link(s, x, at, f).state;
            && (!spot.At? ==> t == s)
            && (spot.At? ==> var a := Attach(s, at.dir, spot.index, Padded(at.name), x);
                             t == if f.torn then Dec(a, x) else a)
  {
    var spot := SpotFrom(s.nodes[at.dir].slots, at.name, f.bad, 0);
    if spot.At? {
      var slot := Slot(x, Padded(at.name));
      assert Write(Inc(s, x), at.dir, spot.index, slot).nodes == Inc(Write(s, at.dir, spot.index, slot), x).nodes;
    } else {
      assert Dec(Inc(s, x), x).nodes == s.nodes;
    }
  }

  lemma LinkSafe(s: State, x: nat, at: Dentry, f: Fault)
    requires Inv(s) && Legal(s, OpLink(x, at, f))
    ensures Inv(Link(s, x, at, f).state) <==> !Spoils(s, at, f)
  {
    LinkState(s, x, at, f);
    var spot := SpotFrom(s.nodes[at.dir].slots, at.name, f.bad, 0);
    if spot.At? && Hidden(s, at) {
      HiddenBreaks(s, Link(s, x, at, f).state, at, f.bad);
    } else if spot.At? {
      SpotIsRoom(s, at, f.bad);
      AttachSafe(s, at.dir, spot.index, Padded(at.name), x);
    }
  }

  // ---- mkdir ----

  lemma MkdirState(s: State, at: Dentry, alloc: bool, page: bool, dotsTorn: bool, f: Fault)
    requires at.dir in s.nodes && s.next !in s.nodes && |at.name| <= NAME_LEN
    ensures var t := Mkdir(s, at, alloc, page, dotsTorn, f).state;
            var spot := SpotFrom(s.nodes[at.dir].slots, at.name, f.bad, 0);
            var s0 := Fresh(s, true, DotSlots(s.next, at.dir));
            && (!alloc ==> t == s)
            && (alloc && !page ==> t == Fresh(s, true, []))
            && (alloc && page && (dotsTorn || !spot.At?) ==> t == s0)
            && (alloc && page && !dotsTorn && spot.At? ==>
                  var a := AttachDir(s0, at.dir, spot.index, Padded(at.name), s.next);
                  t == if f.torn then UndoMkdir(a, at.dir, s.next) else a)
  {
    var x, d := s.next, at.dir;
    var s2 := NewDirLinked(s, d);
    UndoneBare(s, d);
    UndoneFilled(s, d);
    FilledDir(s, d);
    assert s2.nodes[d].slots == s.nodes[d].slots;
    assert Dec(Inc(s, d), d).nodes == s.nodes;
  }

  // What mkdir has before it fills the new directory.
  function NewDirLinked(s: State, d: nat): State
    requires d in s.nodes
  {
    Inc(NewInode(Inc(s, d), true), s.next)
  }

  function Filled(s: State, x: nat, d: nat): State
    requires x in s.nodes
  {
    s.(nodes := s.nodes[x := s.nodes[x].(slots := DotSlots(x, d))])
  }

  lemma UndoneBare(s: State, d: nat)
    requires d in s.nodes && s.next !in s.nodes
    ensures UndoMkdir(NewDirLinked(s, d), d, s.next) == Fresh(s, true, [])
  {
    assert UndoMkdir(NewDirLinked(s, d), d, s.next).nodes == Fresh(s, true, []).nodes;
  }

  lemma UndoneFilled(s: State, d: nat)
    requires d in s.nodes && s.next !in s.nodes
    ensures UndoMkdir(Filled(NewDirLinked(s, d), s.next, d), d, s.next) == Fresh(s, true, DotSlots(s.next, d))
  {
    assert UndoMkdir(Filled(NewDirLinked(s, d), s.next, d), d, s.next).nodes == Fresh(s, true, DotSlots(s.next, d)).nodes;
  }

  lemma FilledDir(s: State, d: nat)
    requires d in s.nodes && s.next !in s.nodes
    ensures var s0 := Fresh(s, true, DotSlots(s.next, d));
            Filled(NewDirLinked(s, d), s.next, d) == Inc(Inc(Inc(s0, s.next), s.next), d)
  {
    var s0 := Fresh(s, true, DotSlots(s.next, d));
    assert Filled(NewDirLinked(s, d), s.next, d).nodes == Inc(Inc(Inc(s0, s.next), s.next), d).nodes;
  }

  // Torn or not, the slot is put.
  lemma MkdirPuts(s: State, at: Dentry, f: Fault)
    requires Live(s, at.dir) && s.next !in s.nodes && |at.name| <= NAME_LEN && Adds(s, at.dir, at.name, f)
    ensures var t := Mkdir(s, at, true, true, false, f).state;
            && Live(t, at.dir)
            && t.nodes[at.dir].slots ==
               PutAt(s.nodes[at.dir].slots, SpotFrom(s.nodes[at.dir].slots, at.name, f.bad, 0).index, Slot(s.next, Padded(at.name)))
  {
    MkdirState(s, at, true, true, false, f);
  }

  lemma FreshDirKeeps(s: State, d: nat)
    requires Inv(s) && Live(s, d)
    ensures Inv(Fresh(s, true, []))
    ensures Inv(Fresh(s, true, DotSlots(s.next, d)))
  {
    FreshKeeps(s, true, []);
    FreshKeeps(s, true, DotSlots(s.next, d));
  }

  predicate MkdirTorn(s: State, at: Dentry, alloc: bool, page: bool, dotsTorn: bool, f: Fault)
    requires |at.name| <= NAME_LEN
  {
    alloc && page && !dotsTorn && Spoils(s, at, f)
  }

  lemma MkdirSafe(s: State, at: Dentry, alloc: bool, page: bool, dotsTorn: bool, f: Fault)
    requires Inv(s) && Legal(s, OpMkdir(at, alloc, page, dotsTorn, f))
    ensures Inv(Mkdir(s, at, alloc, page, dotsTorn, f).state) <==> !MkdirTorn(s, at, alloc, page, dotsTorn, f)
  {
    MkdirState(s, at, alloc, page, dotsTorn, f);
    FreshDirKeeps(s, at.dir);
    var spot := SpotFrom(s.nodes[at.dir].slots, at.name, f.bad, 0);
    if alloc && page && !dotsTorn && spot.At? && Hidden(s, at) {
      MkdirPuts(s, at, f);
      HiddenBreaks(s, Mkdir(s, at, alloc, page, dotsTorn, f).state, at, f.bad);
    } else if spot.At? && !Hidden(s, at) {
      SpotIsRoom(s, at, f.bad);
      NewDirSafe(s, at.dir, spot.index, Padded(at.name));
    }
  }

  lemma NewDirSafe(s: State, d: nat, i: nat, raw: RawName)
    requires Inv(s) && Room(s, d, i, raw) && s.nodes[d].nlink < LINK_MAX
    ensures var a := AttachDir(Fresh(s, true, DotSlots(s.next, d)), d, i, raw, s.next);
            Inv(a) && !Inv(UndoMkdir(a, d, s.next))
  {
    FreshDirKeeps(s, d);
    RoomAfterFresh(s, true, DotSlots(s.next, d), d, i, raw);
    AttachDirSafe(Fresh(s, true, DotSlots(s.next, d)), d, i, raw, s.next);
  }

  lemma AttachDirSafe(s: State, d: nat, i: nat, raw: RawName, x: nat)
    requires Inv(s) && Room(s, d, i, raw) && NewDir(s, d, x) && s.nodes[d].nlink < LINK_MAX
    ensures Inv(AttachDir(s, d, i, raw, x))
    ensures !Inv(UndoMkdir(AttachDir(s, d, i, raw, x), d, x))
  {
    AttachDirKeeps(s, d, i, raw, x);
    var a := AttachDir(s, d, i, raw, x);
    assert Bounded(a);
    UndoDangles(s, d, i, raw, x);
    DanglingRef(UndoMkdir(a, d, x), d, i, x);
  }

  lemma UndoDangles(s: State, d: nat, i: nat, raw: RawName, x: nat)
    requires Room(s, d, i, raw) && NewDir(s, d, x)
    ensures var t := UndoMkdir(AttachDir(s, d, i, raw, x), d, x);
            Refers(t, d, i, x) && x in t.nodes && t.nodes[x].nlink == 0
  {
  }

  // ---- unlink ----

  lemma DetachSafe(s: State, d: nat, i: nat, x: nat)
    requires Inv(s) && Entry(s, d, i, x) && x in s.nodes && !s.nodes[x].dir
    ensures Inv(Detach(s, d, i))
  {
    ReferredIsLinked(s, d, i, x);
    DetachKeeps(s, d, i, x);
    DetachAt(s, d, i, x);
  }

  // A slot cleared without dropping the link.
  lemma ClearedBreaks(s: State, d: nat, i: nat, x: nat)
    requires Inv(s) && Entry(s, d, i, x) && x in s.nodes
    ensures !Inv(Write(s, d, i, SlotAt(s, d, i).(ino := 0)))
  {
    var t := Write(s, d, i, SlotAt(s, d, i).(ino := 0));
    WriteAt(s, d, i, SlotAt(s, d, i).(ino := 0));
    assert Rewritten(s, t, d, i, 0);
    MissingRef(s, t, d, i, x);
  }

  lemma UnlinkSafe(s: State, at: Dentry, f: Fault)
    requires Inv(s) && Legal(s, OpUnlink(at, f))
    ensures Inv(Unlink(s, at, f).state) <==> !(Finds(s, at, f.bad) && f.torn)
  {
    FoundEntry(s, at, f.bad);
    if Finds(s, at, f.bad) {
      var i := FindFrom(s.nodes[at.dir].slots, at.name, f.bad, 0);
      assert SlotAt(s, at.dir, i) == s.nodes[at.dir].slots[i];
      DetachSafe(s, at.dir, i, at.ino);
      ClearedBreaks(s, at.dir, i, at.ino);
    }
  }

  // ---- rmdir ----

  // A directory with entries has lost its own entry and two links: either it still counts as
  // live and hangs nowhere, or the files in it count a reference from a dead directory.
  lemma LostDir(s: State, t: State, p: nat, i: nat, x: nat)
    requires Core(s) && Entry(s, p, i, x) && x in s.nodes && s.nodes[x].dir && !EmptyDir(s, x)
    requires SameKinds(s, t) && t.nodes[x].slots == s.nodes[x].slots
    requires t.nodes[x].nlink == s.nodes[x].nlink - 2
    requires forall k: nat :: !Entry(t, p, k, x)
    requires forall z :: z in s.nodes && !s.nodes[z].dir ==> t.nodes[z].nlink == s.nodes[z].nlink
    requires forall z, e: nat, k: nat {:trigger Refers(t, e, k, z)} ::
               z in s.nodes && !s.nodes[z].dir && Refers(t, e, k, z) ==> Refers(s, e, k, z)
    ensures !(Counted(t) && Entered(t))
  {
    EntryOfDir(s, p, i, x);
    if t.nodes[x].nlink > 0 {
      assert Live(t, x) && Parent(t, x) == p;
      assert !Entered(t);
    } else {
      var j: nat :| 2 <= j && SlotAt(s, x, j).ino != 0;
      LonelyDirHoldsFiles(s, p, i, x, j);
      LostFile(s, t, x, j, SlotAt(s, x, j).ino);
    }
  }

  lemma LostFile(s: State, t: State, x: nat, j: nat, y: nat)
    requires Counted(s) && Refers(s, x, j, y) && y != 0 && y in s.nodes && !Live(t, x)
    requires y in t.nodes && t.nodes[y].nlink == s.nodes[y].nlink
    requires forall e: nat, k: nat {:trigger Refers(t, e, k, y)} :: Refers(t, e, k, y) ==> Refers(s, e, k, y)
    ensures !Counted(t)
  {
    assert (x, j) in Refs(s, y);
    assert (x, j) !in Refs(t, y);
    assert Refs(t, y) <= Refs(s, y) - {(x, j)};
    SubsetSize(Refs(t, y), Refs(s, y) - {(x, j)});
  }

  lemma LonelyDirHoldsFiles(s: State, p: nat, i: nat, x: nat, j: nat)
    requires Core(s) && Entry(s, p, i, x) && x in s.nodes && s.nodes[x].dir && s.nodes[x].nlink <= 2
    requires 2 <= j && SlotAt(s, x, j).ino != 0
    ensures SlotAt(s, x, j).ino in s.nodes && !s.nodes[SlotAt(s, x, j).ino].dir
  {
    var y := SlotAt(s, x, j).ino;
    EntryOfDir(s, p, i, x);
    if s.nodes[y].dir {
      assert Entry(s, x, j, y);
      EntryOfDir(s, x, j, y);
      ThreeLinks(s, p, i, x, y);
    }
  }

  // "." , the entry, and the ".." of a subdirectory.
  lemma ThreeLinks(s: State, p: nat, i: nat, x: nat, y: nat)
    requires Core(s) && Entry(s, p, i, x) && x in s.nodes && s.nodes[x].dir
    requires Refers(s, y, 1, x) && y != ROOT && y != x
    ensures s.nodes[x].nlink >= 3
  {
    EntryOfDir(s, p, i, x);
    DotsTaken(s, x);
    RefsHas(s, x, 0, x);
    RefsHas(s, p, i, x);
    RefsHas(s, y, 1, x);
    SubsetSize({(x, 0), (p, i), (y, 1)}, Refs(s, x));
    assert (p, i) != (y, 1) && (x, 0) != (p, i);
  }

  lemma DirLinks(s: State, p: nat, i: nat, x: nat)
    requires Core(s) && Entry(s, p, i, x) && x in s.nodes && s.nodes[x].dir
    ensures s.nodes[x].nlink >= 2
  {
    EntryOfDir(s, p, i, x);
    DotsTaken(s, x);
    RefsHas(s, x, 0, x);
    RefsHas(s, p, i, x);
    SubsetSize({(x, 0), (p, i)}, Refs(s, x));
    assert (x, 0) != (p, i);
  }

  lemma RmdirState(s: State, at: Dentry, unseen: set<nat>, f: Fault)
    requires at.dir in s.nodes && at.ino in s.nodes && at.ino != 0 && |at.name| <= NAME_LEN
    requires Finds(s, at, f.bad) && LooksEmpty(s.nodes[at.ino].slots, at.ino, unseen)
    ensures var i := FindFrom(s.nodes[at.dir].slots, at.name, f.bad, 0);
            SlotAt(s, at.dir, i).ino == at.ino ==>
            Rmdir(s, at, unseen, f).state ==
              if f.torn then Write(s, at.dir, i, SlotAt(s, at.dir, i).(ino := 0)) else DetachDir(s, at.dir, i)
  {
  }

  lemma RmdirSafe(s: State, at: Dentry, unseen: set<nat>, f: Fault)
    requires Inv(s) && Legal(s, OpRmdir(at, unseen, f))
    ensures Inv(Rmdir(s, at, unseen, f).state) <==> !Torn(s, OpRmdir(at, unseen, f))
  {
    FoundEntry(s, at, f.bad);
    if LooksEmpty(s.nodes[at.ino].slots, at.ino, unseen) && Finds(s, at, f.bad) {
      var i := FindFrom(s.nodes[at.dir].slots, at.name, f.bad, 0);
      RmdirState(s, at, unseen, f);
      ClearedBreaks(s, at.dir, i, at.ino);
      DetachDirSafe(s, at.dir, i, at.ino);
    }
  }

  lemma DetachDirSafe(s: State, p: nat, i: nat, x: nat)
    requires Inv(s) && Entry(s, p, i, x) && x in s.nodes && s.nodes[x].dir
    ensures Inv(DetachDir(s, p, i)) <==> TrulyEmpty(s, x)
  {
    EntryOfDir(s, p, i, x);
    TrulyEmptyExact(s, x);
    if TrulyEmpty(s, x) {
      DetachDirKeeps(s, p, i, x);
      PrunedBounded(s, DetachDir(s, p, i), p, i, x);
    } else {
      DetachDirLoses(s, p, i, x);
    }
  }

  lemma PrunedBounded(s: State, t: State, p: nat, i: nat, x: nat)
    requires Bounded(s) && Pruned(s, t, p, i, x)
    ensures Bounded(t)
  {
  }

  lemma DetachDirLoses(s: State, p: nat, i: nat, x: nat)
    requires Core(s) && Entry(s, p, i, x) && x in s.nodes && s.nodes[x].dir && !EmptyDir(s, x)
    ensures !Core(DetachDir(s, p, i))
  {
    var t := DetachDir(s, p, i);
    EntryOfDir(s, p, i, x);
    DirLinks(s, p, i, x);
    ParentLinks(s, p, x);
    DetachDirRefs(s, p, i, x);
    forall k: nat
      ensures !Entry(t, p, k, x)
    {
      if Entry(s, p, k, x) {
        assert k == i;
      }
    }
    LostDir(s, t, p, i, x);
  }

  lemma DetachDirRefs(s: State, p: nat, i: nat, x: nat)
    requires Live(s, p) && Live(s, x) && p != x && SlotAt(s, p, i).ino == x && x != 0
    requires s.nodes[x].nlink >= 2 && s.nodes[p].nlink >= 2
    ensures var t := DetachDir(s, p, i);
            && SameKinds(s, t) && t.nodes[x].slots == s.nodes[x].slots
            && t.nodes[x].nlink == s.nodes[x].nlink - 2
            && (forall z :: z in s.nodes && !s.nodes[z].dir ==> t.nodes[z].nlink == s.nodes[z].nlink)
            && (forall e :: Live(t, e) ==> Live(s, e))
            && (forall e: nat, k: nat :: SlotAt(t, e, k).ino == if (e, k) == (p, i) then 0 else SlotAt(s, e, k).ino)
  {
  }

  // ---- rename ----

  // Moving a file to a free slot is linking it there and unlinking it here.
  function MoveFile(s: State, od: nat, oi: nat, nd: nat, ni: nat, raw: RawName, x: nat): State
    requires od in s.nodes && nd in s.nodes && x in s.nodes && x != 0 && ni <= |s.nodes[nd].slots|
    requires SlotAt(s, od, oi).ino == x && (od, oi) != (nd, ni)
  {
    Detach(Attach(s, nd, ni, raw, x), od, oi)
  }

  lemma MoveFileSafe(s: State, od: nat, oi: nat, nd: nat, ni: nat, raw: RawName, x: nat)
    requires Inv(s) && Entry(s, od, oi, x) && x in s.nodes && !s.nodes[x].dir && Room(s, nd, ni, raw)
    ensures (od, oi) != (nd, ni)
    ensures Inv(MoveFile(s, od, oi, nd, ni, raw, x))
  {
    var a := Attach(s, nd, ni, raw, x);
    AttachAt(s, nd, ni, raw, x);
    AttachKeeps(s, nd, ni, raw, x);
    assert Entry(a, od, oi, x);
    ReferredIsLinked(a, od, oi, x);
    DetachKeeps(a, od, oi, x);
    DetachAt(a, od, oi, x);
    RelinkedTwice(s, a, Detach(a, od, oi), x);
  }

  lemma RelinkedTwice(s: State, a: State, t: State, x: nat)
    requires Bounded(s) && SameKinds(s, a) && Relinked(s, a, x, 1) && SameKinds(a, t) && Relinked(a, t, x, -1)
    ensures Bounded(t)
  {
  }

  lemma MoveDirSafe(s: State, od: nat, oi: nat, nd: nat, ni: nat, raw: RawName, x: nat)
    requires Inv(s) && Entry(s, od, oi, x) && x in s.nodes && s.nodes[x].dir && Room(s, nd, ni, raw)
    requires !Above(s, x, nd) && (nd != od ==> s.nodes[nd].nlink < LINK_MAX)
    ensures |s.nodes[x].slots| >= 2
    ensures Inv(MoveDir(s, od, oi, nd, ni, raw))
  {
    IsMovable(s, od, oi, nd, ni, raw, x);
    MoveDirKeeps(s, od, oi, nd, ni, raw, x);
    MovedBounded(s, MoveDir(s, od, oi, nd, ni, raw), od, oi, nd, ni, x);
  }

  lemma MovedBounded(s: State, t: State, od: nat, oi: nat, nd: nat, ni: nat, x: nat)
    requires Bounded(s) && Moved(s, t, od, oi, nd, ni, x)
    requires nd in s.nodes && (nd != od ==> s.nodes[nd].nlink < LINK_MAX)
    ensures Bounded(t)
  {
  }

  // --- onto a free name ---

  lemma RenameFileState(s: State, from: Dentry, i: nat, to: Dentry, j: nat, x: nat)
    requires from.dir in s.nodes && to.dir in s.nodes && from.ino == x && x in s.nodes && x != 0
    requires !s.nodes[x].dir && s.nodes[from.dir].dir && s.nodes[to.dir].dir && |to.name| <= NAME_LEN
    requires j <= |s.nodes[to.dir].slots| && SlotAt(s, from.dir, i).ino == x && SlotAt(s, to.dir, j).ino == 0
    ensures FinishRename(Write(s, to.dir, j, Slot(x, Padded(to.name))), from, i, to) ==
            MoveFile(s, from.dir, i, to.dir, j, Padded(to.name), x)
  {
    var t := FinishRename(Write(s, to.dir, j, Slot(x, Padded(to.name))), from, i, to);
    var u := MoveFile(s, from.dir, i, to.dir, j, Padded(to.name), x);
    assert t.nodes == u.nodes;
  }

  lemma RenameDirState(s: State, from: Dentry, i: nat, to: Dentry, j: nat, x: nat)
    requires Movable(s, from.dir, i, to.dir, j, x) && from.ino == x && |to.name| <= NAME_LEN
    ensures FinishRename(Inc(Write(s, to.dir, j, Slot(x, Padded(to.name))), to.dir), from, i, to) ==
            MoveDir(s, from.dir, i, to.dir, j, Padded(to.name))
  {
  }

  // Once both slots are known.
  lemma RenameToSlot(s: State, from: Dentry, i: nat, to: Dentry, j: nat)
    requires Inv(s) && Entry(s, from.dir, i, from.ino) && from.ino in s.nodes && |to.name| <= NAME_LEN
    requires Room(s, to.dir, j, Padded(to.name))
    requires s.nodes[from.ino].dir ==> !Above(s, from.ino, to.dir)
    requires s.nodes[from.ino].dir && to.dir != from.dir ==> s.nodes[to.dir].nlink < LINK_MAX
    ensures var s1 := Write(s, to.dir, j, Slot(from.ino, Padded(to.name)));
            && !Inv(s1)
            && from.dir in s1.nodes && i < |s1.nodes[from.dir].slots|
            && Inv(FinishRename(if s.nodes[from.ino].dir then Inc(s1, to.dir) else s1, from, i, to))
  {
    var x := from.ino;
    var raw := Padded(to.name);
    WrittenBreaks(s, to.dir, j, raw, x);
    if s.nodes[x].dir {
      MoveDirSafe(s, from.dir, i, to.dir, j, raw, x);
      IsMovable(s, from.dir, i, to.dir, j, raw, x);
      RenameDirState(s, from, i, to, j, x);
    } else {
      MoveFileSafe(s, from.dir, i, to.dir, j, raw, x);
      RenameFileState(s, from, i, to, j, x);
    }
  }

  lemma RenameFreeState(s: State, from: Dentry, to: Dentry, flags: nat, f: RenameFaults)
    requires from.dir in s.nodes && from.ino in s.nodes && to.dir in s.nodes && to.ino == 0
    requires |from.name| <= NAME_LEN && |to.name| <= NAME_LEN
    ensures var t := Rename(s, from, to, flags, f).state;
            var i := FindFrom(s.nodes[from.dir].slots, from.name, f.oldBad, 0);
            var spot := SpotFrom(s.nodes[to.dir].slots, to.name, f.add.bad, 0);
            if !(Proceeds(s, from, flags, f) && spot.At?) then t == s
            else
              var s1 := Write(s, to.dir, spot.index, Slot(from.ino, Padded(to.name)));
              t == if f.add.torn then s1
                   else FinishRename(if s.nodes[from.ino].dir then Inc(s1, to.dir) else s1, from, i, to)
  {
  }

  lemma RenameToFree(s: State, from: Dentry, to: Dentry, flags: nat, f: RenameFaults)
    requires Inv(s) && Legal(s, OpRename(from, to, flags, f)) && to.ino == 0
    ensures Inv(Rename(s, from, to, flags, f).state) <==> !RenameTorn(s, from, to, flags, f)
  {
    FoundEntry(s, from, f.oldBad);
    RenameFreeState(s, from, to, flags, f);
    var i := FindFrom(s.nodes[from.dir].slots, from.name, f.oldBad, 0);
    var spot := SpotFrom(s.nodes[to.dir].slots, to.name, f.add.bad, 0);
    if Proceeds(s, from, flags, f) && spot.At? {
      if Hidden(s, to) {
        RenameHidden(s, from, i, to, f.add);
      } else {
        SpotIsRoom(s, to, f.add.bad);
        RenameToSlot(s, from, i, to, spot.index);
      }
    }
  }

  // The new name is there already, behind the slot it is written to, and the old name's slot is
  // neither of the two.
  lemma RenameHidden(s: State, from: Dentry, i: nat, to: Dentry, add: Fault)
    requires Inv(s) && Entry(s, from.dir, i, from.ino) && from.ino in s.nodes
    requires ValidName(from.name) && SlotAt(s, from.dir, i).name == Padded(from.name)
    requires Negative(s, to) && Hidden(s, to) && (from.dir, from.name) != (to.dir, to.name)
    requires s.nodes[from.ino].dir ==> !Above(s, from.ino, to.dir)
    requires SpotFrom(s.nodes[to.dir].slots, to.name, add.bad, 0).At?
    ensures var j := SpotFrom(s.nodes[to.dir].slots, to.name, add.bad, 0).index;
            && !Inv(Write(s, to.dir, j, Slot(from.ino, Padded(to.name))))
            && i < |BeforeFinish(s, from, to, j).nodes[from.dir].slots|
            && !Inv(FinishRename(BeforeFinish(s, from, to, j), from, i, to))
  {
    var j := SpotFrom(s.nodes[to.dir].slots, to.name, add.bad, 0).index;
    var k := HiddenBehind(s, to, add.bad);
    var raw := Padded(to.name);
    TwiceBreaks(Write(s, to.dir, j, Slot(from.ino, raw)), to.dir, raw, j, k);
    OldNameApart(s, from, i, to, j, k);
    LocatedFree(s, from, i, to, j);
    CodeRenames(s, from, i, to, j);
    StillTwice(s, FinishRename(BeforeFinish(s, from, to, j), from, i, to), from, i, to, j, k);
  }

  lemma OldNameApart(s: State, from: Dentry, i: nat, to: Dentry, j: nat, k: nat)
    requires ValidName(from.name) && ValidName(to.name) && (from.dir, from.name) != (to.dir, to.name)
    requires SlotAt(s, from.dir, i).name == Padded(from.name) && SlotAt(s, from.dir, i).ino != 0 && to.dir in s.nodes
    requires SlotAt(s, to.dir, j).ino == 0 && Holds(s.nodes[to.dir].slots, Padded(to.name), k)
    ensures from.dir == to.dir ==> i != j && i != k
  {
    if Padded(from.name) == Padded(to.name) {
      PaddedInjective(from.name, to.name);
    }
  }

  lemma StillTwice(s: State, t: State, from: Dentry, i: nat, to: Dentry, j: nat, k: nat)
    requires Located(s, from, i, to, j) && Renamed(s, t, from, i, to, j) && Live(s, to.dir) && to.ino == 0
    requires j < k && Holds(s.nodes[to.dir].slots, Padded(to.name), k) && (from.dir == to.dir ==> i != j && i != k)
    ensures !Inv(t)
  {
    assert t.nodes[to.dir].slots == SlotsAfter(s, from, i, to, j, to.dir);
    assert t.nodes[to.dir].nlink == LinksAfterRename(s, from, to, to.dir);
    TwiceBreaks(t, to.dir, Padded(to.name), j, k);
  }

  lemma LocatedFree(s: State, from: Dentry, i: nat, to: Dentry, j: nat)
    requires Inv(s) && Entry(s, from.dir, i, from.ino) && from.ino in s.nodes
    requires s.nodes[from.ino].dir ==> !Above(s, from.ino, to.dir)
    requires |to.name| <= NAME_LEN && Live(s, to.dir) && to.ino == 0 && j <= |s.nodes[to.dir].slots| && SlotAt(s, to.dir, j).ino == 0
    ensures Located(s, from, i, to, j)
  {
    if s.nodes[from.ino].dir {
      EntryOfDir(s, from.dir, i, from.ino);
      DotsTaken(s, from.ino);
      assert Up(s, to.dir, 0) == to.dir;
    }
  }

  // A slot written without adding a link.
  lemma WrittenBreaks(s: State, d: nat, i: nat, raw: RawName, x: nat)
    requires Inv(s) && Room(s, d, i, raw) && x in s.nodes
    ensures !Inv(Write(s, d, i, Slot(x, raw)))
  {
    WriteAt(s, d, i, Slot(x, raw));
    SurplusRef(s, Write(s, d, i, Slot(x, raw)), d, i, x);
  }

  // --- onto an existing name ---

  lemma RenameOverFileState(s: State, from: Dentry, i: nat, to: Dentry, j: nat, x: nat, y: nat)
    requires from.dir in s.nodes && to.dir in s.nodes && from.ino == x && x in s.nodes && x != 0
    requires !s.nodes[x].dir && s.nodes[from.dir].dir && s.nodes[to.dir].dir
    requires SlotAt(s, from.dir, i).ino == x && SlotAt(s, to.dir, j).ino == y
    requires y in s.nodes && y != 0 && y != x && !s.nodes[y].dir && s.nodes[y].nlink > 0
    ensures FinishRename(Dec(Write(s, to.dir, j, SlotAt(s, to.dir, j).(ino := x)), y), from, i, to) ==
            MoveFile(Detach(s, to.dir, j), from.dir, i, to.dir, j, SlotAt(s, to.dir, j).name, x)
  {
    var t := FinishRename(Dec(Write(s, to.dir, j, SlotAt(s, to.dir, j).(ino := x)), y), from, i, to);
    var u := MoveFile(Detach(s, to.dir, j), from.dir, i, to.dir, j, SlotAt(s, to.dir, j).name, x);
    assert t.nodes.Keys == u.nodes.Keys;
    forall z | z in t.nodes
      ensures t.nodes[z] == u.nodes[z]
    {
    }
    assert t.nodes == u.nodes;
  }

  // The slot of a removed entry has room for its own name again.
  lemma RoomAfterClear(s: State, t: State, d: nat, j: nat, raw: RawName)
    requires Core(s) && Core(t) && Live(t, d) && (d == ROOT || 2 <= j)
    requires Live(s, d) && SlotAt(s, d, j).ino != 0 && SlotAt(s, d, j).name == raw
    requires t.nodes[d].slots == s.nodes[d].slots[j := s.nodes[d].slots[j].(ino := 0)]
    ensures Room(t, d, j, raw)
  {
    var slots := s.nodes[d].slots;
    assert GoodDir(s, d);
    assert slots[j].ino != 0;
    if d != ROOT {
      DotsTaken(s, d);
      assert slots[j].name != slots[0].name && slots[j].name != slots[1].name;
    }
  }

  lemma RenameOverFileSafe(s: State, from: Dentry, i: nat, to: Dentry, j: nat, x: nat, y: nat)
    requires Inv(s) && Entry(s, from.dir, i, x) && Entry(s, to.dir, j, y) && from.ino == x && x != y
    requires x in s.nodes && y in s.nodes && !s.nodes[x].dir && !s.nodes[y].dir
    ensures Inv(FinishRename(Dec(Write(s, to.dir, j, SlotAt(s, to.dir, j).(ino := x)), y), from, i, to))
  {
    var d := Detach(s, to.dir, j);
    var raw := SlotAt(s, to.dir, j).name;
    ReferredIsLinked(s, to.dir, j, y);
    RenameOverFileState(s, from, i, to, j, x, y);
    DetachSafe(s, to.dir, j, y);
    DetachAt(s, to.dir, j, y);
    RoomAfterClear(s, d, to.dir, j, raw);
    assert Entry(d, from.dir, i, x);
    MoveFileSafe(d, from.dir, i, to.dir, j, raw, x);
  }

  // One directory is moved over another one.
  ghost predicate OverDir(s: State, from: Dentry, i: nat, to: Dentry, j: nat) {
    && Located(s, from, i, to, j) && to.ino != 0 && s.nodes[to.ino].dir
    && Live(s, from.dir) && Live(s, to.dir) && Live(s, from.ino) && Live(s, to.ino)
    && s.nodes[to.dir].nlink >= 2 && s.nodes[from.dir].nlink >= 2
  }

  // The state between the two: only nd and y have changed.
  ghost predicate Removed(s: State, d: State, nd: nat, nj: nat, y: nat)
    requires Live(s, nd) && nj < |s.nodes[nd].slots| && y in s.nodes && y != nd && s.nodes[y].nlink >= 2
  {
    && d.next == s.next && d.nodes.Keys == s.nodes.Keys
    && d.nodes[nd] == Node(s.nodes[nd].dir, s.nodes[nd].nlink - 1, s.nodes[nd].slots[nj := s.nodes[nd].slots[nj].(ino := 0)])
    && d.nodes[y] == Node(s.nodes[y].dir, s.nodes[y].nlink - 2, s.nodes[y].slots)
    && (forall z :: z in s.nodes && z != nd && z != y ==> d.nodes[z] == s.nodes[z])
  }

  lemma DetachDirRemoves(s: State, nd: nat, nj: nat, y: nat)
    requires Live(s, nd) && SlotAt(s, nd, nj).ino == y && y != 0 && y in s.nodes && y != nd
    requires s.nodes[nd].nlink >= 1 && s.nodes[y].nlink >= 2
    ensures nj < |s.nodes[nd].slots| && Removed(s, DetachDir(s, nd, nj), nd, nj, y)
  {
  }

  // MoveDir onto an existing slot, inode by inode.
  lemma MoveDirPoint(d: State, od: nat, oi: nat, nd: nat, nj: nat, raw: RawName, x: nat)
    requires od in d.nodes && nd in d.nodes && x in d.nodes && x != od && x != nd && x != 0
    requires SlotAt(d, od, oi).ino == x && (od, oi) != (nd, nj) && nj < |d.nodes[nd].slots|
    requires |d.nodes[x].slots| >= 2 && d.nodes[od].nlink >= 1
    ensures var t := MoveDir(d, od, oi, nd, nj, raw);
            && t.next == d.next && t.nodes.Keys == d.nodes.Keys
            && (forall z :: z in d.nodes ==>
                  && t.nodes[z].dir == d.nodes[z].dir
                  && t.nodes[z].nlink == d.nodes[z].nlink + (if z == nd then 1 else 0) - (if z == od then 1 else 0))
            && (forall z :: z in d.nodes && z != nd && z != od && z != x ==> t.nodes[z].slots == d.nodes[z].slots)
            && t.nodes[x].slots == d.nodes[x].slots[1 := d.nodes[x].slots[1].(ino := nd)]
            && (od != nd ==> t.nodes[od].slots == d.nodes[od].slots[oi := d.nodes[od].slots[oi].(ino := 0)])
            && (od != nd ==> t.nodes[nd].slots == d.nodes[nd].slots[nj := Slot(x, raw)])
            && (od == nd ==> t.nodes[nd].slots == d.nodes[nd].slots[nj := Slot(x, raw)][oi := d.nodes[nd].slots[oi].(ino := 0)])
  {
  }

  lemma MoveAfterRemove(s: State, d: State, from: Dentry, i: nat, to: Dentry, j: nat)
    requires OverDir(s, from, i, to, j) && Removed(s, d, to.dir, j, to.ino)
    ensures SlotAt(d, from.dir, i).ino == from.ino
    ensures Renamed(s, MoveDir(d, from.dir, i, to.dir, j, SlotAt(s, to.dir, j).name), from, i, to, j)
  {
    MoveDirPoint(d, from.dir, i, to.dir, j, SlotAt(s, to.dir, j).name, from.ino);
    forall z | z in s.nodes
      ensures MoveDir(d, from.dir, i, to.dir, j, SlotAt(s, to.dir, j).name).nodes[z].slots == SlotsAfter(s, from, i, to, j, z)
      ensures MoveDir(d, from.dir, i, to.dir, j, SlotAt(s, to.dir, j).name).nodes[z].nlink == LinksAfterRename(s, from, to, z)
    {
      SlotsAfterRemove(s, d, from, i, to, j, z);
      LinksAfterRemove(s, d, from, i, to, j, z);
    }
  }

  lemma LinksAfterRemove(s: State, d: State, from: Dentry, i: nat, to: Dentry, j: nat, z: nat)
    requires OverDir(s, from, i, to, j) && Removed(s, d, to.dir, j, to.ino) && z in s.nodes
    ensures SlotAt(d, from.dir, i).ino == from.ino
    ensures MoveDir(d, from.dir, i, to.dir, j, SlotAt(s, to.dir, j).name).nodes[z].nlink == LinksAfterRename(s, from, to, z)
  {
    MoveDirPoint(d, from.dir, i, to.dir, j, SlotAt(s, to.dir, j).name, from.ino);
  }

  lemma SlotsAfterRemove(s: State, d: State, from: Dentry, i: nat, to: Dentry, j: nat, z: nat)
    requires OverDir(s, from, i, to, j) && Removed(s, d, to.dir, j, to.ino) && z in s.nodes
    ensures SlotAt(d, from.dir, i).ino == from.ino
    ensures MoveDir(d, from.dir, i, to.dir, j, SlotAt(s, to.dir, j).name).nodes[z].slots == SlotsAfter(s, from, i, to, j, z)
  {
    var raw := SlotAt(s, to.dir, j).name;
    MoveDirPoint(d, from.dir, i, to.dir, j, raw, from.ino);
    if z == to.dir {
      assert d.nodes[z].slots[j := Slot(from.ino, raw)] == SlotsWithNew(s, from, to, j, z);
    }
  }

  // The order of the updates in the code and the order remove, then move, end in the same state.
  lemma RenameOverDirState(s: State, from: Dentry, i: nat, to: Dentry, j: nat)
    requires OverDir(s, from, i, to, j)
    ensures i < |BeforeFinish(s, from, to, j).nodes[from.dir].slots|
    ensures var t := FinishRename(BeforeFinish(s, from, to, j), from, i, to);
            && Renamed(s, t, from, i, to, j)
            && t == MoveDir(DetachDir(s, to.dir, j), from.dir, i, to.dir, j, SlotAt(s, to.dir, j).name)
  {
    var d := DetachDir(s, to.dir, j);
    DetachDirRemoves(s, to.dir, j, to.ino);
    CodeRenames(s, from, i, to, j);
    MoveAfterRemove(s, d, from, i, to, j);
    RenamedUnique(s, FinishRename(BeforeFinish(s, from, to, j), from, i, to),
                  MoveDir(d, from.dir, i, to.dir, j, SlotAt(s, to.dir, j).name), from, i, to, j);
  }

  lemma {:induction false} SameParentsUp(s: State, t: State, x: nat, n: nat)
    requires forall z {:trigger Parent(t, z)} :: Parent(t, z) == Parent(s, z)
    ensures Up(t, x, n) == Up(s, x, n)
    decreases n
  {
    if n > 0 {
      assert Parent(t, x) == Parent(s, x);
      SameParentsUp(s, t, Parent(s, x), n - 1);
    }
  }

  lemma IsOverDir(s: State, from: Dentry, i: nat, to: Dentry, j: nat)
    requires Core(s) && Entry(s, from.dir, i, from.ino) && Entry(s, to.dir, j, to.ino) && from.ino != to.ino && |to.name| <= NAME_LEN
    requires from.ino in s.nodes && to.ino in s.nodes && s.nodes[from.ino].dir && s.nodes[to.ino].dir
    requires !Above(s, from.ino, to.dir) && !Above(s, to.ino, from.dir)
    ensures OverDir(s, from, i, to, j)
  {
    EntryOfDir(s, from.dir, i, from.ino);
    EntryOfDir(s, to.dir, j, to.ino);
    assert Up(s, to.dir, 0) == to.dir && Up(s, from.dir, 0) == from.dir;
    DotsTaken(s, from.ino);
    DirLinks(s, to.dir, j, to.ino);
    ParentLinks(s, from.dir, from.ino);
    ParentLinks(s, to.dir, to.ino);
  }

  lemma RenameOverEmptyDir(s: State, from: Dentry, i: nat, to: Dentry, j: nat)
    requires Inv(s) && Entry(s, from.dir, i, from.ino) && Entry(s, to.dir, j, to.ino) && OverDir(s, from, i, to, j)
    requires !Above(s, from.ino, to.dir) && TrulyEmpty(s, to.ino)
    ensures var d := DetachDir(s, to.dir, j);
            && SlotAt(d, from.dir, i).ino == from.ino
            && j <= |d.nodes[to.dir].slots| && |d.nodes[from.ino].slots| >= 2
            && Inv(MoveDir(d, from.dir, i, to.dir, j, SlotAt(s, to.dir, j).name))
  {
    var y, nd := to.ino, to.dir;
    var d := DetachDir(s, nd, j);
    var raw := SlotAt(s, nd, j).name;
    EntryOfDir(s, nd, j, y);
    TrulyEmptyExact(s, y);
    DetachDirSafe(s, nd, j, y);
    DetachDirKeeps(s, nd, j, y);
    IsVictim(s, nd, j, y);
    DetachDirAt(s, nd, j, y);
    RoomAfterClear(s, d, nd, j, raw);
    StillNotAbove(s, d, nd, j, y, from.ino);
    assert Entry(d, from.dir, i, from.ino);
    MoveDirSafe(d, from.dir, i, nd, j, raw, from.ino);
  }

  lemma StillNotAbove(s: State, d: State, nd: nat, nj: nat, y: nat, x: nat)
    requires Victim(s, nd, nj, y) && Pruned(s, d, nd, nj, y) && !Above(s, x, nd)
    ensures !Above(d, x, nd)
  {
    forall z
      ensures Parent(d, z) == Parent(s, z)
    {
      PrunedEntry(s, d, nd, nj, y, 0, 0, z);
    }
    forall n: nat
      ensures Up(d, nd, n) != x
    {
      SameParentsUp(s, d, nd, n);
      assert Up(s, nd, n) != x;
    }
  }

  lemma RenamedOverRefs(s: State, t: State, from: Dentry, i: nat, to: Dentry, j: nat)
    requires OverDir(s, from, i, to, j) && Renamed(s, t, from, i, to, j)
    ensures forall e :: Live(t, e) ==> Live(s, e)
    ensures forall e: nat, k: nat :: SlotAt(t, e, k).ino ==
              if (e, k) == (from.ino, 1) then to.dir
              else if (e, k) == (from.dir, i) then 0
              else if (e, k) == (to.dir, j) then from.ino else SlotAt(s, e, k).ino
  {
  }

  lemma RenamedOverFiles(s: State, t: State, from: Dentry, i: nat, to: Dentry, j: nat)
    requires OverDir(s, from, i, to, j) && Renamed(s, t, from, i, to, j) && 0 !in s.nodes
    ensures SameKinds(s, t) && t.nodes[to.ino].slots == s.nodes[to.ino].slots && t.nodes[to.ino].nlink == s.nodes[to.ino].nlink - 2
    ensures forall z :: z in s.nodes && !s.nodes[z].dir ==> t.nodes[z].nlink == s.nodes[z].nlink
    ensures forall z, e: nat, k: nat {:trigger Refers(t, e, k, z)} ::
              z in s.nodes && !s.nodes[z].dir && Refers(t, e, k, z) ==> Refers(s, e, k, z)
  {
    RenamedOverRefs(s, t, from, i, to, j);
  }

  lemma RenamedOverUnlists(s: State, t: State, from: Dentry, i: nat, to: Dentry, j: nat)
    requires OverDir(s, from, i, to, j) && Renamed(s, t, from, i, to, j)
    requires Once(s) && Entry(s, to.dir, j, to.ino)
    ensures forall k: nat :: !Entry(t, to.dir, k, to.ino)
  {
    RenamedOverRefs(s, t, from, i, to, j);
    forall k: nat
      ensures !Entry(t, to.dir, k, to.ino)
    {
      if Entry(s, to.dir, k, to.ino) {
        assert k == j;
      }
    }
  }

  lemma RenameOverFullDir(s: State, t: State, from: Dentry, i: nat, to: Dentry, j: nat)
    requires Core(s) && Entry(s, from.dir, i, from.ino) && Entry(s, to.dir, j, to.ino) && OverDir(s, from, i, to, j)
    requires Renamed(s, t, from, i, to, j) && !EmptyDir(s, to.ino)
    ensures !Core(t)
  {
    RenamedOverFiles(s, t, from, i, to, j);
    RenamedOverUnlists(s, t, from, i, to, j);
    LostDir(s, t, to.dir, j, to.ino);
  }

  lemma RenameOverDirSafe(s: State, from: Dentry, i: nat, to: Dentry, j: nat)
    requires Inv(s) && Entry(s, from.dir, i, from.ino) && Entry(s, to.dir, j, to.ino) && from.ino != to.ino && |to.name| <= NAME_LEN
    requires from.ino in s.nodes && to.ino in s.nodes && s.nodes[from.ino].dir && s.nodes[to.ino].dir
    requires !Above(s, from.ino, to.dir) && !Above(s, to.ino, from.dir)
    ensures i < |BeforeFinish(s, from, to, j).nodes[from.dir].slots|
    ensures Inv(FinishRename(BeforeFinish(s, from, to, j), from, i, to)) <==> TrulyEmpty(s, to.ino)
  {
    IsOverDir(s, from, i, to, j);
    RenameOverDirState(s, from, i, to, j);
    if TrulyEmpty(s, to.ino) {
      RenameOverEmptyDir(s, from, i, to, j);
    } else {
      EntryOfDir(s, to.dir, j, to.ino);
      TrulyEmptyExact(s, to.ino);
      RenameOverFullDir(s, FinishRename(BeforeFinish(s, from, to, j), from, i, to), from, i, to, j);
    }
  }

  lemma RenameTakenState(s: State, from: Dentry, to: Dentry, flags: nat, f: RenameFaults)
    requires from.dir in s.nodes && from.ino in s.nodes && to.dir in s.nodes && to.ino != 0 && to.ino in s.nodes
    requires |from.name| <= NAME_LEN && |to.name| <= NAME_LEN
    ensures var t := Rename(s, from, to, flags, f).state;
            var i := FindFrom(s.nodes[from.dir].slots, from.name, f.oldBad, 0);
            var j := FindFrom(s.nodes[to.dir].slots, to.name, f.newBad, 0);
            var dir := s.nodes[from.ino].dir;
            if !(Proceeds(s, from, flags, f) && (dir ==> LooksEmpty(s.nodes[to.ino].slots, to.ino, f.unseen)) && Finds(s, to, f.newBad))
            then t == s
            else
              var s1 := Write(s, to.dir, j, SlotAt(s, to.dir, j).(ino := from.ino));
              t == FinishRename(Dec(if dir then Dec(s1, to.ino) else s1, to.ino), from, i, to)
  {
  }

  lemma RenameOverTaken(s: State, from: Dentry, to: Dentry, flags: nat, f: RenameFaults)
    requires Inv(s) && Legal(s, OpRename(from, to, flags, f)) && to.ino != 0
    ensures Inv(Rename(s, from, to, flags, f).state) <==> !RenameTorn(s, from, to, flags, f)
  {
    FoundEntry(s, from, f.oldBad);
    FoundEntry(s, to, f.newBad);
    RenameTakenState(s, from, to, flags, f);
    var i := FindFrom(s.nodes[from.dir].slots, from.name, f.oldBad, 0);
    var j := FindFrom(s.nodes[to.dir].slots, to.name, f.newBad, 0);
    if Finds(s, from, f.oldBad) && Finds(s, to, f.newBad) {
      if s.nodes[from.ino].dir {
        RenameOverDirSafe(s, from, i, to, j);
      } else {
        RenameOverFileSafe(s, from, i, to, j, from.ino, to.ino);
      }
    }
  }

  // ---- The main theorems ----

  lemma InitInv()
    ensures Inv(Init)
  {
    forall x: nat
      ensures Refs(Init, x) == {}
    {
    }
    assert Up(Init, ROOT, 0) == ROOT;
    assert forall d: nat :: Live(Init, d) ==> d == ROOT;
  }

  // One operation, whatever the disk does: on success and on every error return the invariant
  // holds again if and only if no fault has torn the operation apart.
  lemma StepSafe(s: State, op: Op)
    requires Inv(s) && Legal(s, op)
    ensures Inv(Step(s, op).state) <==> !Torn(s, op)
  {
    match op
    case OpMknod(at, devOk, alloc, f) => MknodSafe(s, at, f);
    case OpTmpfile(alloc) => TmpfileSafe(s);
    case OpSymlink(at, textLen, alloc, written, f) =>
      TmpfileSafe(s);
      MknodSafe(s, at, f);
    case OpLink(x, at, f) => LinkSafe(s, x, at, f);
    case OpMkdir(at, alloc, page, dotsTorn, f) => MkdirSafe(s, at, alloc, page, dotsTorn, f);
    case OpUnlink(at, f) => UnlinkSafe(s, at, f);
    case OpRmdir(at, unseen, f) => RmdirSafe(s, at, unseen, f);
    case OpRename(from, to, flags, f) =>
      if to.ino == 0 {
        RenameToFree(s, from, to, flags, f);
      } else {
        RenameOverTaken(s, from, to, flags, f);
      }
  }

  // A run of operations, each of them allowed by the VFS in the state it starts in.
  ghost predicate Run(s: State, ops: seq<Op>, t: State)
    decreases |ops|
  {
    if ops == [] then t == s
    else Legal(s, ops[0]) && !Torn(s, ops[0]) && Run(Step(s, ops[0]).state, ops[1..], t)
  }

  // Whole runs from the empty file system.
  lemma {:induction false} RunSafe(s: State, ops: seq<Op>, t: State)
    requires Inv(s) && Run(s, ops, t)
    ensures Inv(t)
    decreases |ops|
  {
    if ops != [] {
      StepSafe(s, ops[0]);
      RunSafe(Step(s, ops[0]).state, ops[1..], t);
    }
  }
}
