/** Inputs for which an operation does break the name space: the three kinds of damage are real. */
module Examples {
  import opened Names
  import opened Paging
  import opened Slots
  import opened Common
  import opened Namespace
  import opened Invariant
  import opened Preservation
  import opened Safety

  const A: Name := ['a' as int]
  const F: Name := ['f' as int]

  const SOUND: Fault := Fault({}, false)

  lemma GoodNames()
    ensures ChildName(A) && ChildName(F)
    ensures Padded(A) != Padded(F) && Padded(A) != Padded(DOT) && Padded(A) != Padded(DOTDOT)
    ensures Padded(F) != Padded(DOT) && Padded(F) != Padded(DOTDOT)
  {
    NotDots(A);
    NotDots(F);
    PaddedRoundTrip(A);
    PaddedRoundTrip(F);
  }

  // Creating a file in a DIRSYNC root directory whose page cannot be written out: the call
  // reports the error, the entry stays, and the inode it names counts no link.
  lemma TornCreate()
    ensures var op := OpMknod(Dentry(ROOT, A, 0), true, true, Fault({}, true));
            && Legal(Init, op)
            && Step(Init, op).err == EIO
            && SlotAt(Step(Init, op).state, ROOT, 0) == Slot(5, Padded(A))
            && Step(Init, op).state.nodes[5].nlink == 0
            && !Inv(Step(Init, op).state)
  {
    InitInv();
    GoodNames();
    var at := Dentry(ROOT, A, 0);
    var f := Fault({}, true);
    var op := OpMknod(at, true, true, f);
    assert Readable({}, 0);
    assert SpotFrom(Init.nodes[ROOT].slots, A, {}, 0) == At(0);
    assert Missed(Init, at, {});
    MknodState(Init, at, f);
    StepSafe(Init, op);
  }

  // After mkdir /a and mknod /a/f.
  const OneFile: State := State(map[
    ROOT := Node(true, 3, [Slot(5, Padded(A))]),
    5 := Node(true, 2, DotSlots(5, ROOT) + [Slot(6, Padded(F))]),
    6 := Node(false, 1, [])], 7)

  const OneDir: State := State(map[
    ROOT := Node(true, 3, [Slot(5, Padded(A))]),
    5 := Node(true, 2, DotSlots(5, ROOT))], 6)

  const MKDIR_A: Op := OpMkdir(Dentry(ROOT, A, 0), true, true, false, SOUND)
  const MKNOD_F: Op := OpMknod(Dentry(5, F, 0), true, true, SOUND)

  lemma MkdirA()
    ensures Legal(Init, MKDIR_A) && !Torn(Init, MKDIR_A) && Step(Init, MKDIR_A).state == OneDir
  {
    GoodNames();
    assert Readable({}, 0);
    assert SpotFrom(Init.nodes[ROOT].slots, A, {}, 0) == At(0);
    assert Missed(Init, Dentry(ROOT, A, 0), {});
    MkdirState(Init, Dentry(ROOT, A, 0), true, true, false, SOUND);
    var s0 := Fresh(Init, true, DotSlots(5, ROOT));
    var t := AttachDir(s0, ROOT, 0, Padded(A), 5);
    assert t.nodes[ROOT] == OneDir.nodes[ROOT];
    assert t.nodes[5] == OneDir.nodes[5];
    assert t.nodes == OneDir.nodes;
  }

  lemma MknodF()
    ensures Legal(OneDir, MKNOD_F) && !Torn(OneDir, MKNOD_F) && Step(OneDir, MKNOD_F).state == OneFile
  {
    GoodNames();
    NotDots(F);
    PaddedRoundTrip(DOT);
    PaddedRoundTrip(DOTDOT);
    var slots := DotSlots(5, ROOT);
    NameCompareExact(F, slots[0].name);
    NameCompareExact(F, slots[1].name);
    assert Readable({}, 0) && Readable({}, 1) && Readable({}, 2);
    assert SpotFrom(slots, F, {}, 2) == At(2);
    assert SpotFrom(slots, F, {}, 1) == At(2);
    assert SpotFrom(slots, F, {}, 0) == At(2);
    assert FindFrom(slots, F, {}, 2) == 2;
    assert FindFrom(slots, F, {}, 1) == 2;
    assert Missed(OneDir, Dentry(5, F, 0), {});
    MknodState(OneDir, Dentry(5, F, 0), SOUND);
    var s0 := Fresh(OneDir, false, []);
    assert Attach(s0, 5, 2, Padded(F), 6).nodes == OneFile.nodes;
  }

  const RMDIR_A: Op := OpRmdir(Dentry(ROOT, A, 5), {0, 1}, SOUND)

  lemma OneFileReached()
    ensures Run(Init, [MKDIR_A, MKNOD_F], OneFile) && Inv(OneFile)
  {
    InitInv();
    MkdirA();
    MknodF();
    var ops := [MKDIR_A, MKNOD_F];
    assert ops[1..] == [MKNOD_F] && [MKNOD_F][1..] == [];
    assert Run(OneFile, [], OneFile);
    assert Run(OneDir, [MKNOD_F], OneFile);
    RunSafe(Init, ops, OneFile);
  }

  lemma RootEntryFound()
    ensures Positive(OneFile, Dentry(ROOT, A, 5))
    ensures FindFrom(OneFile.nodes[ROOT].slots, A, {}, 0) == 0
  {
    GoodNames();
    NotDots(A);
    assert Holds(OneFile.nodes[ROOT].slots, Padded(A), 0);
    NameCompareExact(A, Padded(A));
    assert Readable({}, 0);
  }

  // Three slots lie on the first two pages, whatever the page size.
  lemma NothingSeen()
    ensures LooksEmpty(OneFile.nodes[5].slots, 5, {0, 1})
    ensures !LooksEmpty(OneFile.nodes[5].slots, 5, {})
  {
    NotDots(F);
    PaddedRoundTrip(F);
    DotSlotExact(Slot(6, Padded(F)), 5);
    assert OneFile.nodes[5].slots[2] == Slot(6, Padded(F));
    assert PageOf(2) == if 2 < SLOTS_PER_PAGE then 0 else 1;
    assert Readable({}, 2);
  }

  // rmdir /a while its pages cannot be read: the call succeeds although /a/f is still there, and
  // the file counts a link from a directory that no longer exists.
  lemma UnseenRmdir()
    ensures Run(Init, [MKDIR_A, MKNOD_F], OneFile) && Inv(OneFile)
    ensures Legal(OneFile, RMDIR_A) && Step(OneFile, RMDIR_A).err == OK && !Inv(Step(OneFile, RMDIR_A).state)
  {
    OneFileReached();
    RootEntryFound();
    NothingSeen();
    StepSafe(OneFile, RMDIR_A);
  }

  // ---- A name made twice ----

  // After mknod /a, mknod /f and unlink /a: the first slot of the root is a hole.
  const FirstFile: State := State(map[
    ROOT := Node(true, 2, [Slot(5, Padded(A))]),
    5 := Node(false, 1, [])], 6)

  const TwoFiles: State := State(map[
    ROOT := Node(true, 2, [Slot(5, Padded(A)), Slot(6, Padded(F))]),
    5 := Node(false, 1, []),
    6 := Node(false, 1, [])], 7)

  const Hole: State := State(map[
    ROOT := Node(true, 2, [Slot(0, Padded(A)), Slot(6, Padded(F))]),
    5 := Node(false, 0, []),
    6 := Node(false, 1, [])], 7)

  const MKNOD_A: Op := OpMknod(Dentry(ROOT, A, 0), true, true, SOUND)
  const MKNOD_ROOT_F: Op := OpMknod(Dentry(ROOT, F, 0), true, true, SOUND)
  const UNLINK_A: Op := OpUnlink(Dentry(ROOT, A, 5), SOUND)

  lemma MknodA()
    ensures Legal(Init, MKNOD_A) && !Torn(Init, MKNOD_A) && Step(Init, MKNOD_A).state == FirstFile
  {
    GoodNames();
    assert Readable({}, 0);
    assert SpotFrom(Init.nodes[ROOT].slots, A, {}, 0) == At(0);
    assert Missed(Init, Dentry(ROOT, A, 0), {});
    MknodState(Init, Dentry(ROOT, A, 0), SOUND);
    var t := Attach(Fresh(Init, false, []), ROOT, 0, Padded(A), 5);
    assert t.nodes[ROOT] == FirstFile.nodes[ROOT];
    assert t.nodes[5] == FirstFile.nodes[5];
    assert t.nodes == FirstFile.nodes;
  }

  lemma MknodRootF()
    ensures Legal(FirstFile, MKNOD_ROOT_F) && !Torn(FirstFile, MKNOD_ROOT_F) && Step(FirstFile, MKNOD_ROOT_F).state == TwoFiles
  {
    GoodNames();
    NotDots(A);
    var slots := FirstFile.nodes[ROOT].slots;
    NameCompareExact(F, slots[0].name);
    assert Readable({}, 0) && Readable({}, 1);
    assert SpotFrom(slots, F, {}, 1) == At(1);
    assert SpotFrom(slots, F, {}, 0) == At(1);
    assert FindFrom(slots, F, {}, 1) == 1;
    assert Missed(FirstFile, Dentry(ROOT, F, 0), {});
    MknodState(FirstFile, Dentry(ROOT, F, 0), SOUND);
    var t := Attach(Fresh(FirstFile, false, []), ROOT, 1, Padded(F), 6);
    assert t.nodes[ROOT] == TwoFiles.nodes[ROOT];
    assert t.nodes[5] == TwoFiles.nodes[5];
    assert t.nodes[6] == TwoFiles.nodes[6];
    assert t.nodes == TwoFiles.nodes;
  }

  lemma UnlinkA()
    ensures Legal(TwoFiles, UNLINK_A) && !Torn(TwoFiles, UNLINK_A) && Step(TwoFiles, UNLINK_A).state == Hole
  {
    GoodNames();
    NotDots(A);
    var slots := TwoFiles.nodes[ROOT].slots;
    NameCompareExact(A, slots[0].name);
    assert Readable({}, 0);
    assert Holds(slots, Padded(A), 0) && SlotAt(TwoFiles, ROOT, 0).ino == 5;
    assert FindFrom(slots, A, {}, 0) == 0;
    var t := Step(TwoFiles, UNLINK_A).state;
    assert t.nodes[ROOT] == Hole.nodes[ROOT];
    assert t.nodes[5] == Hole.nodes[5];
    assert t.nodes[6] == Hole.nodes[6];
    assert t.nodes == Hole.nodes;
  }

  lemma HoleReached()
    ensures Run(Init, [MKNOD_A, MKNOD_ROOT_F, UNLINK_A], Hole) && Inv(Hole)
  {
    InitInv();
    MknodA();
    MknodRootF();
    UnlinkA();
    var ops := [MKNOD_A, MKNOD_ROOT_F, UNLINK_A];
    assert ops[1..] == [MKNOD_ROOT_F, UNLINK_A] && ops[1..][1..] == [UNLINK_A] && [UNLINK_A][1..] == [];
    assert Run(Hole, [], Hole);
    assert Run(TwoFiles, [UNLINK_A], Hole);
    assert Run(FirstFile, ops[1..], Hole);
    RunSafe(Init, ops, Hole);
  }

  // A lookup of /f while the root's page cannot be read finds nothing. The create that follows
  // reads the page without trouble, takes the hole, and /f is there twice.
  lemma MadeTwice()
    ensures Run(Init, [MKNOD_A, MKNOD_ROOT_F, UNLINK_A], Hole) && Inv(Hole)
    ensures Missed(Hole, Dentry(ROOT, F, 0), {0})
    ensures Legal(Hole, MKNOD_ROOT_F) && Step(Hole, MKNOD_ROOT_F).err == OK && !Inv(Step(Hole, MKNOD_ROOT_F).state)
    ensures SlotAt(Step(Hole, MKNOD_ROOT_F).state, ROOT, 0) == Slot(7, Padded(F))
    ensures SlotAt(Step(Hole, MKNOD_ROOT_F).state, ROOT, 1) == Slot(6, Padded(F))
  {
    HoleReached();
    GoodNames();
    var slots := Hole.nodes[ROOT].slots;
    assert !Readable({0}, 0) && !Readable({0}, 1) && Readable({}, 0);
    assert FindFrom(slots, F, {0}, 2) == 2;
    assert FindFrom(slots, F, {0}, 1) == 2;
    assert Missed(Hole, Dentry(ROOT, F, 0), {0});
    assert SpotFrom(slots, F, {}, 0) == At(0);
    assert slots[1].ino != 0 && slots[1].name == Padded(F);
    StepSafe(Hole, MKNOD_ROOT_F);
  }
}
