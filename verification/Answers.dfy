/** Which error each operation answers, with its faults and on a sound disk. */
module Answers {
  import opened Names
  import Paging
  import opened Slots
  import opened Common
  import opened Namespace
  import opened Invariant
  import opened Preservation
  import opened Safety
  import opened Effects

  // A page of bad comes before the first hole and before the name.
  ghost predicate Stuck(s: State, at: Dentry, bad: set<nat>)
    requires |at.name| <= NAME_LEN
  {
    exists j: nat :: StuckAt(SlotsOf(s, at.dir), Padded(at.name), bad, 0, j)
  }

  // Every slot with the name lies on a page of bad.
  ghost predicate Overlooked(s: State, at: Dentry, bad: set<nat>)
    requires |at.name| <= NAME_LEN
  {
    forall i: nat :: Holds(SlotsOf(s, at.dir), Padded(at.name), i) ==> !Readable(bad, i)
  }

  // Behind "." and ".." a page outside unseen has an entry.
  ghost predicate ShowsEntry(s: State, x: nat, unseen: set<nat>) {
    exists j: nat :: 2 <= j && SlotAt(s, x, j).ino != 0 && Readable(unseen, j)
  }

  ghost function Inserting(s: State, at: Dentry, f: Fault): Errno
    requires |at.name| <= NAME_LEN
  {
    if Seen(s, at, f.bad) then EEXIST
    else if Stuck(s, at, f.bad) || f.torn then EIO
    else OK
  }

  ghost function Removing(s: State, at: Dentry, f: Fault): Errno
    requires |at.name| <= NAME_LEN
  {
    if Overlooked(s, at, f.bad) then ENOENT
    else if f.torn then EIO
    else OK
  }

  ghost function Renaming(s: State, from: Dentry, to: Dentry, flags: nat, f: RenameFaults): Errno
    requires from.ino in s.nodes && |from.name| <= NAME_LEN && |to.name| <= NAME_LEN
  {
    var dir := s.nodes[from.ino].dir;
    if flags > 1 then EINVAL
    else if Overlooked(s, from, f.oldBad) then ENOENT
    else if dir && f.dotsUnreadable then EIO
    else if to.ino == 0 then Inserting(s, to, f.add)
    else if dir && ShowsEntry(s, to.ino, f.unseen) then ENOTEMPTY
    else if Overlooked(s, to, f.newBad) then ENOENT
    else OK
  }

  // What an operation answers, by what its arguments, the memory and the slots are.
  ghost function Answer(s: State, op: Op): Errno
    requires Legal(s, op)
  {
    match op
    case OpMknod(at, devOk, alloc, f) =>
      if !devOk then EINVAL else if !alloc then ENOMEM else Inserting(s, at, f)
    case OpTmpfile(alloc) => if alloc then OK else ENOMEM
    case OpSymlink(at, textLen, alloc, written, f) =>
      if textLen >= Paging.PAGE_SIZE then ENAMETOOLONG
      else if !alloc then ENOMEM
      else if written != OK then written
      else Inserting(s, at, f)
    case OpLink(_, at, f) => Inserting(s, at, f)
    case OpMkdir(at, alloc, page, dotsTorn, f) =>
      if !alloc || !page then ENOMEM else if dotsTorn then EIO else Inserting(s, at, f)
    case OpUnlink(at, f) => Removing(s, at, f)
    case OpRmdir(at, unseen, f) => if ShowsEntry(s, at.ino, unseen) then ENOTEMPTY else Removing(s, at, f)
    case OpRename(from, to, flags, f) => Renaming(s, from, to, flags, f)
  }

  // ---- The parts ----

  lemma InsertAnswers(s: State, at: Dentry, f: Fault)
    requires Inv(s) && Negative(s, at)
    ensures forall t: State, x: nat :: at.dir in t.nodes && t.nodes[at.dir].slots == s.nodes[at.dir].slots ==>
              AddLink(t, at.dir, at.name, x, f).err == Inserting(s, at, f)
  {
    var slots := s.nodes[at.dir].slots;
    assert GoodDir(s, at.dir);
    DuplicateSeen(slots, at.name, f.bad, 0);
    assert SlotsOf(s, at.dir) == slots;
  }

  lemma FindAnswers(s: State, at: Dentry, bad: set<nat>)
    requires Inv(s) && Positive(s, at)
    ensures Finds(s, at, bad) <==> !Overlooked(s, at, bad)
  {
    assert GoodDir(s, at.dir);
    FindMisses(s.nodes[at.dir].slots, at.name, bad);
  }

  lemma EmptyAnswers(s: State, at: Dentry, unseen: set<nat>)
    requires Inv(s) && Positive(s, at) && s.nodes[at.ino].dir
    ensures LooksEmpty(s.nodes[at.ino].slots, at.ino, unseen) <==> !ShowsEntry(s, at.ino, unseen)
  {
    FoundEntry(s, at, {});
    EntryOfDir(s, at.dir, FindFrom(s.nodes[at.dir].slots, at.name, {}, 0), at.ino);
    LooksEmptyExact(s, at.ino, unseen);
  }

  // On readable pages nothing is overlooked, an insertion does not get stuck, and an entry shows
  // exactly when there is one.
  lemma NothingHides(s: State, at: Dentry)
    requires Inv(s)
    ensures Negative(s, at) ==> !Stuck(s, at, {})
    ensures Positive(s, at) ==> !Overlooked(s, at, {})
    ensures ShowsEntry(s, at.ino, {}) <==> !EmptyDir(s, at.ino)
  {
    assert forall j: nat :: Readable({}, j);
    if Positive(s, at) {
      var i: nat :| Holds(s.nodes[at.dir].slots, Padded(at.name), i);
      assert Readable({}, i);
    }
  }

  // ---- The operations ----

  lemma CreateAnswers(s: State, op: Op)
    requires Inv(s) && Legal(s, op) && (op.OpMknod? || op.OpSymlink? || op.OpLink? || op.OpMkdir?)
    ensures Step(s, op).err == Answer(s, op)
  {
    InsertAnswers(s, op.at, op.f);
    if op.OpMkdir? {
      MkdirAnswers(s, op.at, op.alloc, op.page, op.dotsTorn, op.f);
    }
  }

  lemma MkdirAnswers(s: State, at: Dentry, alloc: bool, page: bool, dotsTorn: bool, f: Fault)
    requires at.dir in s.nodes && s.next !in s.nodes && |at.name| <= NAME_LEN
    ensures Mkdir(s, at, alloc, page, dotsTorn, f).err ==
            if !alloc || !page then ENOMEM else if dotsTorn then EIO
            else AddLink(s, at.dir, at.name, s.next, f).err
  {
  }

  lemma RenameAnswers(s: State, from: Dentry, to: Dentry, flags: nat, f: RenameFaults)
    requires Inv(s) && Legal(s, OpRename(from, to, flags, f))
    ensures Rename(s, from, to, flags, f).err == Renaming(s, from, to, flags, f)
  {
    FindAnswers(s, from, f.oldBad);
    if to.ino == 0 {
      InsertAnswers(s, to, f.add);
    } else {
      FindAnswers(s, to, f.newBad);
      if s.nodes[to.ino].dir {
        EmptyAnswers(s, to, f.unseen);
      }
    }
  }

  // Every operation, whatever the disk does, answers what its arguments and the slots say, the
  // first reason in the order of the code.
  lemma StepAnswers(s: State, op: Op)
    requires Inv(s) && Legal(s, op)
    ensures Step(s, op).err == Answer(s, op)
  {
    match op
    case OpTmpfile(_) =>
    case OpUnlink(at, f) =>
      FindAnswers(s, at, f.bad);
    case OpRmdir(at, unseen, f) =>
      FindAnswers(s, at, f.bad);
      EmptyAnswers(s, at, unseen);
    case OpRename(from, to, flags, f) => RenameAnswers(s, from, to, flags, f);
    case _ => CreateAnswers(s, op);
  }

  // ---- On a sound disk ----

  // Creating and linking: each error has one reason.
  lemma SoundCreateAnswers(s: State, op: Op)
    requires Inv(s) && Legal(s, op) && NoFault(op)
    ensures var err := Step(s, op).err;
            match op
            case OpMknod(at, devOk, alloc, _) =>
              && (err == EINVAL <==> !devOk)
              && (err == ENOMEM <==> devOk && !alloc)
              && (err == EEXIST <==> devOk && alloc && Seen(s, at, {}))
              && err in {OK, EINVAL, ENOMEM, EEXIST}
            case OpTmpfile(alloc) => (err == ENOMEM <==> !alloc) && err in {OK, ENOMEM}
            case OpSymlink(at, textLen, alloc, written, _) =>
              && (written == OK ==> err in {OK, ENAMETOOLONG, ENOMEM, EEXIST})
              && (written == OK ==> (err == ENAMETOOLONG <==> textLen + 1 > Paging.PAGE_SIZE))
              && (written == OK ==> (err == ENOMEM <==> textLen + 1 <= Paging.PAGE_SIZE && !alloc))
              && (written == OK ==> (err == EEXIST <==> textLen + 1 <= Paging.PAGE_SIZE && alloc && Seen(s, at, {})))
              && (textLen + 1 > Paging.PAGE_SIZE ==> err == ENAMETOOLONG)
              && (textLen + 1 <= Paging.PAGE_SIZE && !alloc ==> err == ENOMEM)
              && (textLen + 1 <= Paging.PAGE_SIZE && alloc && written != OK ==> err == written)
            case OpLink(_, at, _) => (err == EEXIST <==> Seen(s, at, {})) && err in {OK, EEXIST}
            case OpMkdir(at, alloc, page, _, _) =>
              && (err == ENOMEM <==> !(alloc && page))
              && (err == EEXIST <==> alloc && page && Seen(s, at, {}))
              && err in {OK, ENOMEM, EEXIST}
            case _ => true
  {
    StepAnswers(s, op);
    if op.OpMknod? || op.OpSymlink? || op.OpLink? || op.OpMkdir? {
      NothingHides(s, op.at);
    }
  }

  // Removing and renaming: an unlink never fails, a rmdir only for an entry, a rename only for its
  // flags, for a directory in its way with an entry, or for a name in its way that the lookup missed.
  lemma SoundMoveAnswers(s: State, op: Op)
    requires Inv(s) && Legal(s, op) && NoFault(op)
    ensures var err := Step(s, op).err;
            match op
            case OpUnlink(_, _) => err == OK
            case OpRmdir(at, _, _) => (err == ENOTEMPTY <==> !EmptyDir(s, at.ino)) && err in {OK, ENOTEMPTY}
            case OpRename(from, to, flags, _) =>
              && (err == EINVAL <==> flags > 1)
              && (err == ENOTEMPTY <==> flags <= 1 && to.ino != 0 && s.nodes[to.ino].dir && !EmptyDir(s, to.ino))
              && (err == EEXIST <==> flags <= 1 && to.ino == 0 && Seen(s, to, {}))
              && err in {OK, EINVAL, ENOTEMPTY, EEXIST}
            case _ => true
  {
    StepAnswers(s, op);
    match op
    case OpUnlink(at, _) => NothingHides(s, at);
    case OpRmdir(at, _, _) => NothingHides(s, at);
    case OpRename(from, to, _, _) =>
      NothingHides(s, from);
      NothingHides(s, to);
    case _ =>
  }
}
