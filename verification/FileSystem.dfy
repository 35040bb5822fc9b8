/** The operations of a mounted file system, with the invariant they keep. */
module FileSystem {
  import opened Names
  import opened Paging
  import opened Slots
  import opened Common
  import opened Namespace
  import opened Invariant
  import opened Preservation
  import opened Safety
  import opened Answers
  import opened Volumes

  // gbfs_dir_inode_operations: every entry point is a step of the name space, gives back every
  // page reference it took, holds no page lock at return, answers the first error there is a
  // reason for, and keeps the invariant exactly when no fault has torn it.
  method Perform(v: Volume, op: Op) returns (err: Errno)
    requires v.Valid() && v.Balanced() && Inv(v.view) && Legal(v.view, op)
    modifies v, v.inodes
    ensures v.Valid() && v.Balanced()
    ensures Outcome(v.view, err) == Step(old(v.view), op)
    ensures err == Answer(old(v.view), op)
    ensures Inv(v.view) <==> !Torn(old(v.view), op)
  {
    LegalOperands(v.view, op);
    StepSafe(v.view, op);
    StepAnswers(v.view, op);
    match op
    case OpMknod(at, devOk, alloc, f) => err := v.Mknod(at, devOk, alloc, f);
    case OpTmpfile(alloc) => err := v.Tmpfile(alloc);
    case OpSymlink(at, textLen, alloc, written, f) => err := v.Symlink(at, textLen, alloc, written, f);
    case OpLink(x, at, f) => err := v.Link(x, at, f);
    case OpMkdir(at, alloc, page, dotsTorn, f) => err := v.Mkdir(at, alloc, page, dotsTorn, f);
    case OpUnlink(at, f) => err := v.Unlink(at, f);
    case OpRmdir(at, unseen, f) => err := v.Rmdir(at, unseen, f);
    case OpRename(from, to, flags, f) => err := v.Rename(from, to, flags, f);
  }

  // What the operations need to know about their operands.
  lemma LegalOperands(s: State, op: Op)
    requires Inv(s) && Legal(s, op)
    ensures s.next !in s.nodes
    ensures op.OpRename? ==>
              && op.from.dir != op.from.ino
              && (s.nodes[op.from.ino].dir ==> |s.nodes[op.from.ino].slots| >= 2)
  {
    if op.OpRename? {
      RenameOperands(s, op.from);
    }
  }

  lemma RenameOperands(s: State, from: Dentry)
    requires Inv(s) && Positive(s, from)
    ensures from.dir != from.ino
    ensures s.nodes[from.ino].dir ==> |s.nodes[from.ino].slots| >= 2
  {
    FoundEntry(s, from, {});
    if s.nodes[from.ino].dir {
      var i := FindFrom(s.nodes[from.dir].slots, from.name, {}, 0);
      EntryOfDir(s, from.dir, i, from.ino);
      DotsTaken(s, from.ino);
    }
  }
}
