/** Inode numbers, kinds and directory sizes over all runs, whatever the disk does: torn steps
    included, and without the rest of the invariant. */
module Growth {
  import opened Names
  import opened Paging
  import opened Slots
  import opened Common
  import opened Namespace
  import opened Invariant

  // Inode x is still there, of the same kind, and no shorter.
  ghost predicate Kept(s: State, t: State, x: nat)
    requires x in s.nodes
  {
    x in t.nodes && t.nodes[x].dir == s.nodes[x].dir && |s.nodes[x].slots| <= |t.nodes[x].slots|
  }

  ghost predicate GivenOut(s: State, t: State, x: nat) {
    s.next <= x < t.next
  }

  // Numbers are never reused, no inode changes its kind, no directory loses slots.
  ghost predicate Grows(s: State, t: State) {
    && s.next <= t.next
    && (forall x {:trigger Kept(s, t, x)} :: x in s.nodes ==> Kept(s, t, x))
    && (forall x {:trigger GivenOut(s, t, x)} :: x in t.nodes && x !in s.nodes ==> GivenOut(s, t, x))
  }

  // Besides, slots name inodes that exist, with numbers that were given out.
  ghost predicate Evolves(s: State, t: State) {
    Grows(s, t) && Numbered(t)
  }

  // ---- One change each ----

  lemma Then(s: State, t: State, u: State)
    requires Evolves(s, t) && Evolves(t, u)
    ensures Evolves(s, u)
  {
    forall x | x in s.nodes
      ensures Kept(s, u, x)
    {
      assert Kept(s, t, x) && Kept(t, u, x);
    }
    forall x | x in u.nodes && x !in s.nodes
      ensures GivenOut(s, u, x)
    {
      assert x in t.nodes ==> GivenOut(s, t, x);
      assert x !in t.nodes ==> GivenOut(t, u, x);
    }
  }

  lemma Stays(s: State)
    requires Numbered(s)
    ensures Evolves(s, s)
  {
  }

  lemma WriteEvolves(s: State, d: nat, i: nat, slot: Slot)
    requires Numbered(s) && d in s.nodes && i <= |s.nodes[d].slots| && (slot.ino == 0 || slot.ino in s.nodes)
    ensures Evolves(s, Write(s, d, i, slot))
  {
    var t := Write(s, d, i, slot);
    forall e: nat, k: nat
      ensures SlotAt(t, e, k).ino == 0 || SlotAt(t, e, k).ino in t.nodes
    {
      assert SlotAt(t, e, k) == if (e, k) == (d, i) then slot else SlotAt(s, e, k);
    }
  }

  lemma IncEvolves(s: State, x: nat)
    requires Numbered(s) && x in s.nodes
    ensures Evolves(s, Inc(s, x))
  {
    assert forall e: nat, k: nat :: SlotAt(Inc(s, x), e, k) == SlotAt(s, e, k);
  }

  lemma DecEvolves(s: State, x: nat)
    requires Numbered(s) && x in s.nodes
    ensures Evolves(s, Dec(s, x))
  {
    assert forall e: nat, k: nat :: SlotAt(Dec(s, x), e, k) == SlotAt(s, e, k);
  }

  lemma NewEvolves(s: State, dir: bool)
    requires Numbered(s)
    ensures s.next !in s.nodes
    ensures Evolves(s, NewInode(s, dir))
  {
    var t := NewInode(s, dir);
    forall e: nat, k: nat
      ensures SlotAt(t, e, k).ino == 0 || SlotAt(t, e, k).ino in t.nodes
    {
      assert SlotAt(t, e, k) == if e == s.next then BLANK else SlotAt(s, e, k);
    }
  }

  // make_empty: the slots of a directory that had none.
  lemma DotsEvolve(s: State, x: nat, d: nat)
    requires Numbered(s) && x in s.nodes && d in s.nodes && s.nodes[x].slots == []
    ensures Evolves(s, s.(nodes := s.nodes[x := s.nodes[x].(slots := DotSlots(x, d))]))
  {
    var t := s.(nodes := s.nodes[x := s.nodes[x].(slots := DotSlots(x, d))]);
    assert t.nodes.Keys == s.nodes.Keys && t.next == s.next;
    forall e: nat, k: nat
      ensures SlotAt(t, e, k).ino == 0 || SlotAt(t, e, k).ino in s.nodes
    {
      if e == x {
        assert SlotAt(t, x, k) == if k < 2 then DotSlots(x, d)[k] else BLANK;
      } else {
        assert SlotAt(t, e, k) == SlotAt(s, e, k);
      }
    }
  }

  // ---- The operations ----

  lemma AddLinkEvolves(s: State, d: nat, name: Name, x: nat, f: Fault)
    requires Numbered(s) && d in s.nodes && x in s.nodes && |name| <= NAME_LEN
    ensures Evolves(s, AddLink(s, d, name, x, f).state)
  {
    Stays(s);
    match SpotFrom(s.nodes[d].slots, name, f.bad, 0)
    case At(i) => WriteEvolves(s, d, i, Slot(x, Padded(name)));
    case _ =>
  }

  lemma AddNondirEvolves(s: State, d: nat, name: Name, x: nat, f: Fault)
    requires Numbered(s) && d in s.nodes && x in s.nodes && |name| <= NAME_LEN
    ensures Evolves(s, AddNondir(s, d, name, x, f).state)
  {
    var t := AddLink(s, d, name, x, f).state;
    AddLinkEvolves(s, d, name, x, f);
    DecEvolves(t, x);
    Then(s, t, Dec(t, x));
  }

  lemma CreateEvolves(s: State, at: Dentry, f: Fault)
    requires Numbered(s) && at.dir in s.nodes && |at.name| <= NAME_LEN
    ensures Evolves(s, AddNondir(NewInode(s, false), at.dir, at.name, s.next, f).state)
  {
    var t := NewInode(s, false);
    NewEvolves(s, false);
    AddNondirEvolves(t, at.dir, at.name, s.next, f);
    Then(s, t, AddNondir(t, at.dir, at.name, s.next, f).state);
  }

  lemma UnnamedEvolves(s: State)
    requires Numbered(s)
    ensures Evolves(s, Dec(NewInode(s, false), s.next))
  {
    var t := NewInode(s, false);
    NewEvolves(s, false);
    DecEvolves(t, s.next);
    Then(s, t, Dec(t, s.next));
  }

  lemma LinkEvolves(s: State, x: nat, at: Dentry, f: Fault)
    requires Numbered(s) && at.dir in s.nodes && x in s.nodes && |at.name| <= NAME_LEN
    ensures Evolves(s, Link(s, x, at, f).state)
  {
    var t := Inc(s, x);
    IncEvolves(s, x);
    AddNondirEvolves(t, at.dir, at.name, x, f);
    Then(s, t, Link(s, x, at, f).state);
  }

  lemma UndoEvolves(s: State, d: nat, x: nat)
    requires Numbered(s) && d in s.nodes && x in s.nodes
    ensures Evolves(s, UndoMkdir(s, d, x))
  {
    var t := Dec(s, x);
    var u := Dec(t, x);
    DecEvolves(s, x);
    DecEvolves(t, x);
    DecEvolves(u, d);
    Then(s, t, u);
    Then(s, u, Dec(u, d));
  }

  lemma FillDirEvolves(s: State, at: Dentry, page: bool, dotsTorn: bool, f: Fault)
    requires Numbered(s) && at.dir in s.nodes && |at.name| <= NAME_LEN
    ensures Evolves(s, FillDir(s, at, page, dotsTorn, f).state)
  {
    var x := s.next;
    var s1 := NewInode(s, true);
    var s2 := Inc(s1, x);
    NewEvolves(s, true);
    IncEvolves(s1, x);
    Then(s, s1, s2);
    if !page {
      UndoEvolves(s2, at.dir, x);
      Then(s, s2, UndoMkdir(s2, at.dir, x));
    } else {
      FilledEvolves(s2, at, x, dotsTorn, f);
      Then(s, s2, FillDir(s, at, page, dotsTorn, f).state);
    }
  }

  lemma FilledEvolves(s: State, at: Dentry, x: nat, dotsTorn: bool, f: Fault)
    requires Numbered(s) && at.dir in s.nodes && x in s.nodes && s.nodes[x].slots == [] && |at.name| <= NAME_LEN
    ensures var s3 := s.(nodes := s.nodes[x := s.nodes[x].(slots := DotSlots(x, at.dir))]);
            var o := AddLink(s3, at.dir, at.name, x, f);
            && Evolves(s, UndoMkdir(s3, at.dir, x))
            && Evolves(s, o.state) && Evolves(s, UndoMkdir(o.state, at.dir, x))
  {
    var s3 := s.(nodes := s.nodes[x := s.nodes[x].(slots := DotSlots(x, at.dir))]);
    var t := AddLink(s3, at.dir, at.name, x, f).state;
    DotsEvolve(s, x, at.dir);
    UndoEvolves(s3, at.dir, x);
    Then(s, s3, UndoMkdir(s3, at.dir, x));
    AddLinkEvolves(s3, at.dir, at.name, x, f);
    Then(s, s3, t);
    UndoEvolves(t, at.dir, x);
    Then(s, t, UndoMkdir(t, at.dir, x));
  }

  lemma MkdirEvolves(s: State, at: Dentry, alloc: bool, page: bool, dotsTorn: bool, f: Fault)
    requires Numbered(s) && at.dir in s.nodes && |at.name| <= NAME_LEN
    ensures Evolves(s, Mkdir(s, at, alloc, page, dotsTorn, f).state)
  {
    var t := Inc(s, at.dir);
    IncEvolves(s, at.dir);
    DecEvolves(t, at.dir);
    Then(s, t, Dec(t, at.dir));
    FillDirEvolves(t, at, page, dotsTorn, f);
    Then(s, t, FillDir(t, at, page, dotsTorn, f).state);
  }

  lemma UnlinkEvolves(s: State, at: Dentry, f: Fault)
    requires Numbered(s) && at.dir in s.nodes && at.ino in s.nodes && |at.name| <= NAME_LEN
    ensures Evolves(s, Unlink(s, at, f).state)
  {
    var i := FindFrom(s.nodes[at.dir].slots, at.name, f.bad, 0);
    Stays(s);
    if i < |s.nodes[at.dir].slots| {
      var t := Write(s, at.dir, i, SlotAt(s, at.dir, i).(ino := 0));
      WriteEvolves(s, at.dir, i, SlotAt(s, at.dir, i).(ino := 0));
      DecEvolves(t, at.ino);
      Then(s, t, Dec(t, at.ino));
    }
  }

  lemma RmdirEvolves(s: State, at: Dentry, unseen: set<nat>, f: Fault)
    requires Numbered(s) && at.dir in s.nodes && at.ino in s.nodes && |at.name| <= NAME_LEN
    ensures Evolves(s, Rmdir(s, at, unseen, f).state)
  {
    var t := Unlink(s, at, f).state;
    var u := Dec(t, at.dir);
    Stays(s);
    UnlinkEvolves(s, at, f);
    DecEvolves(t, at.dir);
    DecEvolves(u, at.ino);
    Then(s, t, u);
    Then(s, u, Dec(u, at.ino));
  }

  lemma FinishEvolves(s: State, from: Dentry, i: nat, to: Dentry)
    requires Numbered(s) && from.dir in s.nodes && from.ino in s.nodes && to.dir in s.nodes && i < |s.nodes[from.dir].slots|
    ensures Evolves(s, FinishRename(s, from, i, to))
  {
    var t := Write(s, from.dir, i, SlotAt(s, from.dir, i).(ino := 0));
    WriteEvolves(s, from.dir, i, SlotAt(s, from.dir, i).(ino := 0));
    if s.nodes[from.ino].dir && |t.nodes[from.ino].slots| >= 2 {
      var u := Write(t, from.ino, 1, SlotAt(t, from.ino, 1).(ino := to.dir));
      WriteEvolves(t, from.ino, 1, SlotAt(t, from.ino, 1).(ino := to.dir));
      Then(s, t, u);
      DecEvolves(u, from.dir);
      Then(s, u, Dec(u, from.dir));
    }
  }

  lemma ReplacedEvolves(s: State, to: Dentry, j: nat, x: nat, dots: bool)
    requires Numbered(s) && to.dir in s.nodes && to.ino in s.nodes && x in s.nodes && j < |s.nodes[to.dir].slots|
    ensures Evolves(s, Replaced(s, to, j, x, dots))
  {
    var t := Write(s, to.dir, j, SlotAt(s, to.dir, j).(ino := x));
    var u := Dec(t, to.ino);
    WriteEvolves(s, to.dir, j, SlotAt(s, to.dir, j).(ino := x));
    DecEvolves(t, to.ino);
    Then(s, t, u);
    DecEvolves(u, to.ino);
    Then(s, u, Dec(u, to.ino));
  }

  lemma RenameOverEvolves(s: State, from: Dentry, i: nat, to: Dentry, unseen: set<nat>, newBad: set<nat>)
    requires Numbered(s) && from.dir in s.nodes && from.ino in s.nodes && to.dir in s.nodes && to.ino in s.nodes
    requires i < |s.nodes[from.dir].slots| && |to.name| <= NAME_LEN
    ensures Evolves(s, RenameOver(s, from, i, to, unseen, newBad).state)
  {
    var j := FindFrom(s.nodes[to.dir].slots, to.name, newBad, 0);
    Stays(s);
    if j < |s.nodes[to.dir].slots| {
      var t := Replaced(s, to, j, from.ino, s.nodes[from.ino].dir);
      ReplacedEvolves(s, to, j, from.ino, s.nodes[from.ino].dir);
      FinishEvolves(t, from, i, to);
      Then(s, t, FinishRename(t, from, i, to));
    }
  }

  lemma RenameIntoEvolves(s: State, from: Dentry, i: nat, to: Dentry, add: Fault)
    requires Numbered(s) && from.dir in s.nodes && from.ino in s.nodes && to.dir in s.nodes
    requires i < |s.nodes[from.dir].slots| && |to.name| <= NAME_LEN
    ensures Evolves(s, RenameInto(s, from, i, to, add).state)
  {
    var t := AddLink(s, to.dir, to.name, from.ino, add).state;
    AddLinkEvolves(s, to.dir, to.name, from.ino, add);
    IncEvolves(t, to.dir);
    var u := if s.nodes[from.ino].dir then Inc(t, to.dir) else t;
    Stays(t);
    Then(s, t, u);
    FinishEvolves(u, from, i, to);
    Then(s, u, FinishRename(u, from, i, to));
  }

  lemma RenameEvolves(s: State, from: Dentry, to: Dentry, flags: nat, f: RenameFaults)
    requires Numbered(s) && from.dir in s.nodes && from.ino in s.nodes && to.dir in s.nodes
    requires to.ino == 0 || to.ino in s.nodes
    requires |from.name| <= NAME_LEN && |to.name| <= NAME_LEN
    ensures Evolves(s, Rename(s, from, to, flags, f).state)
  {
    var i := FindFrom(s.nodes[from.dir].slots, from.name, f.oldBad, 0);
    Stays(s);
    if i < |s.nodes[from.dir].slots| {
      if to.ino != 0 {
        RenameOverEvolves(s, from, i, to, f.unseen, f.newBad);
      } else {
        RenameIntoEvolves(s, from, i, to, f.add);
      }
    }
  }

  // ---- Whole runs ----

  lemma StepGrows(s: State, op: Op)
    requires Numbered(s) && Legal(s, op)
    ensures Grows(s, Step(s, op).state) && Numbered(Step(s, op).state)
  {
    Stays(s);
    match op
    case OpMknod(at, devOk, alloc, f) => CreateEvolves(s, at, f);
    case OpTmpfile(alloc) => UnnamedEvolves(s);
    case OpSymlink(at, textLen, alloc, written, f) =>
      UnnamedEvolves(s);
      CreateEvolves(s, at, f);
    case OpLink(x, at, f) => LinkEvolves(s, x, at, f);
    case OpMkdir(at, alloc, page, dotsTorn, f) => MkdirEvolves(s, at, alloc, page, dotsTorn, f);
    case OpUnlink(at, f) => UnlinkEvolves(s, at, f);
    case OpRmdir(at, unseen, f) => RmdirEvolves(s, at, unseen, f);
    case OpRename(from, to, flags, f) => RenameEvolves(s, from, to, flags, f);
  }

  // A run of operations each of which the VFS may call in its state. Any of them may be torn.
  ghost predicate LegalRun(s: State, ops: seq<Op>, t: State)
    decreases |ops|
  {
    if ops == [] then t == s
    else Legal(s, ops[0]) && LegalRun(Step(s, ops[0]).state, ops[1..], t)
  }

  lemma {:induction false} RunGrows(s: State, ops: seq<Op>, t: State)
    requires Numbered(s) && LegalRun(s, ops, t)
    ensures Grows(s, t) && Numbered(t)
    decreases |ops|
  {
    if ops == [] {
      Stays(s);
    } else {
      var next := Step(s, ops[0]).state;
      StepGrows(s, ops[0]);
      RunGrows(next, ops[1..], t);
      Then(s, next, t);
    }
  }
}
