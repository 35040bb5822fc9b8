/** The gbfs name space as a state machine: inodes, directory slots and the VFS entry points. */
module Namespace {
  import opened Names
  import opened Paging
  import opened Slots
  import opened Common

  datatype Node = Node(dir: bool, nlink: nat, slots: seq<Slot>)

  // next is the number the next inode will get.
  datatype State = State(nodes: map<nat, Node>, next: nat)

  datatype Outcome = Outcome(state: State, err: Errno)

  // A name in a directory and the inode the VFS has found behind it; 0 if the name is negative.
  datatype Dentry = Dentry(dir: nat, name: Name, ino: nat)

  const Init: State := State(map[ROOT := Node(true, 2, [])], FIRST_INO)

  // ---- Building blocks ----

  function SlotAt(s: State, d: nat, i: nat): Slot {
    if d in s.nodes && i < |s.nodes[d].slots| then s.nodes[d].slots[i] else BLANK
  }

  function Write(s: State, d: nat, i: nat, slot: Slot): State
    requires d in s.nodes && i <= |s.nodes[d].slots|
  {
    s.(nodes := s.nodes[d := s.nodes[d].(slots := PutAt(s.nodes[d].slots, i, slot))])
  }

  function Inc(s: State, x: nat): State
    requires x in s.nodes
  {
    s.(nodes := s.nodes[x := s.nodes[x].(nlink := s.nodes[x].nlink + 1)])
  }

  function Dec(s: State, x: nat): State
    requires x in s.nodes
  {
    var n := s.nodes[x].nlink;
    s.(nodes := s.nodes[x := s.nodes[x].(nlink := if n == 0 then U32 - 1 else n - 1)])
  }

  // gbfs_new_inode: a fresh number and a link count of one.
  function NewInode(s: State, dir: bool): State {
    State(s.nodes[s.next := Node(dir, 1, [])], s.next + 1)
  }

  function SlotsOf(s: State, d: nat): seq<Slot> {
    if d in s.nodes then s.nodes[d].slots else []
  }

  // ---- The directory operations ----

  function AddLink(s: State, d: nat, name: Name, x: nat, f: Fault): (o: Outcome)
    requires d in s.nodes && |name| <= NAME_LEN
  {
    match SpotFrom(s.nodes[d].slots, name, f.bad, 0)
    case At(i) => Outcome(Write(s, d, i, Slot(x, Padded(name))), if f.torn then EIO else OK)
    case Duplicate => Outcome(s, EEXIST)
    case Unreadable => Outcome(s, EIO)
  }

  function AddNondir(s: State, d: nat, name: Name, x: nat, f: Fault): Outcome
    requires d in s.nodes && x in s.nodes && |name| <= NAME_LEN
  {
    var o := AddLink(s, d, name, x, f);
    if o.err == OK then o else Outcome(Dec(o.state, x), o.err)
  }

  function Mknod(s: State, at: Dentry, devOk: bool, alloc: bool, f: Fault): Outcome
    requires at.dir in s.nodes && |at.name| <= NAME_LEN
  {
    if !devOk then Outcome(s, EINVAL)
    else if !alloc then Outcome(s, ENOMEM)
    else AddNondir(NewInode(s, false), at.dir, at.name, s.next, f)
  }

  function Tmpfile(s: State, alloc: bool): Outcome {
    if !alloc then Outcome(s, ENOMEM)
    else Outcome(Dec(NewInode(s, false), s.next), OK)
  }

  // written is the outcome of storing the link text in the new inode's first page.
  function Symlink(s: State, at: Dentry, textLen: nat, alloc: bool, written: Errno, f: Fault): Outcome
    requires at.dir in s.nodes && |at.name| <= NAME_LEN
  {
    if textLen + 1 > PAGE_SIZE then Outcome(s, ENAMETOOLONG)
    else if !alloc then Outcome(s, ENOMEM)
    else if written != OK then Outcome(Dec(NewInode(s, false), s.next), written)
    else AddNondir(NewInode(s, false), at.dir, at.name, s.next, f)
  }

  function Link(s: State, x: nat, at: Dentry, f: Fault): Outcome
    requires x in s.nodes && at.dir in s.nodes && |at.name| <= NAME_LEN
  {
    AddNondir(Inc(s, x), at.dir, at.name, x, f)
  }

  // The common unwinding of a mkdir that has got its inode.
  function UndoMkdir(s: State, d: nat, x: nat): State
    requires d in s.nodes && x in s.nodes
  {
    Dec(Dec(Dec(s, x), x), d)
  }

  // The rest of mkdir, once the parent counts the new directory's "..". page is whether page 0 of
  // the new directory could be had, dotsTorn whether writing it failed.
  function FillDir(s: State, at: Dentry, page: bool, dotsTorn: bool, f: Fault): Outcome
    requires at.dir in s.nodes && |at.name| <= NAME_LEN
  {
    var x := s.next;
    var s2 := Inc(NewInode(s, true), x);
    if !page then Outcome(UndoMkdir(s2, at.dir, x), ENOMEM) else
    var s3 := s2.(nodes := s2.nodes[x := s2.nodes[x].(slots := DotSlots(x, at.dir))]);
    if dotsTorn then Outcome(UndoMkdir(s3, at.dir, x), EIO) else
    var o := AddLink(s3, at.dir, at.name, x, f);
    if o.err == OK then o else Outcome(UndoMkdir(o.state, at.dir, x), o.err)
  }

  function Mkdir(s: State, at: Dentry, alloc: bool, page: bool, dotsTorn: bool, f: Fault): Outcome
    requires at.dir in s.nodes && |at.name| <= NAME_LEN
  {
    var s1 := Inc(s, at.dir);
    if !alloc then Outcome(Dec(s1, at.dir), ENOMEM)
    else FillDir(s1, at, page, dotsTorn, f)
  }

  // Once the entry is found in slot i.
  function UnlinkAt(s: State, at: Dentry, i: nat, torn: bool): Outcome
    requires at.dir in s.nodes && at.ino in s.nodes && i < |s.nodes[at.dir].slots|
  {
    var s1 := Write(s, at.dir, i, SlotAt(s, at.dir, i).(ino := 0));
    if torn then Outcome(s1, EIO) else Outcome(Dec(s1, at.ino), OK)
  }

  function Unlink(s: State, at: Dentry, f: Fault): Outcome
    requires at.dir in s.nodes && at.ino in s.nodes && |at.name| <= NAME_LEN
  {
    var i := FindFrom(s.nodes[at.dir].slots, at.name, f.bad, 0);
    if i == |s.nodes[at.dir].slots| then Outcome(s, ENOENT) else UnlinkAt(s, at, i, f.torn)
  }

  // An unlink that also takes away what "." and ".." counted.
  function UnlinkDir(s: State, at: Dentry, f: Fault): Outcome
    requires at.dir in s.nodes && at.ino in s.nodes && |at.name| <= NAME_LEN
  {
    var o := Unlink(s, at, f);
    if o.err == OK then Outcome(Dec(Dec(o.state, at.dir), at.ino), OK) else o
  }

  // unseen are the pages of the victim the emptiness check cannot read.
  function Rmdir(s: State, at: Dentry, unseen: set<nat>, f: Fault): Outcome
    requires at.dir in s.nodes && at.ino in s.nodes && |at.name| <= NAME_LEN
  {
    if !LooksEmpty(s.nodes[at.ino].slots, at.ino, unseen) then Outcome(s, ENOTEMPTY)
    else UnlinkDir(s, at, f)
  }

  // The faults of the up to six directory accesses of a rename; the two updates whose result
  // the code ignores (delete_entry, set_link) need none.
  datatype RenameFaults = RenameFaults(oldBad: set<nat>, dotsUnreadable: bool, unseen: set<nat>, newBad: set<nat>, add: Fault)

  // The last part: drop the old name and, for a directory, redirect its "..".
  function FinishRename(s: State, from: Dentry, oldIndex: nat, to: Dentry): State
    requires from.dir in s.nodes && from.ino in s.nodes && to.dir in s.nodes
    requires oldIndex < |s.nodes[from.dir].slots|
  {
    var s1 := Write(s, from.dir, oldIndex, SlotAt(s, from.dir, oldIndex).(ino := 0));
    if !s.nodes[from.ino].dir || |s1.nodes[from.ino].slots| < 2 then s1
    else Dec(Write(s1, from.ino, 1, SlotAt(s1, from.ino, 1).(ino := to.dir)), from.dir)
  }

  // The slot of the existing name redirected, and the links of the inode it stood for dropped.
  function Replaced(s: State, to: Dentry, j: nat, x: nat, dots: bool): (t: State)
    requires to.dir in s.nodes && to.ino in s.nodes && j < |s.nodes[to.dir].slots|
    ensures t.nodes.Keys == s.nodes.Keys
    ensures forall z :: z in s.nodes ==> t.nodes[z].dir == s.nodes[z].dir && |t.nodes[z].slots| == |s.nodes[z].slots|
  {
    var s1 := Write(s, to.dir, j, SlotAt(s, to.dir, j).(ino := x));
    Dec(if dots then Dec(s1, to.ino) else s1, to.ino)
  }

  // The new name exists and may be replaced.
  function RenameOnto(s: State, from: Dentry, i: nat, to: Dentry, newBad: set<nat>): Outcome
    requires from.dir in s.nodes && from.ino in s.nodes && to.dir in s.nodes && to.ino in s.nodes
    requires i < |s.nodes[from.dir].slots| && |to.name| <= NAME_LEN
  {
    var slots := s.nodes[to.dir].slots;
    var j := FindFrom(slots, to.name, newBad, 0);
    if j == |slots| then Outcome(s, ENOENT)
    else Outcome(FinishRename(Replaced(s, to, j, from.ino, s.nodes[from.ino].dir), from, i, to), OK)
  }

  // The new name exists: a directory may only be replaced by a directory, and when it is empty.
  function RenameOver(s: State, from: Dentry, i: nat, to: Dentry, unseen: set<nat>, newBad: set<nat>): Outcome
    requires from.dir in s.nodes && from.ino in s.nodes && to.dir in s.nodes && to.ino in s.nodes
    requires i < |s.nodes[from.dir].slots| && |to.name| <= NAME_LEN
  {
    if s.nodes[from.ino].dir && !LooksEmpty(s.nodes[to.ino].slots, to.ino, unseen) then Outcome(s, ENOTEMPTY)
    else RenameOnto(s, from, i, to, newBad)
  }

  // The new name is free: it is inserted.
  function RenameInto(s: State, from: Dentry, i: nat, to: Dentry, add: Fault): Outcome
    requires from.dir in s.nodes && from.ino in s.nodes && to.dir in s.nodes
    requires i < |s.nodes[from.dir].slots| && |to.name| <= NAME_LEN
  {
    var o := AddLink(s, to.dir, to.name, from.ino, add);
    if o.err != OK then o else
    var s1 := if s.nodes[from.ino].dir then Inc(o.state, to.dir) else o.state;
    Outcome(FinishRename(s1, from, i, to), OK)
  }

  // Once the old entry is found in slot i.
  function RenameFound(s: State, from: Dentry, i: nat, to: Dentry, f: RenameFaults): Outcome
    requires from.dir in s.nodes && from.ino in s.nodes && to.dir in s.nodes
    requires to.ino == 0 || to.ino in s.nodes
    requires i < |s.nodes[from.dir].slots| && |to.name| <= NAME_LEN
  {
    if s.nodes[from.ino].dir && f.dotsUnreadable then Outcome(s, EIO)
    else if to.ino != 0 then RenameOver(s, from, i, to, f.unseen, f.newBad)
    else RenameInto(s, from, i, to, f.add)
  }

  function Rename(s: State, from: Dentry, to: Dentry, flags: nat, f: RenameFaults): Outcome
    requires from.dir in s.nodes && from.ino in s.nodes && to.dir in s.nodes
    requires to.ino == 0 || to.ino in s.nodes
    requires |from.name| <= NAME_LEN && |to.name| <= NAME_LEN
  {
    // only RENAME_NOREPLACE, which is 1, is accepted
    if flags > 1 then Outcome(s, EINVAL) else
    var i := FindFrom(s.nodes[from.dir].slots, from.name, f.oldBad, 0);
    if i == |s.nodes[from.dir].slots| then Outcome(s, ENOENT) else RenameFound(s, from, i, to, f)
  }
}
