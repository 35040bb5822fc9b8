/** What every run keeps, and the operations with what the VFS guarantees about them. */
module Invariant {
  import opened Names
  import opened Paging
  import opened Slots
  import opened Common
  import opened Namespace

  // ---- The invariant ----

  ghost predicate Live(s: State, d: nat) {
    d in s.nodes && s.nodes[d].dir && s.nodes[d].nlink > 0
  }

  // Slot i of the live directory d refers to x.
  ghost predicate Refers(s: State, d: nat, i: nat, x: nat) {
    Live(s, d) && SlotAt(s, d, i).ino == x
  }

  // A reference other than the "." and ".." in the first two slots; the root has no such slots.
  ghost predicate Entry(s: State, d: nat, i: nat, x: nat) {
    Refers(s, d, i, x) && x != 0 && (d == ROOT || 2 <= i)
  }

  // All references to x from live directories.
  ghost function Refs(s: State, x: nat): set<(nat, nat)> {
    set d: nat, i: nat | d in s.nodes && i < |s.nodes[d].slots| && Refers(s, d, i, x) :: (d, i)
  }

  // The directory that slot 1 names; the root is its own parent.
  function Parent(s: State, x: nat): nat {
    if x == ROOT then ROOT else SlotAt(s, x, 1).ino
  }

  function Up(s: State, x: nat, n: nat): nat
    decreases n
  {
    if n == 0 then x else Up(s, Parent(s, x), n - 1)
  }

  ghost predicate Above(s: State, a: nat, x: nat) {
    exists n: nat :: Up(s, x, n) == a
  }

  ghost predicate Numbered(s: State) {
    && s.next >= FIRST_INO
    && (forall x :: x in s.nodes ==> x == ROOT || FIRST_INO <= x < s.next)
    && (forall d: nat, i: nat {:trigger SlotAt(s, d, i)} :: SlotAt(s, d, i).ino == 0 || SlotAt(s, d, i).ino in s.nodes)
  }

  // The slots of a well-formed directory d.
  ghost predicate GoodSlots(d: nat, slots: seq<Slot>) {
    && Unique(slots) && AllClean(slots)
    && if d == ROOT then Absent(slots, Padded(DOT)) && Absent(slots, Padded(DOTDOT))
       else
         && |slots| >= 2
         && slots[0] == Slot(d, Padded(DOT))
         && slots[1].name == Padded(DOTDOT)
  }

  ghost predicate GoodDir(s: State, d: nat)
    requires d in s.nodes
  {
    GoodSlots(d, s.nodes[d].slots)
  }

  ghost predicate GoodDirs(s: State) {
    && Live(s, ROOT)
    && (forall d {:trigger GoodDir(s, d)} :: Live(s, d) ==> GoodDir(s, d))
    && (forall d {:trigger Parent(s, d)} :: Live(s, d) ==> Live(s, Parent(s, d)))
  }

  // Link counts are exact; the root counts two more because it stores no slots for itself.
  ghost predicate Counted(s: State) {
    forall x {:trigger Refs(s, x)} :: x in s.nodes ==> s.nodes[x].nlink == |Refs(s, x)| + if x == ROOT then 2 else 0
  }

  // Directories are entered only from the parent their ".." names, the root not at all.
  ghost predicate FromParent(s: State) {
    forall d: nat, i: nat, x: nat :: Entry(s, d, i, x) && x in s.nodes && s.nodes[x].dir ==>
      x != ROOT && Parent(s, x) == d
  }

  // No directory has two entries in the same directory.
  ghost predicate Once(s: State) {
    forall d: nat, i: nat, j: nat, x: nat :: Entry(s, d, i, x) && Entry(s, d, j, x) && x in s.nodes && s.nodes[x].dir ==>
      i == j
  }

  // Every live directory but the root has its entry.
  ghost predicate Entered(s: State) {
    forall x {:trigger Parent(s, x)} :: Live(s, x) && x != ROOT ==> exists i: nat :: Entry(s, Parent(s, x), i, x)
  }

  ghost predicate Tree(s: State) {
    FromParent(s) && Once(s) && Entered(s)
  }

  ghost predicate Rooted(s: State) {
    forall x {:trigger Above(s, ROOT, x)} :: Live(s, x) ==> Above(s, ROOT, x)
  }

  // No link count passes what the on-disk record can hold.
  ghost predicate Bounded(s: State) {
    forall x :: x in s.nodes ==> s.nodes[x].nlink <= LINK_MAX
  }

  ghost predicate Core(s: State) {
    Numbered(s) && GoodDirs(s) && Counted(s) && Tree(s) && Rooted(s)
  }

  ghost predicate Inv(s: State) {
    Core(s) && Bounded(s)
  }

  // ---- Operations and what the VFS guarantees about them ----

  datatype Op =
    | OpMknod(at: Dentry, devOk: bool, alloc: bool, f: Fault)
    | OpTmpfile(alloc: bool)
    | OpSymlink(at: Dentry, textLen: nat, alloc: bool, written: Errno, f: Fault)
    | OpLink(x: nat, at: Dentry, f: Fault)
    | OpMkdir(at: Dentry, alloc: bool, page: bool, dotsTorn: bool, f: Fault)
    | OpUnlink(at: Dentry, f: Fault)
    | OpRmdir(at: Dentry, unseen: set<nat>, f: Fault)
    | OpRename(from: Dentry, to: Dentry, flags: nat, rf: RenameFaults)

  // A search that cannot read the pages bad does not find the name.
  ghost predicate Missed(s: State, at: Dentry, bad: set<nat>)
    requires at.dir in s.nodes && |at.name| <= NAME_LEN
  {
    FindFrom(s.nodes[at.dir].slots, at.name, bad, 0) == |s.nodes[at.dir].slots|
  }

  // The lookup has answered that there is no such name. It may be there all the same, on a page
  // the lookup could not read.
  ghost predicate Negative(s: State, at: Dentry) {
    && Live(s, at.dir) && ChildName(at.name) && at.ino == 0
    && exists bad: set<nat> :: Missed(s, at, bad)
  }

  // The name is in the directory and stands for at.ino.
  ghost predicate Positive(s: State, at: Dentry) {
    && Live(s, at.dir) && ChildName(at.name) && at.ino in s.nodes && at.ino != 0
    && exists i: nat :: Holds(s.nodes[at.dir].slots, Padded(at.name), i) && SlotAt(s, at.dir, i).ino == at.ino
  }

  ghost predicate Legal(s: State, op: Op) {
    match op
    case OpMknod(at, _, _, _) => Negative(s, at) && s.next < U32
    case OpTmpfile(_) => s.next < U32
    case OpSymlink(at, _, _, _, _) => Negative(s, at) && s.next < U32
    case OpLink(x, at, _) => Negative(s, at) && x in s.nodes && !s.nodes[x].dir && s.nodes[x].nlink < LINK_MAX
    case OpMkdir(at, _, _, _, _) => Negative(s, at) && s.next < U32 && s.nodes[at.dir].nlink < LINK_MAX
    case OpUnlink(at, _) => Positive(s, at) && !s.nodes[at.ino].dir
    case OpRmdir(at, _, _) => Positive(s, at) && s.nodes[at.ino].dir
    case OpRename(from, to, _, _) =>
      && Positive(s, from)
      && (from.dir, from.name) != (to.dir, to.name)
      && (Negative(s, to) || (Positive(s, to) && to.ino != from.ino && s.nodes[to.ino].dir == s.nodes[from.ino].dir))
      && (s.nodes[from.ino].dir ==>
            && !Above(s, from.ino, to.dir)
            && (to.ino != 0 ==> !Above(s, to.ino, from.dir))
            && (to.ino == 0 && to.dir != from.dir ==> s.nodes[to.dir].nlink < LINK_MAX))
  }

  ghost function Step(s: State, op: Op): Outcome
    requires Legal(s, op)
  {
    match op
    case OpMknod(at, devOk, alloc, f) => Mknod(s, at, devOk, alloc, f)
    case OpTmpfile(alloc) => Tmpfile(s, alloc)
    case OpSymlink(at, textLen, alloc, written, f) => Symlink(s, at, textLen, alloc, written, f)
    case OpLink(x, at, f) => Link(s, x, at, f)
    case OpMkdir(at, alloc, page, dotsTorn, f) => Mkdir(s, at, alloc, page, dotsTorn, f)
    case OpUnlink(at, f) => Unlink(s, at, f)
    case OpRmdir(at, unseen, f) => Rmdir(s, at, unseen, f)
    case OpRename(from, to, flags, rf) => Rename(s, from, to, flags, rf)
  }
}
