/** What the steps of a rename do, inode by inode, once it has found its two slots. */
module RenameSteps {
  import opened Names
  import opened Slots
  import opened Common
  import opened Namespace

  // Slot i of from.dir names what moves; slot j of to.dir is where it goes, and names to.ino,
  // which is 0 for a free name.
  ghost predicate Located(s: State, from: Dentry, i: nat, to: Dentry, j: nat) {
    && |to.name| <= NAME_LEN
    && from.dir in s.nodes && to.dir in s.nodes && from.ino in s.nodes && from.ino != 0
    && from.ino != from.dir && from.ino != to.dir
    && SlotAt(s, from.dir, i).ino == from.ino
    && (s.nodes[from.ino].dir ==> |s.nodes[from.ino].slots| >= 2 && s.nodes[from.dir].nlink >= 1)
    && j <= |s.nodes[to.dir].slots| && SlotAt(s, to.dir, j).ino == to.ino && to.ino != from.ino
    && (to.ino != 0 ==>
          && to.ino in s.nodes && s.nodes[to.ino].dir == s.nodes[from.ino].dir
          && to.ino != from.dir && to.ino != to.dir
          && s.nodes[to.ino].nlink >= if s.nodes[from.ino].dir then 2 else 1)
  }

  // A replaced file loses one link and a replaced directory both of its two; the ".." of a moved
  // or replaced directory counts for the parent that holds it.
  function LinksAfterRename(s: State, from: Dentry, to: Dentry, z: nat): int
    requires z in s.nodes && from.ino in s.nodes
  {
    var dir := s.nodes[from.ino].dir;
    s.nodes[z].nlink
    - (if to.ino != 0 && z == to.ino then (if dir then 2 else 1) else 0)
    - (if to.ino != 0 && dir && z == to.dir then 1 else 0)
    + (if dir && z == to.dir then 1 else 0)
    - (if dir && z == from.dir then 1 else 0)
  }

  // The slots of d before the old name is dropped.
  function SlotsWithNew(s: State, from: Dentry, to: Dentry, j: nat, d: nat): seq<Slot>
    requires d in s.nodes && |to.name| <= NAME_LEN && (d == to.dir ==> j <= |s.nodes[d].slots|)
    requires d == to.dir && to.ino != 0 ==> j < |s.nodes[d].slots|
  {
    var slots := s.nodes[d].slots;
    if d != to.dir then slots
    else if to.ino != 0 then slots[j := slots[j].(ino := from.ino)]
    else PutAt(slots, j, Slot(from.ino, Padded(to.name)))
  }

  // All slots of d afterwards.
  function SlotsAfter(s: State, from: Dentry, i: nat, to: Dentry, j: nat, d: nat): seq<Slot>
    requires d in s.nodes && |to.name| <= NAME_LEN && (d == to.dir ==> j <= |s.nodes[d].slots|)
    requires d == to.dir && to.ino != 0 ==> j < |s.nodes[d].slots|
    requires d == from.dir ==> i < |s.nodes[d].slots|
    requires d == from.ino && s.nodes[d].dir ==> 1 < |s.nodes[d].slots|
  {
    var a := SlotsWithNew(s, from, to, j, d);
    var b := if d == from.dir then a[i := a[i].(ino := 0)] else a;
    if d == from.ino && s.nodes[d].dir then b[1 := b[1].(ino := to.dir)] else b
  }

  ghost predicate Renamed(s: State, t: State, from: Dentry, i: nat, to: Dentry, j: nat)
    requires Located(s, from, i, to, j)
  {
    && t.next == s.next && t.nodes.Keys == s.nodes.Keys
    && (forall z :: z in s.nodes ==>
          && t.nodes[z].dir == s.nodes[z].dir
          && t.nodes[z].nlink == LinksAfterRename(s, from, to, z)
          && t.nodes[z].slots == SlotsAfter(s, from, i, to, j, z))
  }

  lemma RenamedUnique(s: State, t: State, u: State, from: Dentry, i: nat, to: Dentry, j: nat)
    requires Located(s, from, i, to, j) && Renamed(s, t, from, i, to, j) && Renamed(s, u, from, i, to, j)
    ensures t == u
  {
    assert t.nodes == u.nodes;
  }

  // The state in which the last part of the code starts.
  function BeforeFinish(s: State, from: Dentry, to: Dentry, j: nat): State
    requires from.ino in s.nodes && to.dir in s.nodes && |to.name| <= NAME_LEN && j <= |s.nodes[to.dir].slots|
    requires to.ino != 0 ==> to.ino in s.nodes && j < |s.nodes[to.dir].slots|
  {
    var dir := s.nodes[from.ino].dir;
    if to.ino == 0 then
      var s1 := Write(s, to.dir, j, Slot(from.ino, Padded(to.name)));
      if dir then Inc(s1, to.dir) else s1
    else
      var s1 := Write(s, to.dir, j, SlotAt(s, to.dir, j).(ino := from.ino));
      Dec(if dir then Dec(s1, to.ino) else s1, to.ino)
  }

  // b is s after the new name was written and the links it changes were counted.
  ghost predicate NewNamed(s: State, b: State, from: Dentry, to: Dentry, j: nat)
    requires from.ino in s.nodes && to.dir in s.nodes && |to.name| <= NAME_LEN && j <= |s.nodes[to.dir].slots|
    requires to.ino != 0 ==> j < |s.nodes[to.dir].slots|
  {
    var dir := s.nodes[from.ino].dir;
    && b.next == s.next && b.nodes.Keys == s.nodes.Keys
    && (forall z :: z in s.nodes ==>
          && b.nodes[z].dir == s.nodes[z].dir
          && b.nodes[z].nlink == s.nodes[z].nlink
                                 + (if to.ino == 0 && dir && z == to.dir then 1 else 0)
                                 - (if to.ino != 0 && z == to.ino then (if dir then 2 else 1) else 0)
          && b.nodes[z].slots == SlotsWithNew(s, from, to, j, z))
  }

  lemma InsertedPoint(s: State, from: Dentry, i: nat, to: Dentry, j: nat)
    requires Located(s, from, i, to, j) && to.ino == 0
    ensures NewNamed(s, BeforeFinish(s, from, to, j), from, to, j)
  {
  }

  lemma ReplacedPoint(s: State, from: Dentry, i: nat, to: Dentry, j: nat)
    requires Located(s, from, i, to, j) && to.ino != 0
    ensures NewNamed(s, BeforeFinish(s, from, to, j), from, to, j)
  {
  }

  // t is b after the old name was dropped and the ".." redirected.
  ghost predicate Finished(b: State, t: State, from: Dentry, i: nat, to: Dentry)
    requires from.dir in b.nodes && from.ino in b.nodes && i < |b.nodes[from.dir].slots|
    requires b.nodes[from.ino].dir ==> |b.nodes[from.ino].slots| >= 2
  {
    var dir := b.nodes[from.ino].dir;
    && t.next == b.next && t.nodes.Keys == b.nodes.Keys
    && (forall z :: z in b.nodes ==>
          && t.nodes[z].dir == b.nodes[z].dir
          && t.nodes[z].nlink == b.nodes[z].nlink - (if dir && z == from.dir then 1 else 0)
          && t.nodes[z].slots ==
               if z == from.dir then b.nodes[z].slots[i := b.nodes[z].slots[i].(ino := 0)]
               else if z == from.ino && dir then b.nodes[z].slots[1 := b.nodes[z].slots[1].(ino := to.dir)]
               else b.nodes[z].slots)
  }

  lemma FinishPoint(b: State, from: Dentry, i: nat, to: Dentry)
    requires from.dir in b.nodes && from.ino in b.nodes && to.dir in b.nodes && i < |b.nodes[from.dir].slots|
    requires from.ino != from.dir
    requires b.nodes[from.ino].dir ==> |b.nodes[from.ino].slots| >= 2 && b.nodes[from.dir].nlink >= 1
    ensures Finished(b, FinishRename(b, from, i, to), from, i, to)
  {
  }

  lemma NewNamedSlots(s: State, b: State, from: Dentry, i: nat, to: Dentry, j: nat)
    requires Located(s, from, i, to, j) && NewNamed(s, b, from, to, j)
    ensures i < |b.nodes[from.dir].slots| && b.nodes[from.ino].dir == s.nodes[from.ino].dir
    ensures b.nodes[from.ino].slots == s.nodes[from.ino].slots
    ensures s.nodes[from.ino].dir ==> b.nodes[from.dir].nlink >= 1
  {
  }

  lemma NamedThenFinished(s: State, b: State, t: State, from: Dentry, i: nat, to: Dentry, j: nat)
    requires Located(s, from, i, to, j) && NewNamed(s, b, from, to, j)
    requires i < |b.nodes[from.dir].slots| && (b.nodes[from.ino].dir ==> |b.nodes[from.ino].slots| >= 2)
    requires Finished(b, t, from, i, to)
    ensures Renamed(s, t, from, i, to, j)
  {
    forall z | z in s.nodes
      ensures t.nodes[z].nlink == LinksAfterRename(s, from, to, z) && t.nodes[z].slots == SlotsAfter(s, from, i, to, j, z)
    {
      LinksOf(s, b, t, from, i, to, j, z);
      SlotsOfOne(s, b, t, from, i, to, j, z);
    }
  }

  lemma LinksOf(s: State, b: State, t: State, from: Dentry, i: nat, to: Dentry, j: nat, z: nat)
    requires Located(s, from, i, to, j) && NewNamed(s, b, from, to, j) && z in s.nodes
    requires i < |b.nodes[from.dir].slots| && (b.nodes[from.ino].dir ==> |b.nodes[from.ino].slots| >= 2)
    requires Finished(b, t, from, i, to)
    ensures t.nodes[z].nlink == LinksAfterRename(s, from, to, z)
  {
  }

  lemma SlotsOfOne(s: State, b: State, t: State, from: Dentry, i: nat, to: Dentry, j: nat, z: nat)
    requires Located(s, from, i, to, j) && NewNamed(s, b, from, to, j) && z in s.nodes
    requires i < |b.nodes[from.dir].slots| && (b.nodes[from.ino].dir ==> |b.nodes[from.ino].slots| >= 2)
    requires Finished(b, t, from, i, to)
    ensures t.nodes[z].slots == SlotsAfter(s, from, i, to, j, z)
  {
    assert b.nodes[z].slots == SlotsWithNew(s, from, to, j, z);
  }

  // What the code computes, for a free name and for an existing one.
  lemma CodeRenames(s: State, from: Dentry, i: nat, to: Dentry, j: nat)
    requires Located(s, from, i, to, j)
    ensures i < |BeforeFinish(s, from, to, j).nodes[from.dir].slots|
    ensures Renamed(s, FinishRename(BeforeFinish(s, from, to, j), from, i, to), from, i, to, j)
  {
    var b := BeforeFinish(s, from, to, j);
    if to.ino == 0 {
      InsertedPoint(s, from, i, to, j);
    } else {
      ReplacedPoint(s, from, i, to, j);
    }
    NewNamedSlots(s, b, from, i, to, j);
    FinishPoint(b, from, i, to);
    NamedThenFinished(s, b, FinishRename(b, from, i, to), from, i, to, j);
  }
}
