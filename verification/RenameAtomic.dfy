/** A rename that succeeds is one update of the directory maps. */
module RenameAtomic {
  import opened Names
  import opened Slots
  import opened Common
  import opened Namespace
  import opened Invariant
  import opened Preservation
  import opened RenameSteps
  import opened Safety

  // The specification: the old name goes, the new name stands for the moved inode, and a moved
  // directory's ".." names the new parent. Nothing about slots, pages or order.
  function MapAfterRename(s: State, from: Dentry, to: Dentry, d: nat): map<RawName, nat>
    requires d in s.nodes && |from.name| <= NAME_LEN && |to.name| <= NAME_LEN
  {
    var m := DirMap(s.nodes[d].slots);
    var without := if d == from.dir then m - {Padded(from.name)} else m;
    var moved := if d == to.dir then without[Padded(to.name) := from.ino] else without;
    if d == from.ino && s.nodes[d].dir then moved[Padded(DOTDOT) := to.dir] else moved
  }

  // What a rename that has found its slots knows of the names in them.
  ghost predicate Ready(s: State, from: Dentry, i: nat, to: Dentry, j: nat) {
    && Located(s, from, i, to, j) && Live(s, from.dir) && Live(s, to.dir) && to.dir != 0
    && ValidName(from.name) && ValidName(to.name) && (from.dir, from.name) != (to.dir, to.name)
    && SlotAt(s, from.dir, i).name == Padded(from.name)
    && (to.ino == 0 ==> forall k: nat :: k < j ==> !Holds(s.nodes[to.dir].slots, Padded(to.name), k))
    && (to.ino != 0 ==> SlotAt(s, to.dir, j).name == Padded(to.name))
    && (s.nodes[from.ino].dir ==> SlotAt(s, from.ino, 1).ino != 0 && SlotAt(s, from.ino, 1).name == Padded(DOTDOT))
  }

  // ---- Slots to maps ----

  lemma MapWithNew(s: State, from: Dentry, i: nat, to: Dentry, j: nat, d: nat)
    requires Ready(s, from, i, to, j) && GoodDirs(s) && Live(s, d)
    ensures DirMap(SlotsWithNew(s, from, to, j, d)) ==
            if d == to.dir then DirMap(s.nodes[d].slots)[Padded(to.name) := from.ino] else DirMap(s.nodes[d].slots)
  {
    assert GoodDir(s, d);
    if d == to.dir {
      if to.ino != 0 {
        UniqueIsFirst(s.nodes[d].slots, j);
        SetLinkIsUpdate(s.nodes[d].slots, j, from.ino);
      } else {
        AddIsInsert(s.nodes[d].slots, j, from.ino, Padded(to.name));
      }
    }
  }

  // In one directory the two names, and the two slots, are different.
  lemma NamesDiffer(s: State, from: Dentry, i: nat, to: Dentry, j: nat)
    requires Ready(s, from, i, to, j) && from.dir == to.dir
    ensures Padded(from.name) != Padded(to.name) && i != j
  {
    if Padded(from.name) == Padded(to.name) {
      PaddedInjective(from.name, to.name);
    }
  }

  lemma InsertThenRemove(m: map<RawName, nat>, a: RawName, b: RawName, x: nat)
    requires a != b
    ensures m[b := x] - {a} == (m - {a})[b := x]
  {
  }

  // The old name is still in its slot, and in no other one.
  lemma OldSlotStays(s: State, from: Dentry, i: nat, to: Dentry, j: nat)
    requires Ready(s, from, i, to, j) && GoodDirs(s)
    ensures var a := SlotsWithNew(s, from, to, j, from.dir);
            && i < |a| && a[i] == SlotAt(s, from.dir, i)
            && forall k: nat :: k != i ==> !Holds(a, Padded(from.name), k)
  {
    assert GoodDir(s, from.dir);
    UniqueIsFirst(s.nodes[from.dir].slots, i);
    if from.dir == to.dir {
      NamesDiffer(s, from, i, to, j);
      forall k: nat | k != i
        ensures !Holds(SlotsWithNew(s, from, to, j, from.dir), Padded(from.name), k)
      {
        assert !Holds(s.nodes[from.dir].slots, Padded(from.name), k);
      }
    }
  }

  lemma MapAfterOld(s: State, from: Dentry, i: nat, to: Dentry, j: nat)
    requires Ready(s, from, i, to, j) && GoodDirs(s)
    ensures DirMap(SlotsAfter(s, from, i, to, j, from.dir)) == MapAfterRename(s, from, to, from.dir)
  {
    var a := SlotsWithNew(s, from, to, j, from.dir);
    MapWithNew(s, from, i, to, j, from.dir);
    OldSlotStays(s, from, i, to, j);
    DeleteIsRemove(a, i);
    if from.dir == to.dir {
      NamesDiffer(s, from, i, to, j);
      InsertThenRemove(DirMap(s.nodes[from.dir].slots), Padded(from.name), Padded(to.name), from.ino);
    }
  }

  lemma MapAfter(s: State, from: Dentry, i: nat, to: Dentry, j: nat, d: nat)
    requires Ready(s, from, i, to, j) && GoodDirs(s) && Live(s, d)
    ensures DirMap(SlotsAfter(s, from, i, to, j, d)) == MapAfterRename(s, from, to, d)
  {
    if d == from.dir {
      MapAfterOld(s, from, i, to, j);
    } else {
      var a := SlotsWithNew(s, from, to, j, d);
      MapWithNew(s, from, i, to, j, d);
      if d == from.ino && s.nodes[d].dir {
        assert GoodDir(s, d);
        UniqueIsFirst(a, 1);
        SetLinkIsUpdate(a, 1, to.dir);
      }
    }
  }

  // ---- The theorem ----

  function OldIndex(s: State, from: Dentry, f: RenameFaults): nat
    requires |from.name| <= NAME_LEN
  {
    FindFrom(SlotsOf(s, from.dir), from.name, f.oldBad, 0)
  }

  function NewIndex(s: State, to: Dentry, f: RenameFaults): nat
    requires |to.name| <= NAME_LEN
  {
    if to.ino != 0 then FindFrom(SlotsOf(s, to.dir), to.name, f.newBad, 0)
    else match SpotFrom(SlotsOf(s, to.dir), to.name, f.add.bad, 0)
         case At(i) => i
         case _ => 0
  }

  ghost predicate Runs(s: State, from: Dentry, to: Dentry, flags: nat, f: RenameFaults)
    requires from.dir in s.nodes && from.ino in s.nodes && to.dir in s.nodes
    requires to.ino == 0 || to.ino in s.nodes
    requires |from.name| <= NAME_LEN && |to.name| <= NAME_LEN
  {
    var i, j := OldIndex(s, from, f), NewIndex(s, to, f);
    && Finds(s, from, f.oldBad)
    && (if to.ino == 0 then Adds(s, to.dir, to.name, f.add) else Finds(s, to, f.newBad))
    && j <= |s.nodes[to.dir].slots| && (to.ino != 0 ==> j < |s.nodes[to.dir].slots|)
    && i < |BeforeFinish(s, from, to, j).nodes[from.dir].slots|
    && Rename(s, from, to, flags, f).state == FinishRename(BeforeFinish(s, from, to, j), from, i, to)
  }

  lemma RunsToFree(s: State, from: Dentry, to: Dentry, flags: nat, f: RenameFaults)
    requires from.dir in s.nodes && from.ino in s.nodes && to.dir in s.nodes && to.ino == 0
    requires |from.name| <= NAME_LEN && |to.name| <= NAME_LEN
    requires Rename(s, from, to, flags, f).err == OK
    ensures Runs(s, from, to, flags, f)
  {
  }

  lemma RunsOverTaken(s: State, from: Dentry, to: Dentry, flags: nat, f: RenameFaults)
    requires from.dir in s.nodes && from.ino in s.nodes && to.dir in s.nodes && to.ino != 0 && to.ino in s.nodes
    requires |from.name| <= NAME_LEN && |to.name| <= NAME_LEN
    requires Rename(s, from, to, flags, f).err == OK
    ensures Runs(s, from, to, flags, f)
  {
  }

  lemma RenameIsReady(s: State, from: Dentry, to: Dentry, flags: nat, f: RenameFaults)
    requires Inv(s) && Legal(s, OpRename(from, to, flags, f))
    requires Finds(s, from, f.oldBad)
    requires if to.ino == 0 then Adds(s, to.dir, to.name, f.add) else Finds(s, to, f.newBad)
    ensures Ready(s, from, OldIndex(s, from, f), to, NewIndex(s, to, f))
  {
    var i, j := OldIndex(s, from, f), NewIndex(s, to, f);
    FoundEntry(s, from, f.oldBad);
    if to.ino == 0 {
      assert GoodDir(s, to.dir);
      SpotIsFirst(s.nodes[to.dir].slots, to.name, f.add.bad);
      LocatedFree(s, from, i, to, j);
    } else {
      FoundEntry(s, to, f.newBad);
      LocatedTaken(s, from, i, to, j);
    }
    if s.nodes[from.ino].dir {
      MovingDir(s, from.dir, i, from.ino);
    }
  }

  lemma LocatedTaken(s: State, from: Dentry, i: nat, to: Dentry, j: nat)
    requires Inv(s) && Entry(s, from.dir, i, from.ino) && Entry(s, to.dir, j, to.ino) && from.ino != to.ino && |to.name| <= NAME_LEN
    requires from.ino in s.nodes && to.ino in s.nodes && s.nodes[to.ino].dir == s.nodes[from.ino].dir
    requires s.nodes[from.ino].dir ==> !Above(s, from.ino, to.dir) && !Above(s, to.ino, from.dir)
    ensures Located(s, from, i, to, j)
  {
    if s.nodes[from.ino].dir {
      IsOverDir(s, from, i, to, j);
    } else {
      ReferredIsLinked(s, to.dir, j, to.ino);
    }
  }

  lemma MovingDir(s: State, d: nat, i: nat, x: nat)
    requires Inv(s) && Entry(s, d, i, x) && x in s.nodes && s.nodes[x].dir
    ensures SlotAt(s, x, 1).ino != 0 && SlotAt(s, x, 1).name == Padded(DOTDOT)
  {
    EntryOfDir(s, d, i, x);
    DotsTaken(s, x);
    assert GoodDir(s, x);
  }

  // t is s after one update of the maps.
  ghost predicate AtomicallyRenamed(s: State, t: State, from: Dentry, to: Dentry)
    requires from.ino in s.nodes && |from.name| <= NAME_LEN && |to.name| <= NAME_LEN
  {
    && t.nodes.Keys == s.nodes.Keys && t.next == s.next
    && (forall z :: z in s.nodes ==> t.nodes[z].dir == s.nodes[z].dir && t.nodes[z].nlink == LinksAfterRename(s, from, to, z))
    && (forall d :: Live(s, d) ==> DirMap(t.nodes[d].slots) == MapAfterRename(s, from, to, d))
    && (forall d :: d in s.nodes && d != from.dir && d != to.dir && d != from.ino ==> t.nodes[d].slots == s.nodes[d].slots)
  }

  lemma RenamedMaps(s: State, t: State, from: Dentry, i: nat, to: Dentry, j: nat)
    requires Ready(s, from, i, to, j) && Renamed(s, t, from, i, to, j) && GoodDirs(s)
    ensures AtomicallyRenamed(s, t, from, to)
  {
    forall d | Live(s, d)
      ensures DirMap(t.nodes[d].slots) == MapAfterRename(s, from, to, d)
    {
      MapAfter(s, from, i, to, j, d);
    }
  }

  // A name the lookup has missed does not change this: the new slot is in front of its slot.
  lemma RenameIsAtomic(s: State, from: Dentry, to: Dentry, flags: nat, f: RenameFaults)
    requires Inv(s) && Legal(s, OpRename(from, to, flags, f))
    ensures var o := Rename(s, from, to, flags, f);
            o.err == OK ==> AtomicallyRenamed(s, o.state, from, to)
  {
    if Rename(s, from, to, flags, f).err == OK {
      if to.ino == 0 {
        RunsToFree(s, from, to, flags, f);
      } else {
        RunsOverTaken(s, from, to, flags, f);
      }
      RunIsAtomic(s, from, to, flags, f);
    }
  }

  lemma RunIsAtomic(s: State, from: Dentry, to: Dentry, flags: nat, f: RenameFaults)
    requires Inv(s) && Legal(s, OpRename(from, to, flags, f)) && Runs(s, from, to, flags, f)
    ensures AtomicallyRenamed(s, Rename(s, from, to, flags, f).state, from, to)
  {
    var i, j := OldIndex(s, from, f), NewIndex(s, to, f);
    RenameIsReady(s, from, to, flags, f);
    CodeRenames(s, from, i, to, j);
    RenamedMaps(s, Rename(s, from, to, flags, f).state, from, i, to, j);
  }
}
