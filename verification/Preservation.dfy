/** Each elementary change of the name space keeps the invariant. */
module Preservation {
  import opened Names
  import opened Slots
  import opened Common
  import opened Namespace
  import opened Invariant
  import opened Sets

  // ---- Facts about one state ----

  lemma {:induction false} UpLive(s: State, x: nat, n: nat)
    requires GoodDirs(s) && Live(s, x)
    ensures Live(s, Up(s, x, n))
    decreases n
  {
    if n > 0 {
      assert Live(s, Parent(s, x));
      UpLive(s, Parent(s, x), n - 1);
    }
  }

  lemma {:induction false} UpAdd(s: State, x: nat, m: nat, n: nat)
    ensures Up(s, x, m + n) == Up(s, Up(s, x, m), n)
    decreases m
  {
    if m > 0 {
      UpAdd(s, Parent(s, x), m - 1, n);
    }
  }

  lemma {:induction false} UpRoot(s: State, n: nat)
    ensures Up(s, ROOT, n) == ROOT
    decreases n
  {
    if n > 0 {
      UpRoot(s, n - 1);
    }
  }

  // A slot that refers to x from a live directory.
  lemma RefsHas(s: State, d: nat, i: nat, x: nat)
    requires Refers(s, d, i, x) && x != 0
    ensures (d, i) in Refs(s, x)
  {
  }

  lemma ReferredIsLinked(s: State, d: nat, i: nat, x: nat)
    requires Numbered(s) && Counted(s) && Refers(s, d, i, x) && x != 0
    ensures x in s.nodes && s.nodes[x].nlink > 0
    ensures s.nodes[x].dir ==> Live(s, x)
  {
    assert SlotAt(s, d, i).ino in s.nodes;
    assert (d, i) in Refs(s, x);
  }

  // The first two slots of a live directory are taken and are never an entry's slot.
  lemma DotsTaken(s: State, d: nat)
    requires GoodDirs(s) && Numbered(s) && Live(s, d) && d != ROOT
    ensures |s.nodes[d].slots| >= 2
    ensures Refers(s, d, 0, d)
    ensures Parent(s, d) == SlotAt(s, d, 1).ino && Live(s, Parent(s, d))
    ensures SlotAt(s, d, 0).ino != 0 && SlotAt(s, d, 1).ino != 0
  {
    assert GoodDir(s, d) && Live(s, Parent(s, d));
  }

  // ---- States with the same live directories ----

  ghost predicate SameDirs(s: State, t: State) {
    && (forall d :: Live(s, d) <==> Live(t, d))
    && (forall d :: Live(s, d) ==> t.nodes[d].slots == s.nodes[d].slots)
  }

  lemma SameRefs(s: State, t: State, x: nat)
    requires SameDirs(s, t)
    ensures Refs(t, x) == Refs(s, x)
  {
    forall d: nat, i: nat
      ensures (d, i) in Refs(s, x) <==> (d, i) in Refs(t, x)
    {
    }
  }

  // The live directories of s have the same parents in t.
  ghost predicate SameParents(s: State, t: State) {
    forall d {:trigger Parent(t, d)} :: Live(s, d) ==> Parent(t, d) == Parent(s, d)
  }

  lemma {:induction false} SameUp(s: State, t: State, x: nat, n: nat)
    requires SameParents(s, t) && GoodDirs(s) && Live(s, x)
    ensures Up(t, x, n) == Up(s, x, n)
    decreases n
  {
    if n > 0 {
      assert Parent(t, x) == Parent(s, x);
      SameUp(s, t, Parent(s, x), n - 1);
    }
  }

  lemma SameShape(s: State, t: State)
    requires SameDirs(s, t) && GoodDirs(s) && Rooted(s)
    ensures GoodDirs(t) && Rooted(t)
  {
    forall d | Live(t, d)
      ensures Live(t, Parent(t, d)) && GoodDir(t, d)
    {
      assert GoodDir(s, d);
      assert Parent(t, d) == Parent(s, d);
    }
    forall x | Live(t, x)
      ensures Above(t, ROOT, x)
    {
      assert Above(s, ROOT, x);
      var n: nat :| Up(s, x, n) == ROOT;
      SameUp(s, t, x, n);
    }
  }

  // The two states agree on which inodes are directories.
  lemma SameTree(s: State, t: State)
    requires SameDirs(s, t) && GoodDirs(s) && Numbered(s) && Counted(s) && Tree(s)
    requires forall x :: x in s.nodes ==> x in t.nodes && t.nodes[x].dir == s.nodes[x].dir
    ensures Tree(t)
  {
    forall d: nat, i: nat, x: nat | Entry(t, d, i, x)
      ensures Entry(s, d, i, x) && x in s.nodes
      ensures s.nodes[x].dir ==> Parent(t, x) == Parent(s, x)
    {
      ReferredIsLinked(s, d, i, x);
    }
    forall x | Live(t, x) && x != ROOT
      ensures exists i: nat :: Entry(t, Parent(t, x), i, x)
    {
      assert Parent(t, x) == Parent(s, x);
      var i: nat :| Entry(s, Parent(s, x), i, x);
      assert Entry(t, Parent(t, x), i, x);
    }
  }

  // ---- An inode that nothing refers to: a tmpfile, or what a failed creation leaves ----

  function Fresh(s: State, dir: bool, slots: seq<Slot>): State {
    State(s.nodes[s.next := Node(dir, 0, slots)], s.next + 1)
  }

  lemma FreshKeeps(s: State, dir: bool, slots: seq<Slot>)
    requires Inv(s)
    requires forall i :: 0 <= i < |slots| && slots[i].ino != 0 ==> slots[i].ino in s.nodes || slots[i].ino == s.next
    ensures Inv(Fresh(s, dir, slots))
    ensures SameDirs(s, Fresh(s, dir, slots))
  {
    var t := Fresh(s, dir, slots);
    assert SameDirs(s, t);
    SameShape(s, t);
    SameTree(s, t);
    assert Numbered(t) by {
      forall d: nat, i: nat
        ensures SlotAt(t, d, i).ino == 0 || SlotAt(t, d, i).ino in t.nodes
      {
        if d in s.nodes {
          assert SlotAt(t, d, i) == SlotAt(s, d, i);
        }
      }
    }
    forall x | x in t.nodes
      ensures Refs(t, x) == Refs(s, x)
    {
      SameRefs(s, t, x);
    }
    NeverReferred(s, s.next);
  }

  lemma NeverReferred(s: State, x: nat)
    requires Numbered(s) && x !in s.nodes && x != 0
    ensures Refs(s, x) == {}
  {
    forall d: nat, i: nat
      ensures (d, i) !in Refs(s, x)
    {
      assert SlotAt(s, d, i).ino == 0 || SlotAt(s, d, i).ino in s.nodes;
    }
  }

  // ---- One slot rewritten ----

  lemma WriteAt(s: State, d: nat, i: nat, slot: Slot)
    requires Live(s, d) && i <= |s.nodes[d].slots|
    ensures var t := Write(s, d, i, slot);
            && (forall e :: Live(t, e) <==> Live(s, e))
            && (forall e: nat, j: nat :: SlotAt(t, e, j) == if (e, j) == (d, i) then slot else SlotAt(s, e, j))
  {
  }

  // t is s with the reference in slot i of d changed; link counts may differ.
  ghost predicate Rewritten(s: State, t: State, d: nat, i: nat, ino: nat) {
    && (forall e :: Live(t, e) <==> Live(s, e))
    && (forall e: nat, j: nat :: SlotAt(t, e, j).ino == if (e, j) == (d, i) then ino else SlotAt(s, e, j).ino)
  }

  // The same inodes, and the same ones of them are directories.
  ghost predicate SameKinds(s: State, t: State) {
    && t.next == s.next && t.nodes.Keys == s.nodes.Keys
    && (forall x :: x in s.nodes ==> t.nodes[x].dir == s.nodes[x].dir)
  }

  // Link counts differ only where delta is not zero.
  ghost predicate Relinked(s: State, t: State, x: nat, delta: int)
    requires SameKinds(s, t)
  {
    forall z :: z in s.nodes ==> t.nodes[z].nlink == s.nodes[z].nlink + if z == x then delta else 0
  }

  lemma RewrittenRefs(s: State, t: State, d: nat, i: nat, ino: nat, x: nat)
    requires Rewritten(s, t, d, i, ino) && Live(s, d) && x != 0
    ensures Refs(t, x) == Refs(s, x) - {(d, i)} + if ino == x then {(d, i)} else {}
  {
    forall e: nat, j: nat
      ensures (e, j) in Refs(t, x) <==> Refers(t, e, j, x)
      ensures (e, j) in Refs(s, x) <==> Refers(s, e, j, x)
    {
    }
  }

  lemma RewrittenNumbered(s: State, t: State, d: nat, i: nat, ino: nat)
    requires Numbered(s) && Rewritten(s, t, d, i, ino) && SameKinds(s, t) && (ino == 0 || ino in s.nodes)
    ensures Numbered(t)
  {
  }

  // Chains of parents that survive when no live directory gets another parent; directories that
  // have just come to life hang below an old one.
  lemma RootedFrom(s: State, t: State)
    requires GoodDirs(s) && Rooted(s) && SameParents(s, t)
    requires forall d {:trigger Parent(t, d)} :: Live(t, d) ==> Live(s, d) || Live(s, Parent(t, d))
    ensures Rooted(t)
  {
    forall x: nat | Live(t, x)
      ensures Above(t, ROOT, x)
    {
      var y := if Live(s, x) then x else Parent(t, x);
      assert Live(s, y);
      assert Above(s, ROOT, y);
      var n: nat :| Up(s, y, n) == ROOT;
      SameUp(s, t, y, n);
      if x != y {
        assert Up(t, x, n + 1) == ROOT;
      }
    }
  }

  // ---- Where a new entry may go ----

  ghost predicate Room(s: State, d: nat, i: nat, raw: RawName) {
    && Live(s, d) && i <= |s.nodes[d].slots| && SlotAt(s, d, i).ino == 0
    && Clean(raw) && raw != Padded(DOT) && raw != Padded(DOTDOT)
    && Absent(s.nodes[d].slots, raw)
  }

  lemma RoomIsEntry(s: State, d: nat, i: nat, raw: RawName)
    requires GoodDirs(s) && Numbered(s) && Room(s, d, i, raw)
    ensures d == ROOT || 2 <= i
  {
    if d != ROOT {
      DotsTaken(s, d);
    }
  }

  lemma InsertClean(slots: seq<Slot>, i: nat, slot: Slot)
    requires AllClean(slots) && i <= |slots| && Clean(slot.name)
    ensures AllClean(PutAt(slots, i, slot))
  {
  }

  lemma InsertAbsent(slots: seq<Slot>, i: nat, slot: Slot, raw: RawName)
    requires Absent(slots, raw) && i <= |slots| && slot.name != raw
    ensures Absent(PutAt(slots, i, slot), raw)
  {
  }

  lemma InsertUnique(slots: seq<Slot>, i: nat, slot: Slot)
    requires Unique(slots) && Absent(slots, slot.name) && i <= |slots| && slot.ino != 0
    ensures Unique(PutAt(slots, i, slot))
  {
  }

  lemma InsertGoodSlots(d: nat, slots: seq<Slot>, i: nat, raw: RawName, x: nat)
    requires GoodSlots(d, slots) && (d == ROOT || 2 <= i) && x != 0
    requires i <= |slots| && (i < |slots| ==> slots[i].ino == 0)
    requires Clean(raw) && raw != Padded(DOT) && raw != Padded(DOTDOT) && Absent(slots, raw)
    ensures GoodSlots(d, PutAt(slots, i, Slot(x, raw)))
  {
    var slot := Slot(x, raw);
    InsertUnique(slots, i, slot);
    InsertClean(slots, i, slot);
    if d == ROOT {
      InsertAbsent(slots, i, slot, Padded(DOT));
      InsertAbsent(slots, i, slot, Padded(DOTDOT));
    }
  }

  lemma RemoveGoodSlots(d: nat, slots: seq<Slot>, i: nat)
    requires GoodSlots(d, slots) && (d == ROOT || 2 <= i) && i < |slots| && slots[i].ino != 0
    ensures GoodSlots(d, slots[i := slots[i].(ino := 0)])
  {
    UniqueIsFirst(slots, i);
    DeleteIsRemove(slots, i);
  }

  lemma RenumberGoodSlots(d: nat, slots: seq<Slot>, parent: nat)
    requires GoodSlots(d, slots) && d != ROOT && slots[1].ino != 0 && parent != 0
    ensures GoodSlots(d, slots[1 := slots[1].(ino := parent)])
  {
    var after := slots[1 := slots[1].(ino := parent)];
    assert forall i :: 0 <= i < |slots| ==> after[i].name == slots[i].name && (after[i].ino != 0 <==> slots[i].ino != 0);
  }

  lemma InsertKeepsGood(s: State, d: nat, i: nat, raw: RawName, x: nat)
    requires GoodDirs(s) && Numbered(s) && Room(s, d, i, raw) && x != 0
    ensures GoodDir(Write(s, d, i, Slot(x, raw)), d)
  {
    RoomIsEntry(s, d, i, raw);
    assert GoodDir(s, d);
    InsertGoodSlots(d, s.nodes[d].slots, i, raw, x);
  }

  lemma RemoveKeepsGood(s: State, d: nat, i: nat)
    requires GoodDirs(s) && Numbered(s) && Live(s, d) && SlotAt(s, d, i).ino != 0 && (d == ROOT || 2 <= i)
    ensures GoodDir(Write(s, d, i, SlotAt(s, d, i).(ino := 0)), d)
  {
    assert GoodDir(s, d);
    RemoveGoodSlots(d, s.nodes[d].slots, i);
  }

  // ---- A name for something that is not a directory appears or disappears ----

  function Attach(s: State, d: nat, i: nat, raw: RawName, x: nat): State
    requires d in s.nodes && x in s.nodes && i <= |s.nodes[d].slots|
  {
    Inc(Write(s, d, i, Slot(x, raw)), x)
  }

  lemma AttachAt(s: State, d: nat, i: nat, raw: RawName, x: nat)
    requires Live(s, d) && i <= |s.nodes[d].slots| && x in s.nodes && !s.nodes[x].dir
    ensures var t := Attach(s, d, i, raw, x);
            && Rewritten(s, t, d, i, x) && SameKinds(s, t) && Relinked(s, t, x, 1)
            && t.nodes[d].slots == Write(s, d, i, Slot(x, raw)).nodes[d].slots
            && (forall e :: e in s.nodes && e != d ==> t.nodes[e].slots == s.nodes[e].slots)
  {
    WriteAt(s, d, i, Slot(x, raw));
  }

  lemma AttachKeeps(s: State, d: nat, i: nat, raw: RawName, x: nat)
    requires Core(s) && Room(s, d, i, raw) && x in s.nodes && !s.nodes[x].dir
    ensures Core(Attach(s, d, i, raw, x))
    ensures Rewritten(s, Attach(s, d, i, raw, x), d, i, x)
  {
    var t := Attach(s, d, i, raw, x);
    AttachAt(s, d, i, raw, x);
    RoomIsEntry(s, d, i, raw);
    assert GoodDir(t, d) by { InsertKeepsGood(s, d, i, raw, x); }
    RewrittenNumbered(s, t, d, i, x);
    FileChangeKeepsShape(s, t, d, i, x);
    FileChangeKeepsTree(s, t, d, i, x);
    AttachCounted(s, t, d, i, x);
  }

  lemma AttachCounted(s: State, t: State, d: nat, i: nat, x: nat)
    requires Counted(s) && Rewritten(s, t, d, i, x) && Live(s, d) && SlotAt(s, d, i).ino == 0 && 0 !in s.nodes
    requires x in s.nodes && SameKinds(s, t) && Relinked(s, t, x, 1)
    ensures Counted(t)
  {
    forall z | z in t.nodes
      ensures t.nodes[z].nlink == |Refs(t, z)| + if z == ROOT then 2 else 0
    {
      RewrittenRefs(s, t, d, i, x, z);
      assert (d, i) !in Refs(s, z);
    }
  }

  function Detach(s: State, d: nat, i: nat): State
    requires d in s.nodes && SlotAt(s, d, i).ino in s.nodes && SlotAt(s, d, i).ino != 0
  {
    Dec(Write(s, d, i, SlotAt(s, d, i).(ino := 0)), SlotAt(s, d, i).ino)
  }

  lemma DetachAt(s: State, d: nat, i: nat, x: nat)
    requires Refers(s, d, i, x) && x in s.nodes && x != 0 && !s.nodes[x].dir && s.nodes[x].nlink > 0
    ensures var t := Detach(s, d, i);
            && Rewritten(s, t, d, i, 0) && SameKinds(s, t) && Relinked(s, t, x, -1)
            && t.nodes[d].slots == Write(s, d, i, SlotAt(s, d, i).(ino := 0)).nodes[d].slots
            && (forall e :: e in s.nodes && e != d ==> t.nodes[e].slots == s.nodes[e].slots)
  {
    WriteAt(s, d, i, SlotAt(s, d, i).(ino := 0));
  }

  lemma DetachKeeps(s: State, d: nat, i: nat, x: nat)
    requires Core(s) && Entry(s, d, i, x) && x in s.nodes && !s.nodes[x].dir
    ensures Core(Detach(s, d, i))
    ensures Rewritten(s, Detach(s, d, i), d, i, 0)
  {
    var t := Detach(s, d, i);
    ReferredIsLinked(s, d, i, x);
    DetachAt(s, d, i, x);
    assert GoodDir(t, d) by { RemoveKeepsGood(s, d, i); }
    RewrittenNumbered(s, t, d, i, 0);
    FileChangeKeepsShape(s, t, d, i, 0);
    FileChangeKeepsTree(s, t, d, i, 0);
    DetachCounted(s, t, d, i, x);
  }

  lemma DetachCounted(s: State, t: State, d: nat, i: nat, x: nat)
    requires Counted(s) && Rewritten(s, t, d, i, 0) && Refers(s, d, i, x) && x != 0 && 0 !in s.nodes
    requires x in s.nodes && SameKinds(s, t) && Relinked(s, t, x, -1)
    ensures Counted(t)
  {
    forall z | z in t.nodes
      ensures t.nodes[z].nlink == |Refs(t, z)| + if z == ROOT then 2 else 0
    {
      RewrittenRefs(s, t, d, i, 0, z);
      assert (d, i) in Refs(s, z) <==> z == x;
    }
  }

  lemma FileChangeKeepsShape(s: State, t: State, d: nat, i: nat, ino: nat)
    requires GoodDirs(s) && Rooted(s) && Rewritten(s, t, d, i, ino) && Live(s, d) && (d == ROOT || 2 <= i)
    requires d in t.nodes && GoodDir(t, d) && SameKinds(s, t)
    requires forall e :: e in s.nodes && e != d ==> t.nodes[e].slots == s.nodes[e].slots
    ensures GoodDirs(t)
    ensures Rooted(t)
  {
    forall e
      ensures Parent(t, e) == Parent(s, e)
      ensures Live(t, e) ==> Live(t, Parent(t, e)) && GoodDir(t, e)
    {
      if Live(s, e) {
        assert GoodDir(s, e) && Live(s, Parent(s, e));
      }
    }
    RootedFrom(s, t);
  }

  lemma FileChangeKeepsTree(s: State, t: State, d: nat, i: nat, ino: nat)
    requires Tree(s) && Rewritten(s, t, d, i, ino) && (d == ROOT || 2 <= i)
    requires ino != 0 ==> ino in s.nodes && !s.nodes[ino].dir
    requires SlotAt(s, d, i).ino != 0 ==> SlotAt(s, d, i).ino in s.nodes && !s.nodes[SlotAt(s, d, i).ino].dir
    requires SameKinds(s, t)
    ensures Tree(t)
  {
    forall e: nat, j: nat, x: nat | Entry(t, e, j, x) && x in t.nodes && t.nodes[x].dir
      ensures Entry(s, e, j, x) && Parent(t, x) == Parent(s, x)
    {
    }
    forall x | Live(t, x) && x != ROOT
      ensures exists j: nat :: Entry(t, Parent(t, x), j, x)
    {
      assert Parent(t, x) == Parent(s, x);
      var j: nat :| Entry(s, Parent(s, x), j, x);
      assert Entry(t, Parent(t, x), j, x);
    }
  }

  // ---- A directory appears ----

  // x is a dead directory that already has its two dot slots.
  function AttachDir(s: State, d: nat, i: nat, raw: RawName, x: nat): State
    requires d in s.nodes && x in s.nodes && i <= |s.nodes[d].slots| && x != d
  {
    Write(Inc(Inc(Inc(s, x), x), d), d, i, Slot(x, raw))
  }

  ghost predicate NewDir(s: State, d: nat, x: nat) {
    x in s.nodes && s.nodes[x].dir && s.nodes[x].nlink == 0 && s.nodes[x].slots == DotSlots(x, d) && x != ROOT && x != 0
  }

  // t is s with x come to life below d.
  ghost predicate Grown(s: State, t: State, d: nat, i: nat, x: nat) {
    && SameKinds(s, t)
    && (forall e :: Live(t, e) <==> Live(s, e) || e == x)
    && (forall e: nat, j: nat :: SlotAt(t, e, j).ino == if (e, j) == (d, i) then x else SlotAt(s, e, j).ino)
    && (forall z :: z in s.nodes ==>
          t.nodes[z].nlink == if z == x then 2 else if z == d then s.nodes[z].nlink + 1 else s.nodes[z].nlink)
  }

  lemma AttachDirAt(s: State, d: nat, i: nat, raw: RawName, x: nat)
    requires Live(s, d) && i <= |s.nodes[d].slots| && NewDir(s, d, x)
    ensures var t := AttachDir(s, d, i, raw, x);
            && Grown(s, t, d, i, x)
            && t.nodes[d].slots == Write(s, d, i, Slot(x, raw)).nodes[d].slots
            && (forall e :: e in s.nodes && e != d ==> t.nodes[e].slots == s.nodes[e].slots)
  {
  }

  lemma DeadIsUnreferred(s: State, x: nat)
    requires Counted(s) && x in s.nodes && x != ROOT && s.nodes[x].nlink == 0
    ensures Refs(s, x) == {}
    ensures forall e: nat, j: nat :: !Refers(s, e, j, x) || x == 0
  {
    forall e: nat, j: nat | Refers(s, e, j, x) && x != 0
      ensures false
    {
      RefsHas(s, e, j, x);
    }
  }

  lemma GrownCounted(s: State, t: State, d: nat, i: nat, x: nat)
    requires Counted(s) && Numbered(s) && NewDir(s, d, x) && Grown(s, t, d, i, x)
    requires Live(s, d) && SlotAt(s, d, i).ino == 0
    ensures Counted(t)
  {
    DeadIsUnreferred(s, x);
    forall z | z in t.nodes
      ensures t.nodes[z].nlink == |Refs(t, z)| + if z == ROOT then 2 else 0
    {
      GrownRefs(s, t, d, i, x, z);
      assert (x, 1) !in Refs(s, z) && (d, i) !in Refs(s, z);
    }
  }

  lemma GrownRefs(s: State, t: State, d: nat, i: nat, x: nat, z: nat)
    requires NewDir(s, d, x) && Grown(s, t, d, i, x) && Live(s, d) && z != 0
    requires SlotAt(s, d, i).ino == 0
    requires forall e: nat, j: nat :: !Refers(s, e, j, x)
    ensures Refs(t, z) == if z == x then {(x, 0), (d, i)} else if z == d then Refs(s, z) + {(x, 1)} else Refs(s, z)
  {
    forall e: nat, j: nat
      ensures (e, j) in Refs(t, z) <==> Refers(t, e, j, z)
      ensures (e, j) in Refs(s, z) <==> Refers(s, e, j, z)
      ensures Refers(t, e, j, z) <==> Refers(s, e, j, z) || (z == x && (e, j) in {(x, 0), (d, i)}) || (z == d && (e, j) == (x, 1))
    {
      if e == x && j >= 2 {
        assert SlotAt(s, x, j) == BLANK;
      }
    }
  }

  // The only new entry is the one for x.
  lemma GrownEntry(s: State, t: State, d: nat, i: nat, x: nat, e: nat, j: nat, z: nat)
    requires NewDir(s, d, x) && Grown(s, t, d, i, x) && Live(s, d) && (d == ROOT || 2 <= i)
    requires forall e: nat, j: nat :: !Refers(s, e, j, x)
    ensures Entry(t, e, j, z) && (e, j, z) != (d, i, x) ==> Entry(s, e, j, z) && z != x
    ensures Entry(s, e, j, z) && (e, j) != (d, i) ==> Entry(t, e, j, z)
    ensures Parent(t, z) == Parent(s, z)
  {
    assert !Refers(s, e, j, x);
    if e == x && j >= 2 {
      assert SlotAt(s, x, j) == BLANK;
    }
  }

  lemma GrownTree(s: State, t: State, d: nat, i: nat, x: nat)
    requires Tree(s) && Counted(s) && Numbered(t) && NewDir(s, d, x) && Grown(s, t, d, i, x)
    requires Live(s, d) && (d == ROOT || 2 <= i) && SlotAt(s, d, i).ino == 0
    ensures Tree(t)
  {
    DeadIsUnreferred(s, x);
    assert FromParent(t) by {
      forall e: nat, j: nat, z: nat | Entry(t, e, j, z) && t.nodes[z].dir
        ensures z != ROOT && Parent(t, z) == e
      {
        GrownEntry(s, t, d, i, x, e, j, z);
      }
    }
    assert Once(t) by {
      forall e: nat, j: nat, k: nat, z: nat | Entry(t, e, j, z) && Entry(t, e, k, z) && t.nodes[z].dir
        ensures j == k
      {
        GrownEntry(s, t, d, i, x, e, j, z);
        GrownEntry(s, t, d, i, x, e, k, z);
      }
    }
    assert Entered(t) by {
      forall z: nat | Live(t, z) && z != ROOT
        ensures exists j: nat :: Entry(t, Parent(t, z), j, z)
      {
        GrownEntered(s, t, d, i, x, z);
      }
    }
  }

  lemma GrownEntered(s: State, t: State, d: nat, i: nat, x: nat, z: nat)
    requires Entered(s) && NewDir(s, d, x) && Grown(s, t, d, i, x) && Live(t, z) && z != ROOT
    requires forall e: nat, j: nat :: !Refers(s, e, j, x)
    requires Live(s, d) && (d == ROOT || 2 <= i) && SlotAt(s, d, i).ino == 0
    ensures exists j: nat :: Entry(t, Parent(t, z), j, z)
  {
    if z == x {
      assert Entry(t, d, i, x);
      GrownEntry(s, t, d, i, x, d, i, x);
    } else {
      GrownEntry(s, t, d, i, x, z, 0, z);
      assert Parent(t, z) == Parent(s, z);
      var j: nat :| Entry(s, Parent(s, z), j, z);
      GrownEntry(s, t, d, i, x, Parent(s, z), j, z);
      assert Entry(t, Parent(t, z), j, z);
    }
  }

  lemma GrownShape(s: State, t: State, d: nat, i: nat, x: nat)
    requires GoodDirs(s) && Rooted(s) && NewDir(s, d, x) && Grown(s, t, d, i, x)
    requires Live(s, d) && (d == ROOT || 2 <= i) && SlotAt(s, d, i).ino == 0
    requires d in t.nodes && GoodDir(t, d)
    requires forall e :: e in s.nodes && e != d ==> t.nodes[e].slots == s.nodes[e].slots
    ensures GoodDirs(t) && Rooted(t)
  {
    PaddedRoundTrip(DOT);
    PaddedRoundTrip(DOTDOT);
    assert Padded(DOT) != Padded(DOTDOT);
    assert GoodDir(t, x);
    forall e
      ensures e != x ==> Parent(t, e) == Parent(s, e)
      ensures Live(t, e) ==> Live(t, Parent(t, e)) && GoodDir(t, e)
    {
      if Live(s, e) {
        assert GoodDir(s, e) && Live(s, Parent(s, e));
      }
    }
    RootedFrom(s, t);
  }

  lemma AttachDirKeeps(s: State, d: nat, i: nat, raw: RawName, x: nat)
    requires Core(s) && Room(s, d, i, raw) && NewDir(s, d, x)
    ensures Core(AttachDir(s, d, i, raw, x))
    ensures Grown(s, AttachDir(s, d, i, raw, x), d, i, x)
  {
    var t := AttachDir(s, d, i, raw, x);
    AttachDirAt(s, d, i, raw, x);
    RoomIsEntry(s, d, i, raw);
    assert GoodDir(t, d) by { InsertKeepsGood(s, d, i, raw, x); }
    GrownShape(s, t, d, i, x);
    GrownTree(s, t, d, i, x);
    GrownCounted(s, t, d, i, x);
  }

  // ---- An empty directory disappears ----

  ghost predicate EmptyDir(s: State, x: nat) {
    forall j: nat {:trigger SlotAt(s, x, j)} :: 2 <= j ==> SlotAt(s, x, j).ino == 0
  }

  function DetachDir(s: State, p: nat, i: nat): State
    requires p in s.nodes && SlotAt(s, p, i).ino in s.nodes && SlotAt(s, p, i).ino != 0
  {
    var x := SlotAt(s, p, i).ino;
    Dec(Dec(Dec(Write(s, p, i, SlotAt(s, p, i).(ino := 0)), x), p), x)
  }

  // t is s without the directory x, whose only entry was slot i of p.
  ghost predicate Pruned(s: State, t: State, p: nat, i: nat, x: nat) {
    && SameKinds(s, t)
    && (forall e :: Live(t, e) <==> Live(s, e) && e != x)
    && (forall e: nat, j: nat :: SlotAt(t, e, j).ino == if (e, j) == (p, i) then 0 else SlotAt(s, e, j).ino)
    && (forall z :: z in s.nodes ==>
          t.nodes[z].nlink == if z == x then 0 else if z == p then s.nodes[z].nlink - 1 else s.nodes[z].nlink)
  }

  lemma {:induction false} StuckBelow(s: State, x: nat, n: nat)
    requires Parent(s, x) == x
    ensures Up(s, x, n) == x
    decreases n
  {
    if n > 0 {
      StuckBelow(s, x, n - 1);
    }
  }

  lemma NotOwnParent(s: State, x: nat)
    requires Rooted(s) && Live(s, x) && x != ROOT
    ensures Parent(s, x) != x
  {
    assert Above(s, ROOT, x);
    var n: nat :| Up(s, x, n) == ROOT;
    if Parent(s, x) == x {
      StuckBelow(s, x, n);
    }
  }

  // Entries of directories: who holds them, and that holder and held differ.
  lemma EntryOfDir(s: State, p: nat, i: nat, x: nat)
    requires Core(s) && Entry(s, p, i, x) && x in s.nodes && s.nodes[x].dir
    ensures Live(s, x) && x != ROOT && Parent(s, x) == p && p != x
    ensures Refers(s, x, 1, p)
    ensures p != ROOT ==> i >= 2
  {
    ReferredIsLinked(s, p, i, x);
    NotOwnParent(s, x);
  }

  // A subdirectory shows up among its parent's slots.
  lemma ChildIsSeen(s: State, e: nat)
    requires GoodDirs(s) && Entered(s) && Live(s, e) && e != ROOT && Parent(s, e) != ROOT
    ensures !EmptyDir(s, Parent(s, e))
  {
    var k: nat :| Entry(s, Parent(s, e), k, e);
    assert SlotAt(s, Parent(s, e), k).ino != 0;
  }

  lemma NoChildren(s: State, x: nat)
    requires GoodDirs(s) && Entered(s) && x != ROOT && EmptyDir(s, x)
    ensures forall e {:trigger Parent(s, e)} :: Live(s, e) && e != ROOT ==> Parent(s, e) != x
  {
    forall e: nat | Live(s, e) && e != ROOT
      ensures Parent(s, e) != x
    {
      if Parent(s, e) != ROOT {
        ChildIsSeen(s, e);
      }
    }
  }

  // An empty directory is referred to by its "." and by its entry, and by nothing else.
  lemma EmptyDirRefs(s: State, p: nat, i: nat, x: nat)
    requires Core(s) && Entry(s, p, i, x) && x in s.nodes && s.nodes[x].dir && EmptyDir(s, x)
    ensures Refs(s, x) == {(x, 0), (p, i)}
  {
    EntryOfDir(s, p, i, x);
    DotsTaken(s, x);
    NoChildren(s, x);
    forall e: nat, j: nat | Refers(s, e, j, x)
      ensures (e, j) in {(x, 0), (p, i)}
    {
      if e == ROOT || 2 <= j {
        assert Entry(s, e, j, x);
        assert Parent(s, x) == e;
        assert Entry(s, p, j, x);
      } else {
        DotsTaken(s, e);
        assert Parent(s, e) != x;
        assert j == 0;
      }
    }
    RefsHas(s, x, 0, x);
    RefsHas(s, p, i, x);
    forall e: nat, j: nat
      ensures (e, j) in Refs(s, x) <==> (e, j) in {(x, 0), (p, i)}
    {
    }
  }

  // A directory with a subdirectory counts at least two links.
  lemma ParentLinks(s: State, p: nat, x: nat)
    requires Core(s) && Live(s, p) && Refers(s, x, 1, p) && x != p
    ensures s.nodes[p].nlink >= 2
  {
    RefsHas(s, x, 1, p);
    if p != ROOT {
      DotsTaken(s, p);
      RefsHas(s, p, 0, p);
      assert {(x, 1), (p, 0)} <= Refs(s, p);
      SubsetSize({(x, 1), (p, 0)}, Refs(s, p));
    }
  }

  // Everything the removal of the empty directory x, held by slot i of p, rests on.
  ghost predicate Victim(s: State, p: nat, i: nat, x: nat) {
    && Live(s, p) && Live(s, x) && x != ROOT && x != 0 && p != x
    && SlotAt(s, p, i).ino == x && (p == ROOT || 2 <= i)
    && SlotAt(s, x, 0).ino == x && SlotAt(s, x, 1).ino == p && EmptyDir(s, x)
    && Refs(s, x) == {(x, 0), (p, i)}
    && s.nodes[x].nlink == 2 && s.nodes[p].nlink >= 2
    && (forall e {:trigger Parent(s, e)} :: Live(s, e) && e != ROOT ==> Parent(s, e) != x)
  }

  lemma IsVictim(s: State, p: nat, i: nat, x: nat)
    requires Core(s) && Entry(s, p, i, x) && x in s.nodes && s.nodes[x].dir && EmptyDir(s, x)
    ensures Victim(s, p, i, x)
  {
    EntryOfDir(s, p, i, x);
    EmptyDirRefs(s, p, i, x);
    assert (x, 0) != (p, i);
    DotsTaken(s, x);
    ParentLinks(s, p, x);
    NoChildren(s, x);
  }

  lemma DetachDirAt(s: State, p: nat, i: nat, x: nat)
    requires Victim(s, p, i, x)
    ensures var t := DetachDir(s, p, i);
            && Pruned(s, t, p, i, x)
            && t.nodes[p].slots == Write(s, p, i, SlotAt(s, p, i).(ino := 0)).nodes[p].slots
            && (forall e :: e in s.nodes && e != p ==> t.nodes[e].slots == s.nodes[e].slots)
  {
  }

  lemma PrunedRefs(s: State, t: State, p: nat, i: nat, x: nat, z: nat)
    requires Victim(s, p, i, x) && Pruned(s, t, p, i, x) && z != 0
    ensures Refs(t, z) == if z == x then {} else Refs(s, z) - {(x, 1)}
  {
    forall e: nat, j: nat
      ensures (e, j) in Refs(t, z) <==> Refers(t, e, j, z)
      ensures (e, j) in Refs(s, z) <==> Refers(s, e, j, z)
      ensures Refers(t, e, j, z) <==> z != x && Refers(s, e, j, z) && (e, j) != (x, 1)
    {
      assert (e, j) in Refs(s, x) <==> (e, j) in {(x, 0), (p, i)};
      if e == x && j >= 2 {
        assert SlotAt(s, x, j).ino == 0;
      }
    }
  }

  lemma PrunedCounted(s: State, t: State, p: nat, i: nat, x: nat)
    requires Counted(s) && 0 !in s.nodes && Victim(s, p, i, x) && Pruned(s, t, p, i, x)
    ensures Counted(t)
  {
    RefsHas(s, x, 1, p);
    forall z | z in t.nodes
      ensures t.nodes[z].nlink == |Refs(t, z)| + if z == ROOT then 2 else 0
    {
      PrunedRefs(s, t, p, i, x, z);
      assert (x, 1) in Refs(s, z) <==> z == p;
    }
  }

  lemma PrunedEntry(s: State, t: State, p: nat, i: nat, x: nat, e: nat, j: nat, z: nat)
    requires Victim(s, p, i, x) && Pruned(s, t, p, i, x)
    ensures Entry(t, e, j, z) ==> Entry(s, e, j, z)
    ensures Entry(s, e, j, z) && z != x && e != x ==> Entry(t, e, j, z)
    ensures Parent(t, z) == Parent(s, z)
  {
  }

  lemma PrunedTree(s: State, t: State, p: nat, i: nat, x: nat)
    requires Tree(s) && Numbered(t) && Victim(s, p, i, x) && Pruned(s, t, p, i, x)
    ensures Tree(t)
  {
    forall e: nat, j: nat, z: nat | Entry(t, e, j, z)
      ensures Entry(s, e, j, z)
      ensures Parent(t, z) == Parent(s, z)
    {
      PrunedEntry(s, t, p, i, x, e, j, z);
    }
    assert FromParent(t) && Once(t);
    forall z: nat | Live(t, z) && z != ROOT
      ensures exists j: nat :: Entry(t, Parent(t, z), j, z)
    {
      assert Parent(t, z) == Parent(s, z);
      var j: nat :| Entry(s, Parent(s, z), j, z);
      PrunedEntry(s, t, p, i, x, Parent(s, z), j, z);
      assert Entry(t, Parent(t, z), j, z);
    }
  }

  lemma PrunedShape(s: State, t: State, p: nat, i: nat, x: nat)
    requires GoodDirs(s) && Rooted(s) && Victim(s, p, i, x) && Pruned(s, t, p, i, x)
    requires p in t.nodes && GoodDir(t, p)
    requires forall e :: e in s.nodes && e != p ==> t.nodes[e].slots == s.nodes[e].slots
    ensures GoodDirs(t) && Rooted(t)
  {
    forall e
      ensures Parent(t, e) == Parent(s, e)
      ensures Live(t, e) ==> Live(t, Parent(t, e)) && GoodDir(t, e)
    {
      if Live(s, e) {
        assert GoodDir(s, e) && Live(s, Parent(s, e));
      }
    }
    RootedFrom(s, t);
  }

  lemma DetachDirKeeps(s: State, p: nat, i: nat, x: nat)
    requires Core(s) && Entry(s, p, i, x) && x in s.nodes && s.nodes[x].dir && EmptyDir(s, x)
    ensures Core(DetachDir(s, p, i))
    ensures Pruned(s, DetachDir(s, p, i), p, i, x)
  {
    var t := DetachDir(s, p, i);
    IsVictim(s, p, i, x);
    DetachDirAt(s, p, i, x);
    assert GoodDir(t, p) by { RemoveKeepsGood(s, p, i); }
    PrunedShape(s, t, p, i, x);
    PrunedTree(s, t, p, i, x);
    PrunedCounted(s, t, p, i, x);
  }

  // ---- A directory changes its place ----

  function MoveDir(s: State, od: nat, oi: nat, nd: nat, ni: nat, raw: RawName): State
    requires od in s.nodes && nd in s.nodes && SlotAt(s, od, oi).ino in s.nodes && SlotAt(s, od, oi).ino != 0
    requires ni <= |s.nodes[nd].slots| && |s.nodes[SlotAt(s, od, oi).ino].slots| >= 2
  {
    var x := SlotAt(s, od, oi).ino;
    var s1 := Inc(Write(s, nd, ni, Slot(x, raw)), nd);
    var s2 := Write(s1, od, oi, SlotAt(s1, od, oi).(ino := 0));
    Dec(Write(s2, x, 1, SlotAt(s2, x, 1).(ino := nd)), od)
  }

  ghost predicate Movable(s: State, od: nat, oi: nat, nd: nat, ni: nat, x: nat) {
    && Live(s, od) && Live(s, nd) && Live(s, x) && x != ROOT && x != 0 && x != od && x != nd
    && SlotAt(s, od, oi).ino == x && (od == ROOT || 2 <= oi)
    && ni <= |s.nodes[nd].slots| && SlotAt(s, nd, ni).ino == 0 && (nd == ROOT || 2 <= ni)
    && |s.nodes[x].slots| >= 2 && SlotAt(s, x, 1).ino == od
    && s.nodes[od].nlink >= 2
  }

  // t is s with the directory x moved from slot oi of od to slot ni of nd.
  ghost predicate Moved(s: State, t: State, od: nat, oi: nat, nd: nat, ni: nat, x: nat) {
    && SameKinds(s, t)
    && (forall e :: Live(t, e) <==> Live(s, e))
    && (forall e: nat, j: nat :: SlotAt(t, e, j).ino ==
          if (e, j) == (nd, ni) then x else if (e, j) == (od, oi) then 0 else if (e, j) == (x, 1) then nd else SlotAt(s, e, j).ino)
    && (forall z :: z in s.nodes ==>
          t.nodes[z].nlink == s.nodes[z].nlink + (if z == nd then 1 else 0) - (if z == od then 1 else 0))
  }

  lemma IsMovable(s: State, od: nat, oi: nat, nd: nat, ni: nat, raw: RawName, x: nat)
    requires Core(s) && Entry(s, od, oi, x) && x in s.nodes && s.nodes[x].dir
    requires Room(s, nd, ni, raw) && !Above(s, x, nd)
    ensures Movable(s, od, oi, nd, ni, x)
  {
    EntryOfDir(s, od, oi, x);
    RoomIsEntry(s, nd, ni, raw);
    DotsTaken(s, x);
    ParentLinks(s, od, x);
    assert Up(s, nd, 0) == nd;
  }

  lemma MoveDirSlots(s: State, od: nat, oi: nat, nd: nat, ni: nat, raw: RawName, x: nat)
    requires Movable(s, od, oi, nd, ni, x)
    ensures var t := MoveDir(s, od, oi, nd, ni, raw);
            var inserted := PutAt(s.nodes[nd].slots, ni, Slot(x, raw));
            && t.nodes.Keys == s.nodes.Keys
            && (od == nd ==> t.nodes[nd].slots == inserted[oi := inserted[oi].(ino := 0)])
            && (od != nd ==> t.nodes[nd].slots == inserted)
            && (od != nd ==> t.nodes[od].slots == s.nodes[od].slots[oi := s.nodes[od].slots[oi].(ino := 0)])
            && t.nodes[x].slots == s.nodes[x].slots[1 := s.nodes[x].slots[1].(ino := nd)]
            && (forall e :: e in s.nodes && e != od && e != nd && e != x ==> t.nodes[e].slots == s.nodes[e].slots)
  {
  }

  lemma MoveDirLinks(s: State, od: nat, oi: nat, nd: nat, ni: nat, raw: RawName, x: nat)
    requires Movable(s, od, oi, nd, ni, x)
    ensures var t := MoveDir(s, od, oi, nd, ni, raw);
            && SameKinds(s, t)
            && (forall z :: z in s.nodes ==>
                  t.nodes[z].nlink == s.nodes[z].nlink + (if z == nd then 1 else 0) - (if z == od then 1 else 0))
  {
  }

  lemma MoveDirAt(s: State, od: nat, oi: nat, nd: nat, ni: nat, raw: RawName, x: nat)
    requires Movable(s, od, oi, nd, ni, x)
    ensures Moved(s, MoveDir(s, od, oi, nd, ni, raw), od, oi, nd, ni, x)
  {
    var t := MoveDir(s, od, oi, nd, ni, raw);
    MoveDirLinks(s, od, oi, nd, ni, raw, x);
    MoveDirSlots(s, od, oi, nd, ni, raw, x);
    MovedSlots(s, t, od, oi, nd, ni, raw, x);
  }

  // From whole slot sequences to single slots.
  lemma MovedSlots(s: State, t: State, od: nat, oi: nat, nd: nat, ni: nat, raw: RawName, x: nat)
    requires Movable(s, od, oi, nd, ni, x) && t.nodes.Keys == s.nodes.Keys
    requires var inserted := PutAt(s.nodes[nd].slots, ni, Slot(x, raw));
             && (od == nd ==> t.nodes[nd].slots == inserted[oi := inserted[oi].(ino := 0)])
             && (od != nd ==> t.nodes[nd].slots == inserted)
             && (od != nd ==> t.nodes[od].slots == s.nodes[od].slots[oi := s.nodes[od].slots[oi].(ino := 0)])
             && t.nodes[x].slots == s.nodes[x].slots[1 := s.nodes[x].slots[1].(ino := nd)]
             && (forall e :: e in s.nodes && e != od && e != nd && e != x ==> t.nodes[e].slots == s.nodes[e].slots)
    ensures forall e: nat, j: nat :: SlotAt(t, e, j).ino ==
              if (e, j) == (nd, ni) then x else if (e, j) == (od, oi) then 0 else if (e, j) == (x, 1) then nd else SlotAt(s, e, j).ino
  {
  }

  lemma MoveDirGoodNew(s: State, od: nat, oi: nat, nd: nat, ni: nat, raw: RawName, x: nat)
    requires GoodDirs(s) && Numbered(s) && Movable(s, od, oi, nd, ni, x) && Room(s, nd, ni, raw)
    ensures GoodDir(MoveDir(s, od, oi, nd, ni, raw), nd)
  {
    MoveDirSlots(s, od, oi, nd, ni, raw, x);
    var inserted := PutAt(s.nodes[nd].slots, ni, Slot(x, raw));
    assert GoodDir(s, nd);
    InsertGoodSlots(nd, s.nodes[nd].slots, ni, raw, x);
    if od == nd {
      RemoveGoodSlots(nd, inserted, oi);
    }
  }

  lemma MoveDirGoodOld(s: State, od: nat, oi: nat, nd: nat, ni: nat, raw: RawName, x: nat)
    requires GoodDirs(s) && Numbered(s) && Movable(s, od, oi, nd, ni, x) && od != nd
    ensures GoodDir(MoveDir(s, od, oi, nd, ni, raw), od)
  {
    MoveDirSlots(s, od, oi, nd, ni, raw, x);
    assert GoodDir(s, od);
    RemoveGoodSlots(od, s.nodes[od].slots, oi);
  }

  lemma MoveDirGoodSelf(s: State, od: nat, oi: nat, nd: nat, ni: nat, raw: RawName, x: nat)
    requires GoodDirs(s) && Numbered(s) && Movable(s, od, oi, nd, ni, x)
    ensures GoodDir(MoveDir(s, od, oi, nd, ni, raw), x)
  {
    MoveDirSlots(s, od, oi, nd, ni, raw, x);
    assert GoodDir(s, x);
    RenumberGoodSlots(x, s.nodes[x].slots, nd);
  }

  // Every directory stays well-formed: the one that gains the entry, the one that loses it
  // (perhaps the same), and the moved one with its redirected "..".
  lemma MoveDirGood(s: State, od: nat, oi: nat, nd: nat, ni: nat, raw: RawName, x: nat)
    requires GoodDirs(s) && Numbered(s) && Movable(s, od, oi, nd, ni, x) && Room(s, nd, ni, raw)
    ensures var t := MoveDir(s, od, oi, nd, ni, raw);
            forall e :: Live(s, e) ==> e in t.nodes && GoodDir(t, e)
  {
    var t := MoveDir(s, od, oi, nd, ni, raw);
    MoveDirSlots(s, od, oi, nd, ni, raw, x);
    forall e | Live(s, e)
      ensures e in t.nodes && GoodDir(t, e)
    {
      if e == nd {
        MoveDirGoodNew(s, od, oi, nd, ni, raw, x);
      } else if e == od {
        MoveDirGoodOld(s, od, oi, nd, ni, raw, x);
      } else if e == x {
        MoveDirGoodSelf(s, od, oi, nd, ni, raw, x);
      } else {
        assert GoodDir(s, e) && t.nodes[e].slots == s.nodes[e].slots;
      }
    }
  }

  lemma MovedRefs(s: State, t: State, od: nat, oi: nat, nd: nat, ni: nat, x: nat, z: nat)
    requires Movable(s, od, oi, nd, ni, x) && Moved(s, t, od, oi, nd, ni, x) && z != 0
    ensures Refs(t, z) == Refs(s, z)
            - (if z == x then {(od, oi)} else {}) + (if z == x then {(nd, ni)} else {})
            - (if z == od then {(x, 1)} else {}) + (if z == nd then {(x, 1)} else {})
  {
    forall e: nat, j: nat
      ensures (e, j) in Refs(t, z) <==> Refers(t, e, j, z)
      ensures (e, j) in Refs(s, z) <==> Refers(s, e, j, z)
      ensures (e, j) !in {(nd, ni), (od, oi), (x, 1)} ==> (Refers(t, e, j, z) <==> Refers(s, e, j, z))
    {
    }
    assert Refers(t, nd, ni, x) && Refers(t, x, 1, nd) && Refers(s, od, oi, x) && Refers(s, x, 1, od);
    assert !Refers(s, nd, ni, z) && !Refers(t, od, oi, z);
  }

  lemma MovedCounted(s: State, t: State, od: nat, oi: nat, nd: nat, ni: nat, x: nat)
    requires Counted(s) && 0 !in s.nodes && Movable(s, od, oi, nd, ni, x) && Moved(s, t, od, oi, nd, ni, x)
    ensures Counted(t)
  {
    RefsHas(s, od, oi, x);
    RefsHas(s, x, 1, od);
    forall z | z in t.nodes
      ensures t.nodes[z].nlink == |Refs(t, z)| + if z == ROOT then 2 else 0
    {
      MovedRefs(s, t, od, oi, nd, ni, x, z);
      assert (nd, ni) !in Refs(s, z);
      assert (x, 1) in Refs(s, z) <==> z == od;
    }
  }

  lemma MovedEntry(s: State, t: State, od: nat, oi: nat, nd: nat, ni: nat, x: nat, e: nat, j: nat, z: nat)
    requires Movable(s, od, oi, nd, ni, x) && Moved(s, t, od, oi, nd, ni, x)
    ensures Entry(t, e, j, z) <==> (e, j, z) == (nd, ni, x) || (Entry(s, e, j, z) && (e, j) != (od, oi))
    ensures Parent(t, z) == if z == x then nd else Parent(s, z)
  {
  }

  lemma MovedTree(s: State, t: State, od: nat, oi: nat, nd: nat, ni: nat, x: nat)
    requires Tree(s) && Numbered(t) && Movable(s, od, oi, nd, ni, x) && Moved(s, t, od, oi, nd, ni, x)
    requires s.nodes[x].dir
    ensures Tree(t)
  {
    assert Entry(s, od, oi, x);
    assert FromParent(t) by {
      forall e: nat, j: nat, z: nat | Entry(t, e, j, z) && t.nodes[z].dir
        ensures z != ROOT && Parent(t, z) == e
      {
        MovedEntry(s, t, od, oi, nd, ni, x, e, j, z);
        if (e, j, z) != (nd, ni, x) {
          assert Entry(s, e, j, z);
          assert z == x ==> e == od;
        }
      }
    }
    assert Once(t) by {
      forall e: nat, j: nat, k: nat, z: nat | Entry(t, e, j, z) && Entry(t, e, k, z) && t.nodes[z].dir
        ensures j == k
      {
        MovedOnce(s, t, od, oi, nd, ni, x, e, j, z);
        MovedOnce(s, t, od, oi, nd, ni, x, e, k, z);
      }
    }
    assert Entered(t) by {
      forall z: nat | Live(t, z) && z != ROOT
        ensures exists j: nat :: Entry(t, Parent(t, z), j, z)
      {
        MovedEntered(s, t, od, oi, nd, ni, x, z);
      }
    }
  }

  lemma MovedOnce(s: State, t: State, od: nat, oi: nat, nd: nat, ni: nat, x: nat, e: nat, j: nat, z: nat)
    requires Tree(s) && Movable(s, od, oi, nd, ni, x) && Moved(s, t, od, oi, nd, ni, x)
    requires Entry(t, e, j, z) && z in s.nodes && s.nodes[z].dir
    ensures if z == x then (e, j) == (nd, ni) else Entry(s, e, j, z)
  {
    MovedEntry(s, t, od, oi, nd, ni, x, e, j, z);
    assert Entry(s, od, oi, x);
  }

  lemma MovedEntered(s: State, t: State, od: nat, oi: nat, nd: nat, ni: nat, x: nat, z: nat)
    requires Entered(s) && Movable(s, od, oi, nd, ni, x) && Moved(s, t, od, oi, nd, ni, x)
    requires Live(t, z) && z != ROOT
    ensures exists j: nat :: Entry(t, Parent(t, z), j, z)
  {
    MovedEntry(s, t, od, oi, nd, ni, x, nd, ni, x);
    if z == x {
      assert Entry(t, Parent(t, z), ni, z);
    } else {
      MovedEntry(s, t, od, oi, nd, ni, x, 0, 0, z);
      assert Parent(t, z) == Parent(s, z);
      var j: nat :| Entry(s, Parent(s, z), j, z);
      MovedEntry(s, t, od, oi, nd, ni, x, Parent(s, z), j, z);
      assert Entry(t, Parent(t, z), j, z);
    }
  }

  // The new parent is not below x, so its chain to the root never used x's "..".
  lemma {:induction false} UpAvoids(s: State, t: State, x: nat, y: nat, n: nat)
    requires forall z {:trigger Parent(t, z)} :: z != x ==> Parent(t, z) == Parent(s, z)
    requires !Above(s, x, y)
    ensures Up(t, y, n) == Up(s, y, n)
    decreases n
  {
    if n > 0 {
      assert Up(s, y, 0) == y;
      assert Parent(t, y) == Parent(s, y);
      forall m: nat
        ensures Up(s, Parent(s, y), m) != x
      {
        assert Up(s, y, m + 1) != x;
      }
      UpAvoids(s, t, x, Parent(s, y), n - 1);
    }
  }

  // Whatever reached the root through x now does so through x's new parent.
  lemma {:induction false} UpRedirected(s: State, t: State, x: nat, y: nat, n: nat) returns (m: nat)
    requires forall z {:trigger Parent(t, z)} :: z != x ==> Parent(t, z) == Parent(s, z)
    requires Above(t, ROOT, Parent(t, x)) && Up(s, y, n) == ROOT
    ensures Up(t, y, m) == ROOT
    decreases n
  {
    if y == x {
      var k: nat :| Up(t, Parent(t, x), k) == ROOT;
      assert Up(t, x, k + 1) == ROOT;
      m := k + 1;
    } else if n == 0 {
      m := 0;
    } else {
      assert Parent(t, y) == Parent(s, y);
      var k := UpRedirected(s, t, x, Parent(s, y), n - 1);
      assert Up(t, y, k + 1) == Up(t, Parent(t, y), k);
      m := k + 1;
    }
  }

  lemma MovedRooted(s: State, t: State, od: nat, oi: nat, nd: nat, ni: nat, x: nat)
    requires Rooted(s) && Movable(s, od, oi, nd, ni, x) && Moved(s, t, od, oi, nd, ni, x) && !Above(s, x, nd)
    ensures Rooted(t)
  {
    forall z
      ensures Parent(t, z) == if z == x then nd else Parent(s, z)
    {
      MovedEntry(s, t, od, oi, nd, ni, x, 0, 0, z);
    }
    assert Above(s, ROOT, nd);
    var k: nat :| Up(s, nd, k) == ROOT;
    UpAvoids(s, t, x, nd, k);
    assert Above(t, ROOT, nd);
    forall y: nat | Live(t, y)
      ensures Above(t, ROOT, y)
    {
      assert Above(s, ROOT, y);
      var n: nat :| Up(s, y, n) == ROOT;
      var m := UpRedirected(s, t, x, y, n);
    }
  }

  lemma MovedParents(s: State, t: State, od: nat, oi: nat, nd: nat, ni: nat, x: nat)
    requires GoodDirs(s) && Movable(s, od, oi, nd, ni, x) && Moved(s, t, od, oi, nd, ni, x)
    requires forall e :: Live(s, e) ==> e in t.nodes && GoodDir(t, e)
    ensures GoodDirs(t)
  {
    forall e | Live(t, e)
      ensures Live(t, Parent(t, e))
    {
      MovedEntry(s, t, od, oi, nd, ni, x, 0, 0, e);
      assert Live(s, Parent(s, e));
    }
  }

  lemma MovedNumbered(s: State, t: State, od: nat, oi: nat, nd: nat, ni: nat, x: nat)
    requires Numbered(s) && Movable(s, od, oi, nd, ni, x) && Moved(s, t, od, oi, nd, ni, x)
    ensures Numbered(t)
  {
  }

  lemma MoveDirKeeps(s: State, od: nat, oi: nat, nd: nat, ni: nat, raw: RawName, x: nat)
    requires Core(s) && Entry(s, od, oi, x) && x in s.nodes && s.nodes[x].dir
    requires Room(s, nd, ni, raw) && !Above(s, x, nd)
    requires |s.nodes[x].slots| >= 2
    ensures Core(MoveDir(s, od, oi, nd, ni, raw))
    ensures Moved(s, MoveDir(s, od, oi, nd, ni, raw), od, oi, nd, ni, x)
  {
    var t := MoveDir(s, od, oi, nd, ni, raw);
    IsMovable(s, od, oi, nd, ni, raw, x);
    MoveDirAt(s, od, oi, nd, ni, raw, x);
    MoveDirGood(s, od, oi, nd, ni, raw, x);
    MovedNumbered(s, t, od, oi, nd, ni, x);
    MovedParents(s, t, od, oi, nd, ni, x);
    MovedTree(s, t, od, oi, nd, ni, x);
    MovedCounted(s, t, od, oi, nd, ni, x);
    MovedRooted(s, t, od, oi, nd, ni, x);
  }
}
