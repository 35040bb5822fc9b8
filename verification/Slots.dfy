/** A directory as one flat sequence of slots, and the map it stands for. */
module Slots {
  import opened Names
  import opened Paging

  // struct gbfs_dir_entry followed by its name; inode 0 marks a free slot, whose name is stale.
  datatype Slot = Slot(ino: nat, name: RawName)

  const BLANK: Slot := Slot(0, Zeros(NAME_LEN))

  // Whether the page that holds slot i can be read, given the pages that cannot.
  predicate Readable(bad: set<nat>, i: nat) {
    PageOf(i) !in bad
  }

  predicate Hit(slot: Slot, name: Name)
    requires |name| <= NAME_LEN
  {
    slot.ino != 0 && NameCompare(|name|, NAME_LEN, name, slot.name)
  }

  // The first readable slot at or after i that holds the name, or |slots|.
  function FindFrom(slots: seq<Slot>, name: Name, bad: set<nat>, i: nat): (r: nat)
    requires |name| <= NAME_LEN && i <= |slots|
    ensures i <= r <= |slots|
    ensures r < |slots| ==> Readable(bad, r) && Hit(slots[r], name)
    ensures forall j :: i <= j < r && Readable(bad, j) ==> !Hit(slots[j], name)
    decreases |slots| - i
  {
    if i == |slots| || (Readable(bad, i) && Hit(slots[i], name)) then i
    else FindFrom(slots, name, bad, i + 1)
  }

  datatype Spot = At(index: nat) | Duplicate | Unreadable

  // Where an insertion that has reached slot i goes: i_size is tested before the slot is looked
  // at, a free slot is taken before its stale name is compared.
  function SpotFrom(slots: seq<Slot>, name: Name, bad: set<nat>, i: nat): (r: Spot)
    requires |name| <= NAME_LEN && i <= |slots|
    ensures r.At? ==> i <= r.index <= |slots| && forall j :: i <= j < r.index ==> slots[j].ino != 0
    ensures r.At? && r.index < |slots| ==> slots[r.index].ino == 0
    decreases |slots| - i
  {
    if !Readable(bad, i) then Unreadable
    else if i == |slots| || slots[i].ino == 0 then At(i)
    else if NameCompare(|name|, NAME_LEN, name, slots[i].name) then Duplicate
    else SpotFrom(slots, name, bad, i + 1)
  }

  // A slot written in place, or appended when it starts at i_size.
  function PutAt(slots: seq<Slot>, i: nat, slot: Slot): (r: seq<Slot>)
    requires i <= |slots|
    ensures |r| == if i < |slots| then |slots| else i + 1
    ensures r[i] == slot
    ensures forall j :: 0 <= j < |slots| && j != i ==> r[j] == slots[j]
  {
    if i < |slots| then slots[i := slot] else slots + [slot]
  }

  // The test of the emptiness check on one occupied slot, byte by byte.
  predicate DotSlot(slot: Slot, self: nat) {
    && slot.name[0] == '.' as int
    && (if slot.name[1] == 0 then slot.ino == self
        else slot.name[1] == '.' as int && slot.name[2] == 0)
  }

  // What the emptiness check sees when it skips the unreadable pages.
  predicate LooksEmpty(slots: seq<Slot>, self: nat, bad: set<nat>) {
    forall i :: 0 <= i < |slots| && Readable(bad, i) && slots[i].ino != 0 ==> DotSlot(slots[i], self)
  }

  lemma DotSlotExact(slot: Slot, self: nat)
    requires Clean(slot.name)
    ensures DotSlot(slot, self) <==>
            (NameOf(slot.name) == DOT && slot.ino == self) || NameOf(slot.name) == DOTDOT
  {
    var name := NameOf(slot.name);
    assert forall k :: 0 <= k < |name| ==> slot.name[k] == name[k] && name[k] in name;
    assert forall k :: |name| <= k < NAME_LEN ==> slot.name[k] == 0;
    if DotSlot(slot, self) && slot.name[1] == 0 {
      assert |name| == 1;
    } else if DotSlot(slot, self) {
      assert |name| == 2;
    }
  }

  // ---- The map a slot array stands for ----

  predicate Unique(slots: seq<Slot>) {
    forall i, j :: 0 <= i < j < |slots| && slots[i].ino != 0 && slots[j].ino != 0 ==>
      slots[i].name != slots[j].name
  }

  predicate AllClean(slots: seq<Slot>) {
    forall i :: 0 <= i < |slots| && slots[i].ino != 0 ==> Clean(slots[i].name)
  }

  ghost predicate Holds(slots: seq<Slot>, raw: RawName, i: nat) {
    i < |slots| && slots[i].ino != 0 && slots[i].name == raw
  }

  predicate Absent(slots: seq<Slot>, raw: RawName) {
    forall i :: 0 <= i < |slots| && slots[i].ino != 0 ==> slots[i].name != raw
  }

  // Should a name be there twice, the first slot counts, as it does in a search.
  function DirMap(slots: seq<Slot>): map<RawName, nat> {
    if slots == [] then map[]
    else
      var rest := DirMap(slots[..|slots| - 1]);
      var last := slots[|slots| - 1];
      if last.ino == 0 || last.name in rest then rest else rest[last.name := last.ino]
  }

  // The map has exactly the names of the occupied slots.
  lemma {:induction false} DirMapDomain(slots: seq<Slot>, raw: RawName)
    ensures raw in DirMap(slots) <==> exists i :: Holds(slots, raw, i)
    ensures raw in DirMap(slots) <==> !Absent(slots, raw)
  {
    if slots != [] {
      var n := |slots| - 1;
      DirMapDomain(slots[..n], raw);
      if raw in DirMap(slots[..n]) {
        var i :| Holds(slots[..n], raw, i);
        assert Holds(slots, raw, i);
      }
      if i: nat :| Holds(slots, raw, i) && i < n {
        assert Holds(slots[..n], raw, i);
      }
      if slots[n].ino != 0 && slots[n].name == raw {
        assert Holds(slots, raw, n);
      }
    }
  }

  // The first slot with its name.
  ghost predicate FirstWith(slots: seq<Slot>, raw: RawName, i: nat) {
    Holds(slots, raw, i) && forall k: nat :: k < i ==> !Holds(slots, raw, k)
  }

  // The map sends a name to the inode number in the first slot that holds it.
  lemma {:induction false} DirMapValue(slots: seq<Slot>, raw: RawName, i: nat)
    requires FirstWith(slots, raw, i)
    ensures raw in DirMap(slots) && DirMap(slots)[raw] == slots[i].ino
  {
    var n := |slots| - 1;
    if i < n {
      assert Holds(slots[..n], raw, i);
      forall k: nat | k < i ensures !Holds(slots[..n], raw, k) {
        assert !Holds(slots, raw, k);
      }
      DirMapValue(slots[..n], raw, i);
    } else {
      DirMapDomain(slots[..n], raw);
      if k: nat :| Holds(slots[..n], raw, k) {
        assert Holds(slots, raw, k);
      }
    }
  }

  lemma {:induction false} FirstExists(slots: seq<Slot>, raw: RawName, n: nat)
    requires Holds(slots, raw, n)
    ensures exists i: nat :: FirstWith(slots, raw, i)
  {
    if k: nat :| k < n && Holds(slots, raw, k) {
      FirstExists(slots, raw, k);
    } else {
      assert FirstWith(slots, raw, n);
    }
  }

  // ---- find, add, delete and set_link are lookup, insert, remove and update ----

  lemma FindIsLookup(slots: seq<Slot>, name: Name)
    requires AllClean(slots) && ValidName(name)
    ensures var r := FindFrom(slots, name, {}, 0);
            && (r < |slots| <==> Padded(name) in DirMap(slots))
            && (r < |slots| ==> slots[r].name == Padded(name) &&
                                DirMap(slots)[Padded(name)] == slots[r].ino)
  {
    var raw := Padded(name);
    var r := FindFrom(slots, name, {}, 0);
    NotBefore(slots, name);
    if r < |slots| {
      NameCompareExact(name, slots[r].name);
      assert FirstWith(slots, raw, r);
      DirMapValue(slots, raw, r);
    } else {
      DirMapDomain(slots, raw);
    }
  }

  lemma NotBefore(slots: seq<Slot>, name: Name)
    requires AllClean(slots) && ValidName(name)
    ensures forall i: nat :: i < FindFrom(slots, name, {}, 0) ==> !Holds(slots, Padded(name), i)
  {
    forall i: nat | i < FindFrom(slots, name, {}, 0)
      ensures !Holds(slots, Padded(name), i)
    {
      if slots[i].ino != 0 {
        assert Readable({}, i) && !Hit(slots[i], name);
        NameCompareExact(name, slots[i].name);
      }
    }
  }

  // A search answers that there is no such name exactly when no page that can be read has it.
  lemma FindMisses(slots: seq<Slot>, name: Name, bad: set<nat>)
    requires AllClean(slots) && ValidName(name)
    ensures FindFrom(slots, name, bad, 0) == |slots| <==>
            forall i: nat :: Holds(slots, Padded(name), i) ==> !Readable(bad, i)
  {
    forall i: nat | Holds(slots, Padded(name), i)
      ensures Hit(slots[i], name)
    {
      NameCompareExact(name, slots[i].name);
    }
  }

  // Unreadable pages can hide an entry but never invent or misplace one.
  lemma FindSound(slots: seq<Slot>, name: Name, bad: set<nat>)
    requires Unique(slots) && AllClean(slots) && ValidName(name)
    ensures var r := FindFrom(slots, name, bad, 0);
            r < |slots| ==> r == FindFrom(slots, name, {}, 0)
  {
    var r := FindFrom(slots, name, bad, 0);
    var t := FindFrom(slots, name, {}, 0);
    if r < |slots| {
      assert Readable({}, r);
      assert t <= r;
      NameCompareExact(name, slots[r].name);
      NameCompareExact(name, slots[t].name);
    }
  }

  // The insertion goes to the first free slot, if there is one, and otherwise right at the end.
  lemma {:induction false} SpotOfAbsent(slots: seq<Slot>, name: Name, i: nat)
    requires AllClean(slots) && ValidName(name) && Absent(slots, Padded(name)) && i <= |slots|
    ensures SpotFrom(slots, name, {}, i).At?
    decreases |slots| - i
  {
    assert Readable({}, i);
    if i < |slots| && slots[i].ino != 0 {
      NameCompareExact(name, slots[i].name);
      SpotOfAbsent(slots, name, i + 1);
    }
  }

  // A successful insertion keeps names unique exactly when the name was absent: the duplicate
  // test stops at the first hole, so an occurrence behind the hole is not noticed.
  lemma AddKeepsUnique(slots: seq<Slot>, name: Name, bad: set<nat>, ino: nat)
    requires Unique(slots) && AllClean(slots) && ValidName(name) && ino != 0
    requires SpotFrom(slots, name, bad, 0).At?
    ensures var i := SpotFrom(slots, name, bad, 0).index;
            Unique(PutAt(slots, i, Slot(ino, Padded(name)))) <==> Absent(slots, Padded(name))
  {
    var i := SpotFrom(slots, name, bad, 0).index;
    var after := PutAt(slots, i, Slot(ino, Padded(name)));
    if Unique(after) {
      forall j | 0 <= j < |slots| && slots[j].ino != 0
        ensures slots[j].name != Padded(name)
      {
        assert after[j] == slots[j] && j != i;
      }
    }
  }

  // All slots from i up to j are taken by other names, on pages that can be read.
  ghost predicate Passed(slots: seq<Slot>, raw: RawName, bad: set<nat>, i: nat, j: nat) {
    i <= j <= |slots| && forall k :: i <= k < j ==> Readable(bad, k) && slots[k].ino != 0 && slots[k].name != raw
  }

  // The first slot from i on that stops an insertion holds the name;
  ghost predicate SeenAt(slots: seq<Slot>, raw: RawName, bad: set<nat>, i: nat, j: nat) {
    Passed(slots, raw, bad, i, j) && Readable(bad, j) && Holds(slots, raw, j)
  }

  // or it cannot be read, be it the place behind the last slot.
  ghost predicate StuckAt(slots: seq<Slot>, raw: RawName, bad: set<nat>, i: nat, j: nat) {
    Passed(slots, raw, bad, i, j) && !Readable(bad, j)
  }

  // An insertion is refused exactly when the name lies in front of the first hole and of the first
  // page that cannot be read, and it gives up exactly when such a page comes first.
  lemma {:induction false} DuplicateSeen(slots: seq<Slot>, name: Name, bad: set<nat>, i: nat)
    requires AllClean(slots) && ValidName(name) && i <= |slots|
    ensures SpotFrom(slots, name, bad, i).Duplicate? <==> exists j: nat :: SeenAt(slots, Padded(name), bad, i, j)
    ensures SpotFrom(slots, name, bad, i).Unreadable? <==> exists j: nat :: StuckAt(slots, Padded(name), bad, i, j)
    decreases |slots| - i
  {
    var raw := Padded(name);
    if !Readable(bad, i) {
      assert StuckAt(slots, raw, bad, i, i);
    } else if i < |slots| && slots[i].ino != 0 {
      NameCompareExact(name, slots[i].name);
      if slots[i].name == raw {
        assert SeenAt(slots, raw, bad, i, i);
      } else {
        var rest := i + 1;
        DuplicateSeen(slots, name, bad, rest);
        PassedOne(slots, raw, bad, i, rest);
      }
    }
  }

  // A slot with another name is passed.
  lemma PassedOne(slots: seq<Slot>, raw: RawName, bad: set<nat>, i: nat, rest: nat)
    requires i < |slots| && rest == i + 1 && Readable(bad, i) && slots[i].ino != 0 && slots[i].name != raw
    ensures (exists j: nat :: SeenAt(slots, raw, bad, i, j)) <==> exists j: nat :: SeenAt(slots, raw, bad, rest, j)
    ensures (exists j: nat :: StuckAt(slots, raw, bad, i, j)) <==> exists j: nat :: StuckAt(slots, raw, bad, rest, j)
  {
    if j: nat :| SeenAt(slots, raw, bad, i, j) {
      assert SeenAt(slots, raw, bad, rest, j);
    }
    if j: nat :| SeenAt(slots, raw, bad, rest, j) {
      assert SeenAt(slots, raw, bad, i, j);
    }
    if j: nat :| StuckAt(slots, raw, bad, i, j) {
      assert StuckAt(slots, raw, bad, rest, j);
    }
    if j: nat :| StuckAt(slots, raw, bad, rest, j) {
      assert StuckAt(slots, raw, bad, i, j);
    }
  }

  // Without unreadable pages an insertion always finds a place or the name.
  lemma {:induction false} SpotReadable(slots: seq<Slot>, name: Name, i: nat)
    requires |name| <= NAME_LEN && i <= |slots|
    ensures !SpotFrom(slots, name, {}, i).Unreadable?
    decreases |slots| - i
  {
    assert Readable({}, i);
    if i < |slots| && slots[i].ino != 0 {
      SpotReadable(slots, name, i + 1);
    }
  }

  // A place for the name is never behind an occurrence of it.
  lemma {:induction false} SpotPasses(slots: seq<Slot>, name: Name, bad: set<nat>, i: nat)
    requires |name| <= NAME_LEN && i <= |slots| && SpotFrom(slots, name, bad, i).At?
    ensures forall k: nat :: i <= k < SpotFrom(slots, name, bad, i).index ==> !Hit(slots[k], name)
    decreases |slots| - i
  {
    if i < |slots| && slots[i].ino != 0 {
      SpotPasses(slots, name, bad, i + 1);
    }
  }

  lemma SpotIsFirst(slots: seq<Slot>, name: Name, bad: set<nat>)
    requires AllClean(slots) && ValidName(name) && SpotFrom(slots, name, bad, 0).At?
    ensures var i := SpotFrom(slots, name, bad, 0).index;
            forall k: nat :: k < |slots| && k <= i ==> !Holds(slots, Padded(name), k)
  {
    var i := SpotFrom(slots, name, bad, 0).index;
    SpotPasses(slots, name, bad, 0);
    forall k: nat | k < |slots| && k <= i
      ensures !Holds(slots, Padded(name), k)
    {
      if k < i {
        assert !Hit(slots[k], name);
        NameCompareExact(name, slots[k].name);
      }
    }
  }

  // So an insertion of a name that is there goes in front of it.
  lemma OccurrenceBehind(slots: seq<Slot>, name: Name, bad: set<nat>) returns (k: nat)
    requires AllClean(slots) && ValidName(name) && SpotFrom(slots, name, bad, 0).At? && !Absent(slots, Padded(name))
    ensures SpotFrom(slots, name, bad, 0).index < k && Holds(slots, Padded(name), k)
  {
    SpotIsFirst(slots, name, bad);
    k :| k < |slots| && slots[k].ino != 0 && slots[k].name == Padded(name);
    assert Holds(slots, Padded(name), k);
  }

  // A map is the one a slot array stands for as soon as both have the same entries.
  lemma DirMapIs(slots: seq<Slot>, m: map<RawName, nat>)
    requires forall raw, i: nat :: FirstWith(slots, raw, i) ==> raw in m && m[raw] == slots[i].ino
    requires forall raw :: raw in m ==> !Absent(slots, raw)
    ensures DirMap(slots) == m
  {
    forall raw: RawName
      ensures raw in DirMap(slots) <==> raw in m
      ensures raw in m ==> DirMap(slots)[raw] == m[raw]
    {
      DirMapDomain(slots, raw);
      if !Absent(slots, raw) {
        var n: nat :| Holds(slots, raw, n);
        FirstExists(slots, raw, n);
        var i: nat :| FirstWith(slots, raw, i);
        DirMapValue(slots, raw, i);
      }
    }
  }

  // One slot changed: every other name keeps its first slot.
  lemma FirstElsewhere(slots: seq<Slot>, after: seq<Slot>, i: nat, raw: RawName, k: nat)
    requires i <= |slots| && |after| == (if i < |slots| then |slots| else i + 1)
    requires forall j: nat :: j < |slots| && j != i ==> after[j] == slots[j]
    requires !Holds(slots, raw, i) && !Holds(after, raw, i) && FirstWith(after, raw, k)
    ensures FirstWith(slots, raw, k) && k != i && slots[k] == after[k]
  {
    forall j: nat | j < k
      ensures !Holds(slots, raw, j)
    {
      assert !Holds(after, raw, j);
    }
  }

  // Slot i is put to (ino, raw) or freed, and it is the first with its name before or after: the
  // map changes at this name only.
  lemma MapChanges(slots: seq<Slot>, after: seq<Slot>, i: nat, raw: RawName, m: map<RawName, nat>)
    requires i <= |slots| && |after| == (if i < |slots| then |slots| else i + 1)
    requires forall j: nat :: j < |slots| && j != i ==> after[j] == slots[j]
    requires after[i].name == raw && (i < |slots| && slots[i].ino != 0 ==> slots[i].name == raw)
    requires if after[i].ino != 0 then FirstWith(after, raw, i) && m == DirMap(slots)[raw := after[i].ino]
             else Absent(after, raw) && m == DirMap(slots) - {raw}
    ensures DirMap(after) == m
  {
    forall r, k: nat | FirstWith(after, r, k)
      ensures r in m && m[r] == after[k].ino
    {
      if r != raw {
        FirstElsewhere(slots, after, i, r, k);
        DirMapValue(slots, r, k);
      }
    }
    forall r | r in m
      ensures !Absent(after, r)
    {
      if r != raw {
        StillThere(slots, after, i, raw, r);
      }
    }
    DirMapIs(after, m);
  }

  lemma StillThere(slots: seq<Slot>, after: seq<Slot>, i: nat, raw: RawName, r: RawName)
    requires i <= |slots| && |after| >= |slots| && r in DirMap(slots) && r != raw
    requires forall j: nat :: j < |slots| && j != i ==> after[j] == slots[j]
    requires i < |slots| && slots[i].ino != 0 ==> slots[i].name == raw
    ensures !Absent(after, r)
  {
    DirMapDomain(slots, r);
    var j: nat :| Holds(slots, r, j);
    assert after[j] == slots[j];
  }

  // The name is inserted in front of all its occurrences, if there are any.
  lemma AddIsInsert(slots: seq<Slot>, i: nat, ino: nat, raw: RawName)
    requires ino != 0 && i <= |slots| && (i < |slots| ==> slots[i].ino == 0)
    requires forall k: nat :: k < i ==> !Holds(slots, raw, k)
    ensures Unique(slots) && Absent(slots, raw) ==> Unique(PutAt(slots, i, Slot(ino, raw)))
    ensures DirMap(PutAt(slots, i, Slot(ino, raw))) == DirMap(slots)[raw := ino]
  {
    var after := PutAt(slots, i, Slot(ino, raw));
    assert Holds(after, raw, i);
    forall k: nat | k < i
      ensures !Holds(after, raw, k)
    {
      assert after[k] == slots[k] && !Holds(slots, raw, k);
    }
    MapChanges(slots, after, i, raw, DirMap(slots)[raw := ino]);
  }

  lemma DeleteIsRemove(slots: seq<Slot>, i: nat)
    requires i < |slots| && slots[i].ino != 0
    requires forall k: nat :: k != i ==> !Holds(slots, slots[i].name, k)
    ensures Unique(slots) ==> Unique(slots[i := slots[i].(ino := 0)])
    ensures DirMap(slots[i := slots[i].(ino := 0)]) == DirMap(slots) - {slots[i].name}
  {
    var after := slots[i := slots[i].(ino := 0)];
    forall k: nat | k < |after| && after[k].ino != 0
      ensures after[k].name != slots[i].name
    {
      assert !Holds(slots, slots[i].name, k);
    }
    MapChanges(slots, after, i, slots[i].name, DirMap(slots) - {slots[i].name});
  }

  lemma SetLinkIsUpdate(slots: seq<Slot>, i: nat, ino: nat)
    requires ino != 0 && i < |slots| && FirstWith(slots, slots[i].name, i)
    ensures Unique(slots) ==> Unique(slots[i := slots[i].(ino := ino)])
    ensures DirMap(slots[i := slots[i].(ino := ino)]) == DirMap(slots)[slots[i].name := ino]
  {
    var raw := slots[i].name;
    var after := slots[i := slots[i].(ino := ino)];
    forall k: nat | k < i
      ensures !Holds(after, raw, k)
    {
      assert !Holds(slots, raw, k);
    }
    assert Holds(after, raw, i);
    MapChanges(slots, after, i, raw, DirMap(slots)[raw := ino]);
  }

  // In an array of unique names every occupied slot is the first, and the only one, with its name.
  lemma UniqueIsFirst(slots: seq<Slot>, i: nat)
    requires Unique(slots) && i < |slots| && slots[i].ino != 0
    ensures FirstWith(slots, slots[i].name, i)
    ensures forall k: nat :: k != i ==> !Holds(slots, slots[i].name, k)
  {
  }
}
