/** What each successful operation does to the directory maps and the link counts, and when it
    succeeds. The rename has a module of its own. */
module Effects {
  import opened Names
  import Paging
  import opened Slots
  import opened Common
  import opened Namespace
  import opened Invariant
  import opened Preservation
  import opened Safety

  // Directory d has become the map m; no other inode that was there has other slots.
  ghost predicate NamesBecome(s: State, t: State, d: nat, m: map<RawName, nat>) {
    && d in s.nodes && s.nodes.Keys <= t.nodes.Keys
    && DirMap(t.nodes[d].slots) == m
    && forall z :: z in s.nodes && z != d ==> t.nodes[z].slots == s.nodes[z].slots
  }

  // x counts dx links more and y counts dy links more; no other inode that was there counts
  // differently, and none has become another kind.
  ghost predicate LinksChange(s: State, t: State, x: nat, dx: int, y: nat, dy: int) {
    && s.nodes.Keys <= t.nodes.Keys
    && forall z :: z in s.nodes ==>
         && t.nodes[z].dir == s.nodes[z].dir
         && t.nodes[z].nlink == s.nodes[z].nlink + (if z == x then dx else 0) + (if z == y then dy else 0)
  }

  ghost predicate Added(s: State, t: State, dir: bool, nlink: nat) {
    && t.next == s.next + 1 && t.nodes.Keys == s.nodes.Keys + {s.next}
    && t.nodes[s.next].dir == dir && t.nodes[s.next].nlink == nlink
  }

  ghost predicate SameInodes(s: State, t: State) {
    t.next == s.next && t.nodes.Keys == s.nodes.Keys
  }

  // A new name stands for x and all others for what they stood for.
  function With(s: State, at: Dentry, x: nat): map<RawName, nat>
    requires at.dir in s.nodes && |at.name| <= NAME_LEN
  {
    DirMap(s.nodes[at.dir].slots)[Padded(at.name) := x]
  }

  function Without(s: State, at: Dentry): map<RawName, nat>
    requires at.dir in s.nodes && |at.name| <= NAME_LEN
  {
    DirMap(s.nodes[at.dir].slots) - {Padded(at.name)}
  }

  // The name lies in front of the first hole, and of the first page of bad.
  ghost predicate Seen(s: State, at: Dentry, bad: set<nat>)
    requires |at.name| <= NAME_LEN
  {
    exists j: nat :: SeenAt(SlotsOf(s, at.dir), Padded(at.name), bad, 0, j)
  }

  // An insertion into a directory whose pages can all be read finds a place, unless it meets the
  // name first.
  lemma ReadableAdds(s: State, at: Dentry, f: Fault)
    requires Inv(s) && Negative(s, at) && f.bad == {}
    ensures Adds(s, at.dir, at.name, f) <==> !Seen(s, at, {})
    ensures !Hidden(s, at) ==> !Seen(s, at, {})
  {
    assert GoodDir(s, at.dir);
    SpotReadable(s.nodes[at.dir].slots, at.name, 0);
    DuplicateSeen(s.nodes[at.dir].slots, at.name, {}, 0);
    assert Seen(s, at, {}) ==> !Absent(SlotsOf(s, at.dir), Padded(at.name));
  }

  // One slot of at.dir is put, where the insertion found a place, and no other slot changes.
  ghost predicate NamePut(s: State, t: State, at: Dentry, f: Fault, x: nat)
    requires |at.name| <= NAME_LEN
  {
    && at.dir in s.nodes && s.nodes.Keys <= t.nodes.Keys && Adds(s, at.dir, at.name, f)
    && t.nodes[at.dir].slots == PutAt(s.nodes[at.dir].slots, SpotFrom(s.nodes[at.dir].slots, at.name, f.bad, 0).index, Slot(x, Padded(at.name)))
    && forall z :: z in s.nodes && z != at.dir ==> t.nodes[z].slots == s.nodes[z].slots
  }

  // The new name comes to stand for x, in front of a place where the lookup has missed it.
  lemma PutAddsName(s: State, t: State, at: Dentry, f: Fault, x: nat)
    requires Inv(s) && Negative(s, at) && x != 0 && NamePut(s, t, at, f, x)
    ensures NamesBecome(s, t, at.dir, With(s, at, x))
  {
    assert GoodDir(s, at.dir);
    SpotIsFirst(s.nodes[at.dir].slots, at.name, f.bad);
    var i := SpotFrom(s.nodes[at.dir].slots, at.name, f.bad, 0).index;
    AddIsInsert(s.nodes[at.dir].slots, i, x, Padded(at.name));
  }

  lemma WriteRemoves(s: State, at: Dentry, bad: set<nat>)
    requires Inv(s) && Positive(s, at) && Finds(s, at, bad)
    ensures var i := FindFrom(s.nodes[at.dir].slots, at.name, bad, 0);
            && SlotAt(s, at.dir, i).ino == at.ino
            && DirMap(Write(s, at.dir, i, SlotAt(s, at.dir, i).(ino := 0)).nodes[at.dir].slots) == Without(s, at)
  {
    assert GoodDir(s, at.dir);
    FoundEntry(s, at, bad);
    UniqueIsFirst(s.nodes[at.dir].slots, FindFrom(s.nodes[at.dir].slots, at.name, bad, 0));
    DeleteIsRemove(s.nodes[at.dir].slots, FindFrom(s.nodes[at.dir].slots, at.name, bad, 0));
  }

  // ---- Making names ----

  lemma CreateShape(s: State, at: Dentry, f: Fault)
    requires at.dir in s.nodes && s.next !in s.nodes && |at.name| <= NAME_LEN
    ensures var o := AddNondir(NewInode(s, false), at.dir, at.name, s.next, f);
            && (o.err == OK <==> Adds(s, at.dir, at.name, f) && !f.torn)
            && (o.err == OK ==>
                  Added(s, o.state, false, 1) && LinksChange(s, o.state, 0, 0, 0, 0) && NamePut(s, o.state, at, f, s.next))
  {
    assert NewInode(s, false).nodes[at.dir] == s.nodes[at.dir];
  }

  lemma CreateEffect(s: State, at: Dentry, f: Fault)
    requires Inv(s) && Negative(s, at)
    ensures var o := AddNondir(NewInode(s, false), at.dir, at.name, s.next, f);
            && (o.err == OK <==> Adds(s, at.dir, at.name, f) && !f.torn)
            && (o.err == OK ==>
                  Added(s, o.state, false, 1) && LinksChange(s, o.state, 0, 0, 0, 0) && NamesBecome(s, o.state, at.dir, With(s, at, s.next)))
  {
    CreateShape(s, at, f);
    var o := AddNondir(NewInode(s, false), at.dir, at.name, s.next, f);
    if o.err == OK {
      PutAddsName(s, o.state, at, f, s.next);
    }
  }

  // mknod and create: a new file with one link under the new name, and nothing else.
  lemma MknodEffect(s: State, at: Dentry, devOk: bool, alloc: bool, f: Fault)
    requires Inv(s) && Legal(s, OpMknod(at, devOk, alloc, f))
    ensures var o := Mknod(s, at, devOk, alloc, f);
            && (o.err == OK <==> devOk && alloc && Adds(s, at.dir, at.name, f) && !f.torn)
            && (o.err == OK ==>
                  Added(s, o.state, false, 1) && LinksChange(s, o.state, 0, 0, 0, 0) && NamesBecome(s, o.state, at.dir, With(s, at, s.next)))
  {
    CreateEffect(s, at, f);
  }

  lemma SymlinkEffect(s: State, at: Dentry, textLen: nat, alloc: bool, written: Errno, f: Fault)
    requires Inv(s) && Legal(s, OpSymlink(at, textLen, alloc, written, f))
    ensures var o := Symlink(s, at, textLen, alloc, written, f);
            && (o.err == OK <==> textLen + 1 <= Paging.PAGE_SIZE && alloc && written == OK && Adds(s, at.dir, at.name, f) && !f.torn)
            && (o.err == OK ==>
                  Added(s, o.state, false, 1) && LinksChange(s, o.state, 0, 0, 0, 0) && NamesBecome(s, o.state, at.dir, With(s, at, s.next)))
  {
    CreateEffect(s, at, f);
  }

  // tmpfile: a new file without a link, and no name for it.
  lemma TmpfileEffect(s: State, alloc: bool)
    requires Inv(s) && Legal(s, OpTmpfile(alloc))
    ensures var o := Tmpfile(s, alloc);
            && (o.err == OK <==> alloc)
            && (o.err == OK ==> Added(s, o.state, false, 0) && forall z :: z in s.nodes ==> o.state.nodes[z] == s.nodes[z])
  {
  }

  lemma LinkShape(s: State, x: nat, at: Dentry, f: Fault)
    requires at.dir in s.nodes && x in s.nodes && x != at.dir && |at.name| <= NAME_LEN
    ensures var o := Link(s, x, at, f);
            && (o.err == OK <==> Adds(s, at.dir, at.name, f) && !f.torn)
            && (o.err == OK ==> SameInodes(s, o.state) && LinksChange(s, o.state, x, 1, 0, 0) && NamePut(s, o.state, at, f, x))
  {
  }

  // link: one more name and one more link for an inode that is there.
  lemma LinkEffect(s: State, x: nat, at: Dentry, f: Fault)
    requires Inv(s) && Legal(s, OpLink(x, at, f))
    ensures var o := Link(s, x, at, f);
            && (o.err == OK <==> Adds(s, at.dir, at.name, f) && !f.torn)
            && (o.err == OK ==>
                  SameInodes(s, o.state) && LinksChange(s, o.state, x, 1, 0, 0) && NamesBecome(s, o.state, at.dir, With(s, at, x)))
  {
    LinkShape(s, x, at, f);
    var o := Link(s, x, at, f);
    if o.err == OK {
      PutAddsName(s, o.state, at, f, x);
    }
  }

  lemma MkdirShape(s: State, at: Dentry, alloc: bool, page: bool, dotsTorn: bool, f: Fault)
    requires at.dir in s.nodes && s.next !in s.nodes && |at.name| <= NAME_LEN
    requires alloc && page && !dotsTorn && Adds(s, at.dir, at.name, f) && !f.torn
    ensures var t := Mkdir(s, at, alloc, page, dotsTorn, f).state;
            && Added(s, t, true, 2) && LinksChange(s, t, at.dir, 1, 0, 0) && NamePut(s, t, at, f, s.next)
            && t.nodes[s.next].slots == DotSlots(s.next, at.dir)
  {
    MkdirState(s, at, alloc, page, dotsTorn, f);
  }

  lemma MkdirAnswer(s: State, at: Dentry, alloc: bool, page: bool, dotsTorn: bool, f: Fault)
    requires at.dir in s.nodes && s.next !in s.nodes && |at.name| <= NAME_LEN
    ensures Mkdir(s, at, alloc, page, dotsTorn, f).err == OK <==>
            alloc && page && !dotsTorn && Adds(s, at.dir, at.name, f) && !f.torn
  {
  }

  // mkdir: a new directory with two links that holds "." and "..", its name in the parent, and
  // one more link for the parent.
  lemma MkdirEffect(s: State, at: Dentry, alloc: bool, page: bool, dotsTorn: bool, f: Fault)
    requires Inv(s) && Legal(s, OpMkdir(at, alloc, page, dotsTorn, f))
    ensures var o := Mkdir(s, at, alloc, page, dotsTorn, f);
            && (o.err == OK <==> alloc && page && !dotsTorn && Adds(s, at.dir, at.name, f) && !f.torn)
            && (o.err == OK ==>
                  && Added(s, o.state, true, 2) && LinksChange(s, o.state, at.dir, 1, 0, 0) && NamesBecome(s, o.state, at.dir, With(s, at, s.next))
                  && DirMap(o.state.nodes[s.next].slots) == map[Padded(DOT) := s.next, Padded(DOTDOT) := at.dir])
  {
    MkdirAnswer(s, at, alloc, page, dotsTorn, f);
    var o := Mkdir(s, at, alloc, page, dotsTorn, f);
    if o.err == OK {
      MkdirShape(s, at, alloc, page, dotsTorn, f);
      PutAddsName(s, o.state, at, f, s.next);
      DotsMap(s.next, at.dir);
    }
  }

  lemma DotsMap(x: nat, parent: nat)
    requires x != 0 && parent != 0
    ensures DirMap(DotSlots(x, parent)) == map[Padded(DOT) := x, Padded(DOTDOT) := parent]
  {
    PaddedRoundTrip(DOT);
    PaddedRoundTrip(DOTDOT);
    var slots := DotSlots(x, parent);
    assert slots[0].name == Padded(DOT) && slots[1].name == Padded(DOTDOT);
    DirMapIs(slots, map[Padded(DOT) := x, Padded(DOTDOT) := parent]);
  }

  // ---- Taking names away ----

  lemma UnlinkState(s: State, at: Dentry, f: Fault)
    requires at.dir in s.nodes && at.ino in s.nodes && |at.name| <= NAME_LEN
    requires Finds(s, at, f.bad) && s.nodes[at.ino].nlink > 0
    ensures var i := FindFrom(s.nodes[at.dir].slots, at.name, f.bad, 0);
            var o := Unlink(s, at, f);
            var w := Write(s, at.dir, i, SlotAt(s, at.dir, i).(ino := 0));
            && (o.err == OK <==> !f.torn)
            && (!f.torn ==> SameInodes(s, o.state) && LinksChange(s, o.state, at.ino, -1, 0, 0))
            && forall z :: z in s.nodes ==> z in o.state.nodes && o.state.nodes[z].slots == w.nodes[z].slots
  {
  }

  lemma RmdirOnSlot(s: State, at: Dentry, unseen: set<nat>, f: Fault)
    requires at.dir in s.nodes && at.ino in s.nodes && at.ino != at.dir && |at.name| <= NAME_LEN
    requires Finds(s, at, f.bad) && LooksEmpty(s.nodes[at.ino].slots, at.ino, unseen)
    requires s.nodes[at.ino].nlink >= 2 && s.nodes[at.dir].nlink > 0
    ensures var i := FindFrom(s.nodes[at.dir].slots, at.name, f.bad, 0);
            var o := Rmdir(s, at, unseen, f);
            var w := Write(s, at.dir, i, SlotAt(s, at.dir, i).(ino := 0));
            && (o.err == OK <==> !f.torn)
            && (!f.torn ==> SameInodes(s, o.state) && LinksChange(s, o.state, at.ino, -2, at.dir, -1))
            && forall z :: z in s.nodes ==> z in o.state.nodes && o.state.nodes[z].slots == w.nodes[z].slots
  {
    UnlinkState(s, at, f);
  }

  // With nothing found, or entries seen, the error is all there is.
  lemma RemoveRefused(s: State, at: Dentry, unseen: set<nat>, f: Fault)
    requires at.dir in s.nodes && at.ino in s.nodes && |at.name| <= NAME_LEN
    ensures !Finds(s, at, f.bad) ==> Unlink(s, at, f).err != OK
    ensures !(LooksEmpty(s.nodes[at.ino].slots, at.ino, unseen) && Finds(s, at, f.bad)) ==> Rmdir(s, at, unseen, f).err != OK
  {
  }

  // unlink: one name and one link less.
  lemma UnlinkEffect(s: State, at: Dentry, f: Fault)
    requires Inv(s) && Legal(s, OpUnlink(at, f))
    ensures var o := Unlink(s, at, f);
            && (o.err == OK <==> Finds(s, at, f.bad) && !f.torn)
            && (o.err == OK ==>
                  SameInodes(s, o.state) && LinksChange(s, o.state, at.ino, -1, 0, 0) && NamesBecome(s, o.state, at.dir, Without(s, at)))
  {
    RemoveRefused(s, at, {}, f);
    if Finds(s, at, f.bad) {
      FoundEntry(s, at, f.bad);
      WriteRemoves(s, at, f.bad);
      ReferredIsLinked(s, at.dir, FindFrom(s.nodes[at.dir].slots, at.name, f.bad, 0), at.ino);
      UnlinkState(s, at, f);
    }
  }

  // rmdir: the name goes, the directory loses both its links and its parent one. It succeeds
  // only if no page that could be read shows an entry.
  lemma RmdirEffect(s: State, at: Dentry, unseen: set<nat>, f: Fault)
    requires Inv(s) && Legal(s, OpRmdir(at, unseen, f))
    ensures var o := Rmdir(s, at, unseen, f);
            && (o.err == OK <==> LooksEmpty(SlotsOf(s, at.ino), at.ino, unseen) && Finds(s, at, f.bad) && !f.torn)
            && (o.err == OK ==>
                  SameInodes(s, o.state) && LinksChange(s, o.state, at.ino, -2, at.dir, -1) && NamesBecome(s, o.state, at.dir, Without(s, at)))
  {
    RemoveRefused(s, at, unseen, f);
    if Finds(s, at, f.bad) && LooksEmpty(SlotsOf(s, at.ino), at.ino, unseen) {
      var i := FindFrom(s.nodes[at.dir].slots, at.name, f.bad, 0);
      FoundEntry(s, at, f.bad);
      WriteRemoves(s, at, f.bad);
      EntryOfDir(s, at.dir, i, at.ino);
      DirLinks(s, at.dir, i, at.ino);
      RmdirOnSlot(s, at, unseen, f);
    }
  }

  // ---- When the disk is sound ----

  ghost predicate NoFault(op: Op) {
    match op
    case OpMknod(_, _, _, f) => f == Fault({}, false)
    case OpTmpfile(_) => true
    case OpSymlink(_, _, _, _, f) => f == Fault({}, false)
    case OpLink(_, _, f) => f == Fault({}, false)
    case OpMkdir(_, _, _, dotsTorn, f) => !dotsTorn && f == Fault({}, false)
    case OpUnlink(_, f) => f == Fault({}, false)
    case OpRmdir(_, unseen, f) => unseen == {} && f == Fault({}, false)
    case OpRename(_, _, _, f) => f == RenameFaults({}, false, {}, {}, Fault({}, false))
  }

  // What the arguments and the memory allow; a name in front of the first hole is not made again,
  // and only empty directories are removed or replaced.
  ghost predicate Permitted(s: State, op: Op)
    requires Legal(s, op)
  {
    match op
    case OpMknod(at, devOk, alloc, _) => devOk && alloc && !Seen(s, at, {})
    case OpTmpfile(alloc) => alloc
    case OpSymlink(at, textLen, alloc, written, _) => textLen < Paging.PAGE_SIZE && alloc && written == OK && !Seen(s, at, {})
    case OpLink(_, at, _) => !Seen(s, at, {})
    case OpMkdir(at, alloc, page, _, _) => alloc && page && !Seen(s, at, {})
    case OpUnlink(_, _) => true
    case OpRmdir(at, _, _) => EmptyDir(s, at.ino)
    case OpRename(from, to, flags, _) =>
      && flags <= 1 && (to.ino == 0 ==> !Seen(s, to, {}))
      && (to.ino != 0 && s.nodes[to.ino].dir ==> EmptyDir(s, to.ino))
  }

  // The name to be made is there, and the lookup before has missed it.
  ghost predicate Misled(s: State, op: Op)
    requires Legal(s, op)
  {
    match op
    case OpMknod(at, _, _, _) => Hidden(s, at)
    case OpSymlink(at, _, _, _, _) => Hidden(s, at)
    case OpLink(_, at, _) => Hidden(s, at)
    case OpMkdir(at, _, _, _, _) => Hidden(s, at)
    case OpRename(_, to, _, _) => to.ino == 0 && Hidden(s, to)
    case _ => false
  }

  lemma PositiveIsEmpty(s: State, at: Dentry)
    requires Inv(s) && Positive(s, at) && s.nodes[at.ino].dir
    ensures LooksEmpty(s.nodes[at.ino].slots, at.ino, {}) <==> EmptyDir(s, at.ino)
  {
    FoundEntry(s, at, {});
    EntryOfDir(s, at.dir, FindFrom(s.nodes[at.dir].slots, at.name, {}, 0), at.ino);
    TrulyEmptyExact(s, at.ino);
  }

  lemma RenameAnswer(s: State, from: Dentry, to: Dentry, flags: nat, f: RenameFaults)
    requires from.dir in s.nodes && from.ino in s.nodes && to.dir in s.nodes
    requires to.ino == 0 || to.ino in s.nodes
    requires |from.name| <= NAME_LEN && |to.name| <= NAME_LEN
    ensures Rename(s, from, to, flags, f).err == OK <==>
            && Proceeds(s, from, flags, f)
            && if to.ino == 0 then Adds(s, to.dir, to.name, f.add) && !f.add.torn
               else (s.nodes[from.ino].dir ==> LooksEmpty(SlotsOf(s, to.ino), to.ino, f.unseen)) && Finds(s, to, f.newBad)
  {
  }

  lemma SoundRename(s: State, from: Dentry, to: Dentry, flags: nat, f: RenameFaults)
    requires Inv(s) && Legal(s, OpRename(from, to, flags, f)) && NoFault(OpRename(from, to, flags, f))
    ensures Rename(s, from, to, flags, f).err == OK <==> Permitted(s, OpRename(from, to, flags, f))
    ensures RenameTorn(s, from, to, flags, f) <==> Permitted(s, OpRename(from, to, flags, f)) && to.ino == 0 && Hidden(s, to)
  {
    RenameAnswer(s, from, to, flags, f);
    FoundEntry(s, from, {});
    if to.ino == 0 {
      ReadableAdds(s, to, f.add);
    } else {
      FoundEntry(s, to, {});
      if s.nodes[to.ino].dir {
        PositiveIsEmpty(s, to);
      }
    }
  }

  // On a sound disk an operation succeeds exactly when it is permitted, and it does damage exactly
  // when in addition the lookup before it has missed the name.
  lemma SoundSucceeds(s: State, op: Op)
    requires Inv(s) && Legal(s, op) && NoFault(op)
    ensures Step(s, op).err == OK <==> Permitted(s, op)
    ensures Torn(s, op) <==> Permitted(s, op) && Misled(s, op)
  {
    match op
    case OpMknod(at, devOk, alloc, f) =>
      ReadableAdds(s, at, f);
      MknodEffect(s, at, devOk, alloc, f);
    case OpTmpfile(alloc) =>
    case OpSymlink(at, textLen, alloc, written, f) =>
      ReadableAdds(s, at, f);
      SymlinkEffect(s, at, textLen, alloc, written, f);
    case OpLink(x, at, f) =>
      ReadableAdds(s, at, f);
      LinkEffect(s, x, at, f);
    case OpMkdir(at, alloc, page, dotsTorn, f) =>
      ReadableAdds(s, at, f);
      MkdirEffect(s, at, alloc, page, dotsTorn, f);
    case OpUnlink(at, f) =>
      FoundEntry(s, at, {});
      UnlinkEffect(s, at, f);
    case OpRmdir(at, unseen, f) =>
      FoundEntry(s, at, {});
      PositiveIsEmpty(s, at);
      RmdirEffect(s, at, unseen, f);
    case OpRename(from, to, flags, f) => SoundRename(s, from, to, flags, f);
  }
}
