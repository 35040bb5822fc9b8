/** The inode operations of namei.c on inodes in memory, each proved to be a step of the name space. */
module Volumes {
  import opened Names
  import opened Paging
  import opened Slots
  import opened Common
  import opened Namespace
  import opened Directory

  ghost function NodeOf(inode: Inode): Node
    reads inode`nlink, inode`slots
  {
    Node(inode.dir, inode.nlink, if inode.dir then inode.slots else [])
  }

  /** A mounted file system: its in-core inodes by number, and the inode number counter. */
  class Volume {
    var table: map<nat, Inode>
    var counter: nat

    // The inodes in memory, the state of the name space, and the page references held: an inode
    // and a page each.
    ghost var inodes: set<Inode>
    ghost var view: State
    ghost var held: multiset<(nat, nat)>

    // The ghost fields mirror the inodes; between two accesses no page is locked.
    ghost predicate Valid()
      reads this, inodes
    {
      && view.next == counter && view.nodes.Keys == table.Keys
      && forall x :: x in table ==> table[x] in inodes && Mirrored(x)
    }

    ghost predicate Mirrored(x: nat)
      requires x in table && x in view.nodes
      reads this, table[x]
    {
      && table[x].ino == x && table[x].Valid()
      && view.nodes[x] == NodeOf(table[x])
      && forall n: nat {:trigger table[x].pins[n]} {:trigger held[(x, n)]} :: held[(x, n)] == table[x].pins[n]
    }

    // No page reference is held.
    ghost predicate Balanced()
      reads this`held
    {
      held == multiset{}
    }

    // All inodes but d are as they were, and so is what mirrors them.
    twostate lemma OthersMirrored(d: nat)
      requires old(Valid()) && table == old(table) && d in table
      requires forall z :: z in table && z != d ==> unchanged(table[z])
      requires forall z :: z in table && z != d ==> z in view.nodes && view.nodes[z] == old(view.nodes[z])
      requires forall z: nat, m: nat {:trigger held[(z, m)]} :: z != d ==> held[(z, m)] == old(held[(z, m)])
      ensures forall z :: z in table && z != d ==> z in view.nodes && Mirrored(z)
    {
      forall z | z in table && z != d
        ensures Mirrored(z)
      {
        assert old(Mirrored(z));
      }
    }

    // So if d is mirrored, all are.
    twostate lemma StillValid(d: nat)
      requires old(Valid()) && table == old(table) && inodes == old(inodes) && d in table
      requires view.next == counter == old(counter) && view.nodes.Keys == table.Keys
      requires forall z :: z in table && z != d ==> unchanged(table[z])
      requires forall z :: z in table && z != d ==> view.nodes[z] == old(view.nodes[z])
      requires forall z: nat, m: nat {:trigger held[(z, m)]} :: z != d ==> held[(z, m)] == old(held[(z, m)])
      requires Mirrored(d)
      ensures Valid()
    {
      OthersMirrored(d);
    }

    // Mounting an empty database: only the root, with two links and no slots.
    constructor ()
      ensures Valid() && Balanced() && view == Init && fresh(inodes)
    {
      var root := new Inode(ROOT, true);
      table, counter := map[ROOT := root], FIRST_INO;
      view, held, inodes := Init, multiset{}, {root};
      new;
      root.IncLink();
    }

    // ---- One access each ----

    method NewInode(dir: bool) returns (x: nat)
      requires Valid() && Balanced() && view.next !in view.nodes
      modifies this
      ensures Valid() && Balanced()
      ensures x == old(view.next) && fresh(inodes - old(inodes))
      ensures view == Namespace.NewInode(old(view), dir)
    {
      x := counter;
      var inode := new Inode(x, dir);
      table, counter, inodes := table[x := inode], counter + 1, inodes + {inode};
      view := Namespace.NewInode(view, dir);
    }

    method Inc(x: nat)
      requires Valid() && x in view.nodes
      modifies this`view, inodes
      ensures Valid() && inodes == old(inodes) && view == Namespace.Inc(old(view), x)
    {
      table[x].IncLink();
      view := Namespace.Inc(view, x);
    }

    method Dec(x: nat)
      requires Valid() && x in view.nodes
      modifies this`view, inodes
      ensures Valid() && inodes == old(inodes) && view == Namespace.Dec(old(view), x)
    {
      table[x].DropLink();
      view := Namespace.Dec(view, x);
    }

    method AddLink(d: nat, name: Name, x: nat, f: Fault) returns (err: Errno)
      requires Valid() && d in view.nodes && view.nodes[d].dir && |name| <= NAME_LEN
      modifies this`view, inodes
      ensures Valid() && inodes == old(inodes)
      ensures Outcome(view, err) == Namespace.AddLink(old(view), d, name, x, f)
    {
      err := table[d].AddLink(name, x, f);
      ghost var slots := table[d].slots;
      AddLinkView(view, d, name, x, f, err, slots);
      view := view.(nodes := view.nodes[d := view.nodes[d].(slots := slots)]);
      StillValid(d);
    }

    method Find(at: Dentry, bad: set<nat>) returns (found: bool, n: nat, p: nat, ghost i: nat)
      requires Valid() && at.dir in view.nodes && view.nodes[at.dir].dir && |at.name| <= NAME_LEN
      modifies this`held, inodes
      ensures Valid() && inodes == old(inodes)
      ensures i == FindFrom(view.nodes[at.dir].slots, at.name, bad, 0)
      ensures found <==> i < |view.nodes[at.dir].slots|
      ensures found ==> First(n) + p == i && p < SLOTS_PER_PAGE
      ensures held == if found then old(held) + multiset{(at.dir, n)} else old(held)
    {
      i := FindFrom(view.nodes[at.dir].slots, at.name, bad, 0);
      found, n, p := table[at.dir].FindEntry(at.name, bad);
      if found {
        NewlyPinned(held, at.dir, n);
        held := held + multiset{(at.dir, n)};
      }
      StillValid(at.dir);
    }

    method Empty(x: nat, unseen: set<nat>) returns (empty: bool)
      requires Valid() && x in view.nodes && view.nodes[x].dir
      modifies inodes
      ensures Valid() && inodes == old(inodes)
      ensures empty <==> LooksEmpty(view.nodes[x].slots, x, unseen)
    {
      empty := table[x].IsEmpty(unseen);
    }

    // Stores an inode number into a slot whose page is pinned, and releases the pin.
    method SetIno(d: nat, n: nat, p: nat, ghost i: nat, x: nat, torn: bool) returns (err: Errno)
      requires Valid() && d in view.nodes && view.nodes[d].dir && (d, n) in held && p < SLOTS_PER_PAGE
      requires First(n) + p == i < |view.nodes[d].slots|
      modifies this`view, this`held, inodes
      ensures Valid() && inodes == old(inodes) && held == old(held) - multiset{(d, n)}
      ensures view == Write(old(view), d, i, SlotAt(old(view), d, i).(ino := x))
      ensures err == if torn then EIO else OK
    {
      assert Mirrored(d) && held[(d, n)] == table[d].pins[n];
      Unpinned(held, d, n);
      StillCounted(held, table[d].pins, d, n);
      RenumberedView(view, d, i, x);
      err := table[d].SetIno(n, p, i, x, torn);
      view := Write(view, d, i, SlotAt(view, d, i).(ino := x));
      held := held - multiset{(d, n)};
      StillValid(d);
    }

    method PutPage(d: nat, n: nat)
      requires Valid() && d in view.nodes && (d, n) in held
      modifies this`held, inodes
      ensures Valid() && inodes == old(inodes) && held == old(held) - multiset{(d, n)}
    {
      assert Mirrored(d) && held[(d, n)] == table[d].pins[n];
      table[d].ReleasePage(n);
      Unpinned(held, d, n);
      held := held - multiset{(d, n)};
      StillValid(d);
    }

    method DotDot(x: nat, unreadable: bool) returns (ok: bool, n: nat, p: nat)
      requires Valid() && x in view.nodes
      modifies this`held, inodes
      ensures Valid() && inodes == old(inodes)
      ensures ok <==> !unreadable
      ensures ok ==> First(n) + p == 1 && p < SLOTS_PER_PAGE
      ensures held == if ok then old(held) + multiset{(x, n)} else old(held)
    {
      ok, n, p := table[x].DotDot(unreadable);
      if ok {
        NewlyPinned(held, x, n);
        held := held + multiset{(x, n)};
      }
      StillValid(x);
    }

    method MakeEmpty(x: nat, parent: nat, page: bool, torn: bool) returns (err: Errno)
      requires Valid() && x in view.nodes && view.nodes[x].dir && view.nodes[x].slots == [] && Balanced()
      modifies this`view, inodes
      ensures Valid()
      ensures err == if !page then ENOMEM else if torn then EIO else OK
      ensures view == if page then old(view).(nodes := old(view).nodes[x := old(view).nodes[x].(slots := DotSlots(x, parent))]) else old(view)
    {
      assert forall n: nat :: held[(x, n)] == table[x].pins[n] == 0;
      assert table[x].pins == multiset{};
      err := table[x].MakeEmpty(parent, page, torn);
      if page {
        view := view.(nodes := view.nodes[x := view.nodes[x].(slots := DotSlots(x, parent))]);
      }
    }

    // ---- namei.c ----

    // gbfs_lookup, with gbfs_inode_by_name; 0 stands for a negative dentry. got is what gbfs_iget
    // answers when it is asked for the inode found.
    method Lookup(d: nat, name: Name, bad: set<nat>, got: Errno) returns (err: Errno, x: nat)
      requires Valid() && Balanced() && d in view.nodes && view.nodes[d].dir
      modifies this`held, inodes
      ensures Valid() && Balanced()
      ensures |name| > NAME_LEN ==> err == ENAMETOOLONG && x == 0
      ensures |name| <= NAME_LEN ==>
                var r := FindFrom(view.nodes[d].slots, name, bad, 0);
                if r == |view.nodes[d].slots| then err == OK && x == 0
                else err == got && x == if got == OK then view.nodes[d].slots[r].ino else 0
    {
      if |name| > NAME_LEN {
        return ENAMETOOLONG, 0;
      }
      var found, n, p, i := Find(Dentry(d, name, 0), bad);
      if !found {
        return OK, 0;
      }
      GivenBack(multiset{}, (d, n));
      x := TakeIno(d, n, p);
      if got != OK {
        return got, 0;
      }
      err := OK;
    }

    method TakeIno(d: nat, n: nat, p: nat) returns (x: nat)
      requires Valid() && d in view.nodes && view.nodes[d].dir && (d, n) in held
      requires p < SLOTS_PER_PAGE && First(n) + p < |view.nodes[d].slots|
      modifies this`held, inodes
      ensures Valid() && inodes == old(inodes) && held == old(held) - multiset{(d, n)}
      ensures x == view.nodes[d].slots[First(n) + p].ino
    {
      assert Mirrored(d) && held[(d, n)] == table[d].pins[n];
      x := table[d].TakeIno(n, p);
      Unpinned(held, d, n);
      StillCounted(held, old(table[d].pins), d, n);
      held := held - multiset{(d, n)};
      StillValid(d);
    }

    method AddNondir(d: nat, name: Name, x: nat, f: Fault) returns (err: Errno)
      requires Valid() && Balanced() && d in view.nodes && view.nodes[d].dir && x in view.nodes && |name| <= NAME_LEN
      modifies this`view, this`held, inodes
      ensures Valid() && Balanced()
      ensures Outcome(view, err) == Namespace.AddNondir(old(view), d, name, x, f)
    {
      err := AddLink(d, name, x, f);
      if err != OK {
        Dec(x);
      }
    }

    method Mknod(at: Dentry, devOk: bool, alloc: bool, f: Fault) returns (err: Errno)
      requires Valid() && Balanced() && view.next !in view.nodes
      requires at.dir in view.nodes && view.nodes[at.dir].dir && |at.name| <= NAME_LEN
      modifies this, inodes
      ensures Valid() && Balanced()
      ensures Outcome(view, err) == Namespace.Mknod(old(view), at, devOk, alloc, f)
    {
      if !devOk {
        return EINVAL;
      }
      if !alloc {
        return ENOMEM;
      }
      var x := NewInode(false);
      err := AddNondir(at.dir, at.name, x, f);
    }

    method Tmpfile(alloc: bool) returns (err: Errno)
      requires Valid() && Balanced() && view.next !in view.nodes
      modifies this, inodes
      ensures Valid() && Balanced()
      ensures Outcome(view, err) == Namespace.Tmpfile(old(view), alloc)
    {
      if !alloc {
        return ENOMEM;
      }
      var x := NewInode(false);
      // d_tmpfile drops the link a new inode starts with
      Dec(x);
      err := OK;
    }

    method Symlink(at: Dentry, textLen: nat, alloc: bool, written: Errno, f: Fault) returns (err: Errno)
      requires Valid() && Balanced() && view.next !in view.nodes
      requires at.dir in view.nodes && view.nodes[at.dir].dir && |at.name| <= NAME_LEN
      modifies this, inodes
      ensures Valid() && Balanced()
      ensures Outcome(view, err) == Namespace.Symlink(old(view), at, textLen, alloc, written, f)
    {
      if textLen + 1 > PAGE_SIZE {
        return ENAMETOOLONG;
      }
      if !alloc {
        return ENOMEM;
      }
      var x := NewInode(false);
      if written != OK {
        Dec(x);
        return written;
      }
      err := AddNondir(at.dir, at.name, x, f);
    }

    method Link(x: nat, at: Dentry, f: Fault) returns (err: Errno)
      requires Valid() && Balanced() && x in view.nodes
      requires at.dir in view.nodes && view.nodes[at.dir].dir && |at.name| <= NAME_LEN
      modifies this`view, this`held, inodes
      ensures Valid() && Balanced()
      ensures Outcome(view, err) == Namespace.Link(old(view), x, at, f)
    {
      Inc(x);
      err := AddNondir(at.dir, at.name, x, f);
    }

    method FailMkdir(d: nat, x: nat)
      requires Valid() && Balanced() && d in view.nodes && x in view.nodes
      modifies this`view, this`held, inodes
      ensures Valid() && Balanced() && view == UndoMkdir(old(view), d, x)
    {
      Dec(x);
      Dec(x);
      Dec(d);
    }

    method Mkdir(at: Dentry, alloc: bool, page: bool, dotsTorn: bool, f: Fault) returns (err: Errno)
      requires Valid() && Balanced() && view.next !in view.nodes
      requires at.dir in view.nodes && view.nodes[at.dir].dir && |at.name| <= NAME_LEN
      modifies this, inodes
      ensures Valid() && Balanced()
      ensures Outcome(view, err) == Namespace.Mkdir(old(view), at, alloc, page, dotsTorn, f)
    {
      Inc(at.dir);
      if !alloc {
        Dec(at.dir);
        return ENOMEM;
      }
      err := FillDir(at, page, dotsTorn, f);
    }

    // The rest of mkdir, once the parent counts the new directory's "..".
    method FillDir(at: Dentry, page: bool, dotsTorn: bool, f: Fault) returns (err: Errno)
      requires Valid() && Balanced() && view.next !in view.nodes
      requires at.dir in view.nodes && view.nodes[at.dir].dir && |at.name| <= NAME_LEN
      modifies this, inodes
      ensures Valid() && Balanced()
      ensures Outcome(view, err) == Namespace.FillDir(old(view), at, page, dotsTorn, f)
    {
      var x;
      x, err := NewDir(at.dir, page, dotsTorn);
      if err == OK {
        err := AddLink(at.dir, at.name, x, f);
      }
      if err != OK {
        FailMkdir(at.dir, x);
      }
    }

    // A new inode with two links and, if its page can be had, the two dots.
    method NewDir(parent: nat, page: bool, dotsTorn: bool) returns (x: nat, err: Errno)
      requires Valid() && Balanced() && view.next !in view.nodes && parent in view.nodes
      modifies this, inodes
      ensures Valid() && Balanced() && fresh(inodes - old(inodes)) && x == old(view).next
      ensures err == if !page then ENOMEM else if dotsTorn then EIO else OK
      ensures var s2 := Namespace.Inc(Namespace.NewInode(old(view), true), x);
              view == if page then s2.(nodes := s2.nodes[x := s2.nodes[x].(slots := DotSlots(x, parent))]) else s2
    {
      x := NewInode(true);
      Inc(x);
      err := MakeEmpty(x, parent, page, dotsTorn);
    }

    method Unlink(at: Dentry, f: Fault) returns (err: Errno)
      requires Valid() && Balanced() && at.ino in view.nodes
      requires at.dir in view.nodes && view.nodes[at.dir].dir && |at.name| <= NAME_LEN
      modifies this`view, this`held, inodes
      ensures Valid() && Balanced()
      ensures Outcome(view, err) == Namespace.Unlink(old(view), at, f)
    {
      var found, n, p, i := Find(at, f.bad);
      if found {
        GivenBack(multiset{}, (at.dir, n));
        err := UnlinkAt(at, n, p, i, f.torn);
      } else {
        err := ENOENT;
      }
    }

    // Once the entry is found on slot p of page n.
    method UnlinkAt(at: Dentry, n: nat, p: nat, ghost i: nat, torn: bool) returns (err: Errno)
      requires Valid() && at.dir in view.nodes && view.nodes[at.dir].dir && at.ino in view.nodes
      requires (at.dir, n) in held && p < SLOTS_PER_PAGE && First(n) + p == i < |view.nodes[at.dir].slots|
      modifies this`view, this`held, inodes
      ensures Valid() && inodes == old(inodes) && held == old(held) - multiset{(at.dir, n)}
      ensures Outcome(view, err) == Namespace.UnlinkAt(old(view), at, i, torn)
    {
      err := SetIno(at.dir, n, p, i, 0, torn);
      if err == OK {
        Dec(at.ino);
      }
    }

    method Rmdir(at: Dentry, unseen: set<nat>, f: Fault) returns (err: Errno)
      requires Valid() && Balanced() && at.ino in view.nodes && view.nodes[at.ino].dir
      requires at.dir in view.nodes && view.nodes[at.dir].dir && |at.name| <= NAME_LEN
      modifies this`view, this`held, inodes
      ensures Valid() && Balanced()
      ensures Outcome(view, err) == Namespace.Rmdir(old(view), at, unseen, f)
    {
      ghost var s := view;
      var empty := Empty(at.ino, unseen);
      if !empty {
        return ENOTEMPTY;
      }
      assert view == s;
      err := UnlinkDir(at, f);
    }

    method DropDots(d: nat, x: nat)
      requires Valid() && Balanced() && d in view.nodes && x in view.nodes
      modifies this`view, this`held, inodes
      ensures Valid() && Balanced() && view == Namespace.Dec(Namespace.Dec(old(view), d), x)
    {
      Dec(d);
      Dec(x);
    }

    method UnlinkDir(at: Dentry, f: Fault) returns (err: Errno)
      requires Valid() && Balanced() && at.ino in view.nodes
      requires at.dir in view.nodes && view.nodes[at.dir].dir && |at.name| <= NAME_LEN
      modifies this`view, this`held, inodes
      ensures Valid() && Balanced()
      ensures Outcome(view, err) == Namespace.UnlinkDir(old(view), at, f)
    {
      err := Unlink(at, f);
      if err == OK {
        DropDots(at.dir, at.ino);
      }
    }

    // ---- gbfs_rename ----

    // Pinned are the page of the old entry and, for a directory, the page of its "..".
    static ghost function Holding(d: nat, n: nat, x: nat, dots: bool, dn: nat): multiset<(nat, nat)> {
      if dots then multiset{(d, n)} + multiset{(x, dn)} else multiset{(d, n)}
    }

    // What the error paths out_dir and out_old release.
    method Release(d: nat, n: nat, x: nat, dots: bool, dn: nat)
      requires Valid() && d in view.nodes && x in view.nodes && d != x
      requires held == Holding(d, n, x, dots, dn)
      modifies this`view, this`held, inodes
      ensures Valid() && inodes == old(inodes) && Balanced() && view == old(view)
    {
      if dots {
        PutPage(x, dn);
      }
      PutPage(d, n);
    }

    // From the deletion of the old entry on. Write errors are not looked at.
    method FinishRename(from: Dentry, n: nat, p: nat, ghost i: nat, to: Dentry, dots: bool, dn: nat, dp: nat, tornOld: bool, tornDots: bool)
      requires Valid() && First(n) + p == i && Movable(view, from, i, to, dots)
      requires p < SLOTS_PER_PAGE && (dots ==> First(dn) + dp == 1 && dp < SLOTS_PER_PAGE)
      requires held == Holding(from.dir, n, from.ino, dots, dn)
      modifies this`view, this`held, inodes
      ensures Valid() && Balanced()
      ensures view == Namespace.FinishRename(old(view), from, i, to)
    {
      SameShape(view, from.dir, i, SlotAt(view, from.dir, i).(ino := 0));
      var _ := SetIno(from.dir, n, p, i, 0, tornOld);
      if dots {
        RedirectDots(from.ino, dn, dp, to.dir, from.dir, tornDots);
      }
    }

    method RedirectDots(x: nat, dn: nat, dp: nat, parent: nat, formerParent: nat, torn: bool)
      requires Valid() && x in view.nodes && view.nodes[x].dir && formerParent in view.nodes
      requires First(dn) + dp == 1 && dp < SLOTS_PER_PAGE && 1 < |view.nodes[x].slots|
      requires held == multiset{(x, dn)}
      modifies this`view, this`held, inodes
      ensures Valid() && Balanced()
      ensures view == Namespace.Dec(Write(old(view), x, 1, SlotAt(old(view), x, 1).(ino := parent)), formerParent)
    {
      var _ := SetIno(x, dn, dp, 1, parent, torn);
      Dec(formerParent);
    }

    // The new name exists.
    method RenameOver(from: Dentry, n: nat, p: nat, ghost i: nat, to: Dentry, dots: bool, dn: nat, dp: nat, unseen: set<nat>, newBad: set<nat>) returns (err: Errno)
      requires Valid() && First(n) + p == i && Movable(view, from, i, to, dots)
      requires p < SLOTS_PER_PAGE && (dots ==> First(dn) + dp == 1 && dp < SLOTS_PER_PAGE)
      requires to.ino in view.nodes && |to.name| <= NAME_LEN && (dots ==> view.nodes[to.ino].dir)
      requires held == Holding(from.dir, n, from.ino, dots, dn)
      modifies this`view, this`held, inodes
      ensures Valid() && Balanced()
      ensures Outcome(view, err) == Namespace.RenameOver(old(view), from, i, to, unseen, newBad)
    {
      if dots {
        var empty := Empty(to.ino, unseen);
        if !empty {
          Release(from.dir, n, from.ino, dots, dn);
          return ENOTEMPTY;
        }
      }
      err := RenameOnto(from, n, p, i, to, dots, dn, dp, newBad);
    }

    // Its slot is redirected and the inode it stood for loses its links.
    method RenameOnto(from: Dentry, n: nat, p: nat, ghost i: nat, to: Dentry, dots: bool, dn: nat, dp: nat, newBad: set<nat>) returns (err: Errno)
      requires Valid() && First(n) + p == i && Movable(view, from, i, to, dots)
      requires p < SLOTS_PER_PAGE && (dots ==> First(dn) + dp == 1 && dp < SLOTS_PER_PAGE)
      requires to.ino in view.nodes && |to.name| <= NAME_LEN
      requires held == Holding(from.dir, n, from.ino, dots, dn)
      modifies this`view, this`held, inodes
      ensures Valid() && Balanced()
      ensures Outcome(view, err) == Namespace.RenameOnto(old(view), from, i, to, newBad)
    {
      var found, m, q, j := Find(to, newBad);
      if !found {
        Release(from.dir, n, from.ino, dots, dn);
        return ENOENT;
      }
      ReplaceAndFinish(from, n, p, i, to, m, q, j, dots, dn, dp);
      err := OK;
    }

    method ReplaceAndFinish(from: Dentry, n: nat, p: nat, ghost i: nat, to: Dentry, m: nat, q: nat, ghost j: nat, dots: bool, dn: nat, dp: nat)
      requires Valid() && First(n) + p == i && Movable(view, from, i, to, dots)
      requires p < SLOTS_PER_PAGE && (dots ==> First(dn) + dp == 1 && dp < SLOTS_PER_PAGE)
      requires to.ino in view.nodes && q < SLOTS_PER_PAGE && First(m) + q == j < |view.nodes[to.dir].slots|
      requires held == Holding(from.dir, n, from.ino, dots, dn) + multiset{(to.dir, m)}
      modifies this`view, this`held, inodes
      ensures Valid() && Balanced()
      ensures view == Namespace.FinishRename(Replaced(old(view), to, j, from.ino, dots), from, i, to)
    {
      GivenBack(Holding(from.dir, n, from.ino, dots, dn), (to.dir, m));
      Replace(to, m, q, j, from.ino, dots);
      var tornOld, tornDots: bool := *, *;
      FinishRename(from, n, p, i, to, dots, dn, dp, tornOld, tornDots);
    }

    // gbfs_set_link on the found entry, and the links of the inode it referred to.
    method Replace(to: Dentry, m: nat, q: nat, ghost j: nat, x: nat, dots: bool)
      requires Valid() && to.dir in view.nodes && view.nodes[to.dir].dir && to.ino in view.nodes
      requires (to.dir, m) in held && q < SLOTS_PER_PAGE && First(m) + q == j < |view.nodes[to.dir].slots|
      modifies this`view, this`held, inodes
      ensures Valid() && inodes == old(inodes) && held == old(held) - multiset{(to.dir, m)}
      ensures view == Replaced(old(view), to, j, x, dots)
    {
      var torn: bool := *;
      SameShape(view, to.dir, j, SlotAt(view, to.dir, j).(ino := x));
      var _ := SetIno(to.dir, m, q, j, x, torn);
      DropLinks(to.ino, dots);
    }

    method DropLinks(y: nat, both: bool)
      requires Valid() && y in view.nodes
      modifies this`view, inodes
      ensures Valid()
      ensures view == Namespace.Dec(if both then Namespace.Dec(old(view), y) else old(view), y)
    {
      if both {
        Dec(y);
      }
      Dec(y);
    }

    // The new name is free: it is inserted.
    method RenameInto(from: Dentry, n: nat, p: nat, ghost i: nat, to: Dentry, dots: bool, dn: nat, dp: nat, add: Fault) returns (err: Errno)
      requires Valid() && First(n) + p == i && Movable(view, from, i, to, dots)
      requires p < SLOTS_PER_PAGE && (dots ==> First(dn) + dp == 1 && dp < SLOTS_PER_PAGE)
      requires |to.name| <= NAME_LEN
      requires held == Holding(from.dir, n, from.ino, dots, dn)
      modifies this`view, this`held, inodes
      ensures Valid() && Balanced()
      ensures Outcome(view, err) == Namespace.RenameInto(old(view), from, i, to, add)
    {
      err := AddLink(to.dir, to.name, from.ino, add);
      if err != OK {
        Release(from.dir, n, from.ino, dots, dn);
        return;
      }
      CountAndFinish(from, n, p, i, to, dots, dn, dp);
    }

    // The new name is there; a directory's new parent counts its "..".
    method CountAndFinish(from: Dentry, n: nat, p: nat, ghost i: nat, to: Dentry, dots: bool, dn: nat, dp: nat)
      requires Valid() && First(n) + p == i && Movable(view, from, i, to, dots)
      requires p < SLOTS_PER_PAGE && (dots ==> First(dn) + dp == 1 && dp < SLOTS_PER_PAGE)
      requires held == Holding(from.dir, n, from.ino, dots, dn)
      modifies this`view, this`held, inodes
      ensures Valid() && Balanced()
      ensures view == Namespace.FinishRename(if dots then Namespace.Inc(old(view), to.dir) else old(view), from, i, to)
    {
      if dots {
        Inc(to.dir);
      }
      var tornOld, tornDots: bool := *, *;
      FinishRename(from, n, p, i, to, dots, dn, dp, tornOld, tornDots);
    }

    // Once the old entry is found on slot p of page n.
    method RenameFound(from: Dentry, n: nat, p: nat, ghost i: nat, to: Dentry, f: RenameFaults) returns (err: Errno)
      requires Valid() && from.ino in view.nodes && First(n) + p == i && Movable(view, from, i, to, view.nodes[from.ino].dir)
      requires p < SLOTS_PER_PAGE && |to.name| <= NAME_LEN
      requires to.ino == 0 || (to.ino in view.nodes && (view.nodes[from.ino].dir ==> view.nodes[to.ino].dir))
      requires held == multiset{(from.dir, n)}
      modifies this`view, this`held, inodes
      ensures Valid() && Balanced()
      ensures Outcome(view, err) == Namespace.RenameFound(old(view), from, i, to, f)
    {
      var dots, dn, dp := false, 0, 0;
      if table[from.ino].dir {
        dots, dn, dp := DotDot(from.ino, f.dotsUnreadable);
        if !dots {
          PutPage(from.dir, n);
          return EIO;
        }
      }
      if to.ino != 0 {
        err := RenameOver(from, n, p, i, to, dots, dn, dp, f.unseen, f.newBad);
      } else {
        err := RenameInto(from, n, p, i, to, dots, dn, dp, f.add);
      }
    }

    method Rename(from: Dentry, to: Dentry, flags: nat, f: RenameFaults) returns (err: Errno)
      requires Valid() && Balanced() && from.dir in view.nodes && from.ino in view.nodes && to.dir in view.nodes
      requires to.ino == 0 || (to.ino in view.nodes && (view.nodes[from.ino].dir ==> view.nodes[to.ino].dir))
      requires view.nodes[from.dir].dir && view.nodes[to.dir].dir && |from.name| <= NAME_LEN && |to.name| <= NAME_LEN
      requires from.dir != from.ino && (view.nodes[from.ino].dir ==> |view.nodes[from.ino].slots| >= 2)
      modifies this`view, this`held, inodes
      ensures Valid() && Balanced()
      ensures Outcome(view, err) == Namespace.Rename(old(view), from, to, flags, f)
    {
      if flags > 1 {
        return EINVAL;
      }
      var found, n, p, i := Find(from, f.oldBad);
      if !found {
        return ENOENT;
      }
      err := RenameFound(from, n, p, i, to, f);
    }
  }

  lemma InsertedView(s: State, d: nat, name: Name, x: nat, f: Fault)
    requires d in s.nodes && |name| <= NAME_LEN && SpotFrom(s.nodes[d].slots, name, f.bad, 0).At?
    ensures var slots := PutAt(s.nodes[d].slots, SpotFrom(s.nodes[d].slots, name, f.bad, 0).index, Slot(x, Padded(name)));
            Namespace.AddLink(s, d, name, x, f) ==
            Outcome(s.(nodes := s.nodes[d := s.nodes[d].(slots := slots)]), if f.torn then EIO else OK)
  {
  }

  // One directory's slots have changed as the insertion says.
  lemma AddLinkView(s: State, d: nat, name: Name, x: nat, f: Fault, err: Errno, slots: seq<Slot>)
    requires d in s.nodes && |name| <= NAME_LEN
    requires Added(s.nodes[d].slots, slots, SpotFrom(s.nodes[d].slots, name, f.bad, 0), Slot(x, Padded(name)), f.torn, err)
    ensures Outcome(s.(nodes := s.nodes[d := s.nodes[d].(slots := slots)]), err) == Namespace.AddLink(s, d, name, x, f)
  {
    if SpotFrom(s.nodes[d].slots, name, f.bad, 0).At? {
      InsertedView(s, d, name, x, f);
    } else {
      SameView(s, d);
    }
  }

  lemma SameView(s: State, d: nat)
    requires d in s.nodes
    ensures s.(nodes := s.nodes[d := s.nodes[d].(slots := s.nodes[d].slots)]) == s
  {
    assert s.nodes[d := s.nodes[d]] == s.nodes;
  }

  // A slot with another inode number.
  lemma RenumberedView(s: State, d: nat, i: nat, x: nat)
    requires d in s.nodes && i < |s.nodes[d].slots|
    ensures var slots, t := s.nodes[d].slots, Write(s, d, i, SlotAt(s, d, i).(ino := x));
            && t.next == s.next && t.nodes.Keys == s.nodes.Keys
            && t.nodes[d] == Node(s.nodes[d].dir, s.nodes[d].nlink, slots[i := slots[i].(ino := x)])
            && forall z :: z in s.nodes && z != d ==> t.nodes[z] == s.nodes[z]
  {
  }

  // Dropping one reference concerns that page of that inode only.
  lemma Unpinned(held: multiset<(nat, nat)>, d: nat, n: nat)
    requires (d, n) in held
    ensures forall x: nat, m: nat {:trigger (held - multiset{(d, n)})[(x, m)]} ::
              (held - multiset{(d, n)})[(x, m)] == held[(x, m)] - if x == d && m == n then 1 else 0
  {
  }

  // What a rename knows once it has found the old entry in slot i.
  ghost predicate Movable(s: State, from: Dentry, i: nat, to: Dentry, dots: bool) {
    && from.dir in s.nodes && from.ino in s.nodes && to.dir in s.nodes
    && s.nodes[from.dir].dir && s.nodes[to.dir].dir && from.dir != from.ino
    && i < |s.nodes[from.dir].slots|
    && dots == s.nodes[from.ino].dir && (dots ==> |s.nodes[from.ino].slots| >= 2)
  }

  lemma SameShape(s: State, d: nat, i: nat, slot: Slot)
    requires d in s.nodes && i < |s.nodes[d].slots|
    ensures var t := Write(s, d, i, slot);
            t.nodes.Keys == s.nodes.Keys &&
            forall z :: z in s.nodes ==> t.nodes[z].dir == s.nodes[z].dir && |t.nodes[z].slots| == |s.nodes[z].slots|
  {
  }

  lemma StillCounted(held: multiset<(nat, nat)>, pins: multiset<nat>, d: nat, n: nat)
    requires forall m: nat {:trigger pins[m]} {:trigger held[(d, m)]} :: held[(d, m)] == pins[m]
    ensures forall m: nat {:trigger (pins - multiset{n})[m]} {:trigger (held - multiset{(d, n)})[(d, m)]} ::
              (held - multiset{(d, n)})[(d, m)] == (pins - multiset{n})[m]
  {
  }

  // A reference taken and given back.
  lemma GivenBack(held: multiset<(nat, nat)>, ref: (nat, nat))
    ensures held + multiset{ref} - multiset{ref} == held
  {
  }

  lemma NewlyPinned(held: multiset<(nat, nat)>, d: nat, n: nat)
    ensures forall x: nat, m: nat {:trigger (held + multiset{(d, n)})[(x, m)]} ::
              (held + multiset{(d, n)})[(x, m)] == held[(x, m)] + if x == d && m == n then 1 else 0
  {
  }
}
