/** Pages and inodes moved between memory and the database, and the counter of inode numbers. */
module BackingStore {
  import opened Octets
  import opened Common
  import opened Paging
  import Namespace
  import Invariant
  import opened StoreKeys
  import opened PageStore

  const S_IFDIR: nat := 0x4000
  const ROOT_MODE: nat := S_IFDIR + 0x1ed  // 0755

  const IO_ERROR: int := -5  // -EIO

  // What the database answers to a get or put that goes wrong.
  datatype Answer = Fine | Failed(code: int)

  // minix_raw_inode
  function RootInode(jiffies: nat): Attributes {
    var now := jiffies % U32;
    Attributes(ROOT_MODE, 2, 0, 0, 0, now, now, now)
  }

  // What an inode is that was never written: zeros, except the root.
  function DefaultInode(ino: Number, jiffies: nat): Attributes {
    if ino == ROOT then RootInode(jiffies) else Attributes(0, 0, 0, 0, 0, 0, 0, 0)
  }

  // The inode the database holds.
  function InodeOf(d: Disk, ino: Number, jiffies: nat): Attributes
    requires InodeKey(ino) in d.db ==> |d.db[InodeKey(ino)]| == INODE_SIZE
  {
    if InodeKey(ino) in d.db then Decode(d.db[InodeKey(ino)]) else DefaultInode(ino, jiffies)
  }

  // Over any run, an inode is what was put last, or the default.
  lemma RunInode(run: seq<Op>, ino: Number, jiffies: nat)
    requires LegalRun(run)
    ensures InodeKey(ino) in DiskAfter(run).db ==> |DiskAfter(run).db[InodeKey(ino)]| == INODE_SIZE
    ensures match LatestRecord(run, ino)
            case Some(record) => |record| == INODE_SIZE && InodeOf(DiskAfter(run), ino, jiffies) == Decode(record)
            case None => InodeOf(DiskAfter(run), ino, jiffies) == DefaultInode(ino, jiffies)
  {
    RunSound(run);
    RunRecord(run, ino);
  }

  lemma {:induction false} NothingPut(run: seq<Op>, ino: Number)
    requires forall k :: 0 <= k < |run| ==> !(run[k].PutInode? && run[k].ino == ino && !run[k].fails)
    ensures LatestRecord(run, ino) == None
  {
    if run != [] {
      NothingPut(run[..|run| - 1], ino);
    }
  }

  // An inode that no put has reached is read as zeros. Only the root is read as the root of the
  // empty name space: an empty directory of user and group 0 that everyone may read and search
  // and its owner write, made now.
  lemma NeverPut(run: seq<Op>, ino: Number, jiffies: nat)
    requires LegalRun(run) && forall k :: 0 <= k < |run| ==> !(run[k].PutInode? && run[k].ino == ino && !run[k].fails)
    ensures InodeKey(ino) !in DiskAfter(run).db
    ensures var a, root := InodeOf(DiskAfter(run), ino, jiffies), Namespace.Init.nodes[ROOT];
            && a.uid == 0 && a.gid == 0
            && if ino == 1 then
                 && a.nlink == root.nlink == 2
                 && a.mode % 0x1000 == 0x1ed && a.mode / 0x1000 == 4 && root.dir
                 && a.size == DIR_SIZE * |root.slots| == 0
                 && a.atime == a.mtime == a.ctime == jiffies % 0x1_0000_0000
               else
                 && a.nlink == 0 && a.mode == 0 && a.size == 0
                 && a.atime == a.mtime == a.ctime == 0
  {
    NothingPut(run, ino);
    RunRecord(run, ino);
    if ino == ROOT {
      RootIsInit(jiffies);
    }
  }

  lemma RootIsInit(jiffies: nat)
    ensures var a, root := DefaultInode(ROOT, jiffies), Namespace.Init.nodes[ROOT];
            && a.uid == 0 && a.gid == 0 && a.nlink == root.nlink == 2
            && a.mode % 0x1000 == 0x1ed && a.mode / 0x1000 == 4 && root.dir
            && a.size == DIR_SIZE * |root.slots| == 0
            && a.atime == a.mtime == a.ctime == jiffies % 0x1_0000_0000
  {
  }

  // An inode that is put is read field by field as the record can hold it,
  lemma PutReadsBack(d: Disk, ino: Number, a: Attributes)
    requires Legal(d, PutInode(ino, Encode(a), false))
    ensures InodeKey(ino) in After(d, PutInode(ino, Encode(a), false)).db
    ensures forall t: nat :: InodeOf(After(d, PutInode(ino, Encode(a), false)), ino, t) == Attributes(
              a.mode % 0x1_0000, a.nlink % 0x1_0000,
              if a.uid < 0x1_0000 then a.uid else 65534, if a.gid < 0x1_0000 then a.gid else 65534,
              a.size % 0x1_0000_0000, a.atime % 0x1_0000_0000, a.mtime % 0x1_0000_0000, a.ctime % 0x1_0000_0000)
    // and unchanged exactly when each field fits.
    ensures forall t: nat :: InodeOf(After(d, PutInode(ino, Encode(a), false)), ino, t) == a <==> Fits(a)
  {
    StoredFields(a);
    InodeRoundTrip(a);
  }

  // No link count that the name space can reach is cut off by the record.
  lemma LinksSurvive(s: Namespace.State, x: nat, d: Disk, ino: Number, a: Attributes, jiffies: nat)
    requires Invariant.Bounded(s) && x in s.nodes && a.nlink == s.nodes[x].nlink
    requires Legal(d, PutInode(ino, Encode(a), false))
    ensures InodeKey(ino) in After(d, PutInode(ino, Encode(a), false)).db
    ensures InodeOf(After(d, PutInode(ino, Encode(a), false)), ino, jiffies).nlink == s.nodes[x].nlink
  {
    LinksStored(a);
    assert After(d, PutInode(ino, Encode(a), false)).db[InodeKey(ino)] == Encode(a);
  }

  lemma LinksStored(a: Attributes)
    requires a.nlink <= LINK_MAX
    ensures Decode(Encode(a)).nlink == a.nlink
  {
    StoredFields(a);
  }

  class Mount {
    var db: map<seq<Byte>, seq<Byte>>
    var cache: map<Addr, Page>
    var locked: set<Addr>  // page locks held
    var ino: Number        // the counter of new_inode

    ghost function State(): Disk
      reads this
    {
      Disk(db, cache, ino)
    }

    ghost predicate Valid()
      reads this
    {
      Sound(State())
    }

    constructor ()
      ensures Valid() && State() == Empty() && locked == {}
    {
      db := map[];
      cache := map[];
      locked := {};
      ino := FIRST_INO;
    }

    // gbfs_readpage; its caller has locked the page.
    method ReadPage(a: Addr, answer: Answer) returns (err: int)
      requires Valid() && Legal(State(), Load(a, answer.Failed?)) && a in locked
      modifies this
      ensures Valid() && State() == After(old(State()), Load(a, answer.Failed?))
      ensures answer.Fine? ==>
                && cache.Keys == old(cache).Keys + {a} && !cache[a].dirty
                && (Key(a) in db ==> cache[a].bytes == db[Key(a)])
                && (Key(a) !in db ==> |cache[a].bytes| == PAGE_SIZE && forall k :: 0 <= k < PAGE_SIZE ==> cache[a].bytes[k] == 0)
      ensures answer.Failed? ==> cache == old(cache)
      ensures err == if answer.Failed? then -5 else 0
      ensures locked == old(locked) - {a}
    {
      SizedKept(State(), Load(a, answer.Failed?));
      NumberedKept(State(), Load(a, answer.Failed?));
      err := 0;
      if answer.Fine? {
        if Key(a) in db {
          cache := cache[a := Page(db[Key(a)], false)];
        } else {
          cache := cache[a := Page(Zeros(), false)];
        }
      }
      locked := locked - {a};
      if answer.Failed? {
        err := IO_ERROR;
      }
    }

    // gbfs_writepage; its caller has locked the page and marked it clean.
    method WritePage(a: Addr, answer: Answer) returns (err: int)
      requires Valid() && Legal(State(), Writeback(a, answer.Failed?)) && a in locked
      modifies this
      ensures Valid() && State() == After(old(State()), Writeback(a, answer.Failed?))
      ensures db == if answer.Fine? then old(db)[Key(a) := old(cache)[a].bytes] else old(db)
      ensures cache == old(cache)[a := Page(old(cache)[a].bytes, false)]
      ensures err == if answer.Failed? then answer.code else 0
      ensures locked == old(locked) - {a}
    {
      SizedKept(State(), Writeback(a, answer.Failed?));
      NumberedKept(State(), Writeback(a, answer.Failed?));
      var bytes := cache[a].bytes;
      cache := cache[a := Page(bytes, false)];
      err := 0;
      if answer.Fine? {
        db := db[Key(a) := bytes];
      } else {
        err := answer.code;
      }
      locked := locked - {a};
    }

    // gbfs_raw_inode
    method RawInode(i: Number, memory: bool, answer: Answer, jiffies: nat) returns (raw: Option<Attributes>)
      requires Valid()
      ensures raw == if memory && answer.Fine? then Some(InodeOf(State(), i, jiffies)) else None
    {
      if !memory {
        return None;
      }
      if answer.Failed? {
        return None;
      }
      if InodeKey(i) in db {
        raw := Some(Decode(db[InodeKey(i)]));
      } else if i == ROOT {
        raw := Some(RootInode(jiffies));
      } else {
        raw := Some(Attributes(0, 0, 0, 0, 0, 0, 0, 0));
      }
    }

    // gbfs_update_inode
    method UpdateInode(i: Number, raw: Attributes, answer: Answer) returns (err: int)
      requires Valid() && Known(State(), i)
      modifies this`db
      ensures Valid() && State() == After(old(State()), PutInode(i, Encode(raw), answer.Failed?))
      ensures err == if answer.Failed? then answer.code else 0
    {
      SizedKept(State(), PutInode(i, Encode(raw), answer.Failed?));
      NumberedKept(State(), PutInode(i, Encode(raw), answer.Failed?));
      err := 0;
      if answer.Fine? {
        db := db[InodeKey(i) := Encode(raw)];
      } else {
        err := answer.code;
      }
    }

    // gbfs_write_inode
    method WriteInode(i: Number, a: Attributes, memory: bool, got: Answer, answer: Answer, jiffies: nat) returns (err: int)
      requires Valid() && Known(State(), i)
      modifies this`db
      ensures Valid()
      ensures var reached := memory && got.Fine?;
              && State() == After(old(State()), PutInode(i, Encode(a), !reached || answer.Failed?))
              && err == if !reached then -5 else if answer.Failed? then answer.code else 0
      ensures memory && got.Fine? && answer.Fine? ==> err == 0 && forall t: nat ::
                && InodeOf(State(), i, t) == Attributes(
                     a.mode % 0x1_0000, a.nlink % 0x1_0000,
                     if a.uid < 0x1_0000 then a.uid else 65534, if a.gid < 0x1_0000 then a.gid else 65534,
                     a.size % 0x1_0000_0000, a.atime % 0x1_0000_0000, a.mtime % 0x1_0000_0000, a.ctime % 0x1_0000_0000)
                && (InodeOf(State(), i, t) == a <==> Fits(a))
    {
      var raw := RawInode(i, memory, got, jiffies);
      if raw.None? {
        return IO_ERROR;
      }
      PutReadsBack(State(), i, a);
      err := UpdateInode(i, a, answer);
    }

    // The part of gbfs_iget that fills a new inode.
    method Iget(i: Number, memory: bool, answer: Answer, jiffies: nat) returns (a: Option<Attributes>)
      requires Valid()
      ensures a == if memory && answer.Fine? then Some(InodeOf(State(), i, jiffies)) else None
    {
      a := RawInode(i, memory, answer, jiffies);
    }

    // gbfs_free_inode: the record says no links and no mode, the rest of it stays.
    method FreeInode(i: Number, memory: bool, got: Answer, answer: Answer, jiffies: nat)
      requires Valid() && Known(State(), i)
      modifies this`db
      ensures Valid()
      ensures if memory && got.Fine? && answer.Fine? then
                forall t: nat :: InodeOf(State(), i, t) == InodeOf(old(State()), i, jiffies).(mode := 0, nlink := 0)
              else State() == old(State())
      ensures forall x: Addr :: PageStore.View(State(), x) == PageStore.View(old(State()), x)
    {
      var raw := RawInode(i, memory, got, jiffies);
      if raw.Some? {
        var cleared := raw.value.(mode := 0, nlink := 0);
        StoredApart(State(), PutInode(i, Encode(cleared), answer.Failed?));
        InodeOfFits(State(), i, jiffies);
        InodeRoundTrip(cleared);
        var err := UpdateInode(i, cleared, answer);
      }
    }

    // gbfs_new_inode, after the memory for the inode was found.
    method NewInode() returns (i: Number)
      requires Valid() && Legal(State(), PageStore.NewInode)
      modifies this`ino
      ensures Valid() && State() == After(old(State()), PageStore.NewInode)
      ensures i == old(ino) && i != 0 && i != ROOT && !Known(old(State()), i)
    {
      SizedKept(State(), PageStore.NewInode);
      NumberedKept(State(), PageStore.NewInode);
      i := ino;
      ino := ino + 1;
    }
  }

  // Whatever comes out of a record fits into one.
  lemma InodeOfFits(d: Disk, ino: Number, jiffies: nat)
    requires InodeKey(ino) in d.db ==> |d.db[InodeKey(ino)]| == INODE_SIZE
    ensures Fits(InodeOf(d, ino, jiffies))
  {
    if InodeKey(ino) in d.db {
      var s := d.db[InodeKey(ino)];
      Powers();
      ValueBound(s[0..2]);
      ValueBound(s[2..4]);
      ValueBound(s[4..6]);
      ValueBound(s[6..8]);
      ValueBound(s[8..12]);
      ValueBound(s[12..16]);
      ValueBound(s[16..20]);
      ValueBound(s[20..24]);
    }
  }

  lemma {:induction false} ValueBound(s: seq<Byte>)
    ensures Value(s) < Power(|s|)
  {
    if s != [] {
      ValueBound(s[1..]);
    }
  }
}
