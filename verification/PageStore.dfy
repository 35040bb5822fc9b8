/** The page cache over the database: every operation as a function, what a reader sees through
    the cache, and when that survives. */
module PageStore {
  import opened Octets
  import opened Common
  import opened Paging
  import opened StoreKeys

  datatype Addr = Addr(ino: Number, off: Number)

  datatype Page = Page(bytes: seq<Byte>, dirty: bool)

  datatype Disk = Disk(db: map<seq<Byte>, seq<Byte>>, cache: map<Addr, Page>, next: Number)

  function Zeros(): (z: seq<Byte>)
    ensures |z| == PAGE_SIZE && forall k :: 0 <= k < |z| ==> z[k] == 0
  {
    seq(PAGE_SIZE, _ => 0)
  }

  function Key(a: Addr): seq<Byte> {
    DataKey(a.ino, a.off)
  }

  // What the database holds of page a; a page that was never written is zeros.
  function Stored(d: Disk, a: Addr): seq<Byte> {
    if Key(a) in d.db then d.db[Key(a)] else Zeros()
  }

  // What a reader of page a sees.
  function View(d: Disk, a: Addr): seq<Byte> {
    if a in d.cache then d.cache[a].bytes else Stored(d, a)
  }

  function Empty(): Disk {
    Disk(map[], map[], FIRST_INO)
  }

  // ---- Operations ----

  datatype Op =
    | Load(a: Addr, fails: bool)       // readpage, for a page that is not cached
    | Modify(a: Addr, bytes: seq<Byte>)  // a cached page is changed and becomes dirty
    | Writeback(a: Addr, fails: bool)  // writepage
    | Drop(a: Addr)                    // a clean page leaves the cache
    | PutInode(ino: Number, record: seq<Byte>, fails: bool)  // update_inode
    | NewInode                         // new_inode

  function After(d: Disk, op: Op): Disk
    requires Legal(d, op)
  {
    match op
    case Load(a, fails) => if fails then d else d.(cache := d.cache[a := Page(Stored(d, a), false)])
    case Modify(a, bytes) => d.(cache := d.cache[a := Page(bytes, true)])
    case Writeback(a, fails) =>
      var bytes := d.cache[a].bytes;
      var e := d.(cache := d.cache[a := Page(bytes, false)]);
      if fails then e else e.(db := d.db[Key(a) := bytes])
    case Drop(a) => d.(cache := d.cache - {a})
    case PutInode(ino, record, fails) => if fails then d else d.(db := d.db[InodeKey(ino) := record])
    case NewInode => d.(next := d.next + 1)
  }

  // An inode that exists: the root, or one that new_inode handed out.
  predicate Known(d: Disk, ino: Number) {
    ino == ROOT || FIRST_INO <= ino < d.next
  }

  // What the virtual file system sees to before it calls.
  predicate Legal(d: Disk, op: Op) {
    match op
    case Load(a, _) => Known(d, a.ino) && a !in d.cache
    case Modify(a, bytes) => a in d.cache && |bytes| == PAGE_SIZE
    case Writeback(a, _) => a in d.cache
    case Drop(a) => a in d.cache && !d.cache[a].dirty
    case PutInode(ino, record, _) => Known(d, ino) && |record| == INODE_SIZE
    case NewInode => d.next < U32 - 1
  }

  // ---- One step ----

  ghost predicate Sized(d: Disk) {
    && (forall a :: a in d.cache ==> |d.cache[a].bytes| == PAGE_SIZE)
    && (forall a: Addr {:trigger Key(a)} :: Key(a) in d.db ==> |d.db[Key(a)]| == PAGE_SIZE)
    && (forall ino: Number {:trigger InodeKey(ino)} :: InodeKey(ino) in d.db ==> |d.db[InodeKey(ino)]| == INODE_SIZE)
  }

  // Everything cached or stored belongs to an inode that exists.
  ghost predicate Numbered(d: Disk) {
    && FIRST_INO <= d.next
    && (forall a :: a in d.cache ==> Known(d, a.ino))
    && (forall a: Addr {:trigger Key(a)} :: Key(a) in d.db ==> Known(d, a.ino))
    && (forall ino: Number {:trigger InodeKey(ino)} :: InodeKey(ino) in d.db ==> Known(d, ino))
  }

  ghost predicate Sound(d: Disk) {
    Sized(d) && Numbered(d)
  }

  // Writing a page changes neither another page in the database nor any inode, and writing an
  // inode changes neither a page nor another inode.
  lemma StoredApart(d: Disk, op: Op)
    requires Legal(d, op)
    ensures forall a: Addr {:trigger Key(a)} :: !(op.Writeback? && op.a == a) ==>
              && (Key(a) in After(d, op).db <==> Key(a) in d.db)
              && Stored(After(d, op), a) == Stored(d, a)
    ensures forall i: Number {:trigger InodeKey(i)} :: !(op.PutInode? && op.ino == i) ==>
              && (InodeKey(i) in After(d, op).db <==> InodeKey(i) in d.db)
              && (InodeKey(i) in d.db ==> After(d, op).db[InodeKey(i)] == d.db[InodeKey(i)])
  {
    forall a: Addr | !(op.Writeback? && op.a == a)
      ensures (Key(a) in After(d, op).db <==> Key(a) in d.db) && Stored(After(d, op), a) == Stored(d, a)
    {
      PageApart(d, op, a);
    }
    forall i: Number | !(op.PutInode? && op.ino == i)
      ensures InodeKey(i) in After(d, op).db <==> InodeKey(i) in d.db
      ensures InodeKey(i) in d.db ==> After(d, op).db[InodeKey(i)] == d.db[InodeKey(i)]
    {
      RecordApart(d, op, i);
    }
  }

  lemma PageApart(d: Disk, op: Op, a: Addr)
    requires Legal(d, op) && !(op.Writeback? && op.a == a)
    ensures Key(a) in After(d, op).db <==> Key(a) in d.db
    ensures Stored(After(d, op), a) == Stored(d, a)
  {
    match op
    case Writeback(b, _) => KeysDiffer(a.ino, a.off, b.ino, b.off);
    case PutInode(ino, _, _) => KeysDiffer(a.ino, a.off, ino, 0);
    case _ =>
  }

  lemma RecordApart(d: Disk, op: Op, i: Number)
    requires Legal(d, op) && !(op.PutInode? && op.ino == i)
    ensures InodeKey(i) in After(d, op).db <==> InodeKey(i) in d.db
    ensures InodeKey(i) in d.db ==> After(d, op).db[InodeKey(i)] == d.db[InodeKey(i)]
  {
    match op
    case Writeback(b, _) => KeysDiffer(b.ino, b.off, i, 0);
    case PutInode(ino, _, _) => KeysDiffer(i, 0, ino, 0);
    case _ =>
  }

  lemma SizedKept(d: Disk, op: Op)
    requires Sound(d) && Legal(d, op)
    ensures Sized(After(d, op))
  {
    StoredApart(d, op);
    var e := After(d, op);
    forall a: Addr | Key(a) in e.db ensures |e.db[Key(a)]| == PAGE_SIZE {
      PageSized(d, op, a);
    }
  }

  lemma PageSized(d: Disk, op: Op, a: Addr)
    requires Sound(d) && Legal(d, op) && Key(a) in After(d, op).db
    ensures |After(d, op).db[Key(a)]| == PAGE_SIZE
  {
    StoredApart(d, op);
    if !(op.Writeback? && op.a == a) {
      assert After(d, op).db[Key(a)] == Stored(d, a);
    }
  }

  lemma NumberedKept(d: Disk, op: Op)
    requires Sound(d) && Legal(d, op)
    ensures Numbered(After(d, op))
  {
    StoredApart(d, op);
  }

  // What a reader should see at a after op: the bytes of a modification, otherwise what he saw.
  function Expected(d: Disk, op: Op, a: Addr): seq<Byte> {
    if op.Modify? && op.a == a then op.bytes else View(d, a)
  }

  // A clean page leaves the cache although the database holds something else.
  predicate Loses(d: Disk, op: Op) {
    op.Drop? && op.a in d.cache && d.cache[op.a].bytes != Stored(d, op.a)
  }

  // Every page reads as before except the one modified, exactly when nothing is lost.
  lemma StepView(d: Disk, op: Op)
    requires Legal(d, op)
    ensures (forall a: Addr :: View(After(d, op), a) == Expected(d, op, a)) <==> !Loses(d, op)
  {
    StoredApart(d, op);
    if Loses(d, op) {
      assert View(After(d, op), op.a) != Expected(d, op, op.a);
    }
  }

  // Clean pages agree with the database. A failed write breaks it: the page is clean all the same.
  ghost predicate Synced(d: Disk) {
    forall a :: a in d.cache && !d.cache[a].dirty ==> d.cache[a].bytes == Stored(d, a)
  }

  lemma SyncedKept(d: Disk, op: Op)
    requires Synced(d) && Legal(d, op)
    ensures !Loses(d, op)
    ensures Synced(After(d, op)) <==> !(op.Writeback? && op.fails && d.cache[op.a].bytes != Stored(d, op.a))
  {
    StoredApart(d, op);
    if op.Writeback? && op.fails && d.cache[op.a].bytes != Stored(d, op.a) {
      assert !After(d, op).cache[op.a].dirty;
    }
  }

  // A write that fails loses the page: once it is dropped, readers see the old contents.
  lemma FailedWriteLoses(d: Disk, a: Addr)
    requires a in d.cache && d.cache[a].bytes != Stored(d, a)
    ensures var failed := After(d, Writeback(a, true));
            && Legal(failed, Drop(a)) && Loses(failed, Drop(a))
            && View(After(failed, Drop(a)), a) == Stored(d, a)
            && View(After(failed, Drop(a)), a) != View(d, a)
  {
    var failed := After(d, Writeback(a, true));
    assert failed.cache[a] == Page(d.cache[a].bytes, false) && failed.db == d.db;
    assert a !in After(failed, Drop(a)).cache;
  }

  // A number new_inode hands out is neither 0 nor the root's, was not handed out before, has no
  // record and no page in the cache or the database, and all its pages read as zeros.
  lemma NewIsFresh(d: Disk)
    requires Sound(d) && Legal(d, NewInode)
    ensures var ino := d.next;
            && ino != 0 && ino != ROOT && !Known(d, ino) && Known(After(d, NewInode), ino)
            && InodeKey(ino) !in d.db
            && forall off: Number {:trigger Addr(ino, off)} :: Addr(ino, off) !in d.cache && View(After(d, NewInode), Addr(ino, off)) == Zeros()
  {
    var ino := d.next;
    assert InodeKey(ino) in d.db ==> Known(d, ino);
    forall off: Number
      ensures Addr(ino, off) !in d.cache && View(After(d, NewInode), Addr(ino, off)) == Zeros()
    {
      assert Key(Addr(ino, off)) in d.db ==> Known(d, ino);
    }
  }

  // ---- Runs ----

  ghost predicate LegalRun(run: seq<Op>)
    decreases |run|, 0
  {
    run == [] || (LegalRun(run[..|run| - 1]) && Legal(DiskAfter(run[..|run| - 1]), run[|run| - 1]))
  }

  ghost function DiskAfter(run: seq<Op>): Disk
    requires LegalRun(run)
    decreases |run|, 1
  {
    if run == [] then Empty() else After(DiskAfter(run[..|run| - 1]), run[|run| - 1])
  }

  // What was written to page a last; zeros if nothing was.
  function Latest(run: seq<Op>, a: Addr): seq<Byte> {
    if run == [] then Zeros()
    else if run[|run| - 1].Modify? && run[|run| - 1].a == a then run[|run| - 1].bytes
    else Latest(run[..|run| - 1], a)
  }

  ghost predicate Wrote(op: Op) {
    !(op.Writeback? && op.fails)
  }

  // However pages are loaded, modified, written back and dropped: when no write to the database
  // failed, a reader of any page sees what was written to it last, zeros before that.
  lemma {:induction false} RunView(run: seq<Op>, a: Addr)
    requires LegalRun(run) && forall k: nat :: k < |run| ==> Wrote(run[k])
    ensures Sound(DiskAfter(run)) && Synced(DiskAfter(run))
    ensures View(DiskAfter(run), a) == Latest(run, a)
  {
    if run != [] {
      var n := |run| - 1;
      RunView(run[..n], a);
      var d := DiskAfter(run[..n]);
      assert Wrote(run[n]);
      SizedKept(d, run[n]);
      NumberedKept(d, run[n]);
      SyncedKept(d, run[n]);
      StepView(d, run[n]);
      assert View(After(d, run[n]), a) == Expected(d, run[n], a);
    }
  }

  // No step of the run drops a page the database does not have.
  ghost predicate Lossless(run: seq<Op>)
    requires LegalRun(run)
  {
    run == [] || (Lossless(run[..|run| - 1]) && !Loses(DiskAfter(run[..|run| - 1]), run[|run| - 1]))
  }

  // After each step of the run a reader of any page sees what was written to it last.
  ghost predicate ReadsLatest(run: seq<Op>)
    requires LegalRun(run)
  {
    && (forall a: Addr :: View(DiskAfter(run), a) == Latest(run, a))
    && (run == [] || ReadsLatest(run[..|run| - 1]))
  }

  // Writes may fail: readers always see the last contents exactly when no step loses a page.
  lemma {:induction false} RunViewExact(run: seq<Op>)
    requires LegalRun(run)
    ensures ReadsLatest(run) <==> Lossless(run)
  {
    if run != [] {
      var n := |run| - 1;
      RunViewExact(run[..n]);
      StepView(DiskAfter(run[..n]), run[n]);
      if ReadsLatest(run[..n]) {
        forall a: Addr
          ensures Expected(DiskAfter(run[..n]), run[n], a) == Latest(run, a)
        {
          assert View(DiskAfter(run[..n]), a) == Latest(run[..n], a);
        }
      }
    }
  }

  lemma {:induction false} RunSound(run: seq<Op>)
    requires LegalRun(run)
    ensures Sound(DiskAfter(run))
  {
    if run != [] {
      var n := |run| - 1;
      RunSound(run[..n]);
      SizedKept(DiskAfter(run[..n]), run[n]);
      NumberedKept(DiskAfter(run[..n]), run[n]);
    }
  }

  // The record put for an inode last, not counting puts that failed.
  function LatestRecord(run: seq<Op>, ino: Number): Option<seq<Byte>> {
    if run == [] then None
    else
      var op := run[|run| - 1];
      if op.PutInode? && op.ino == ino && !op.fails then Some(op.record)
      else LatestRecord(run[..|run| - 1], ino)
  }

  // Over any run, failing writes and puts included: the database holds of an inode what was put
  // last, and nothing if nothing was.
  lemma {:induction false} RunRecord(run: seq<Op>, ino: Number)
    requires LegalRun(run)
    ensures var d := DiskAfter(run);
            match LatestRecord(run, ino)
            case Some(record) => InodeKey(ino) in d.db && d.db[InodeKey(ino)] == record
            case None => InodeKey(ino) !in d.db
  {
    if run != [] {
      var n := |run| - 1;
      RunRecord(run[..n], ino);
      StoredApart(DiskAfter(run[..n]), run[n]);
    }
  }

  // The numbers new_inode handed out in a run, in their order.
  ghost function Issued(run: seq<Op>): seq<Number>
    requires LegalRun(run)
  {
    if run == [] then []
    else
      var n := |run| - 1;
      Issued(run[..n]) + if run[n].NewInode? then [DiskAfter(run[..n]).next] else []
  }

  // They count up from 5, so none is handed out twice.
  lemma {:induction false} IssuedInOrder(run: seq<Op>)
    requires LegalRun(run)
    ensures DiskAfter(run).next == 5 + |Issued(run)|
    ensures forall k: nat :: k < |Issued(run)| ==> Issued(run)[k] == 5 + k
  {
    if run != [] {
      IssuedInOrder(run[..|run| - 1]);
    }
  }
}
