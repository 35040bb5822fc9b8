/** Any number of threads running install_file, uninstall_file and get_file: the cells threaded
    into a free list, the bump counter, the lock. A step accesses the array at most once; what only
    the holder of the lock touches may change along with it. */
module DescriptorThreads {
  import opened Descriptors

  // Where a thread is. In all states from Installing to Leaving but Storing it holds the lock.
  datatype Pc =
    | Idle
    | Installing(file: File)              // got the lock
    | Popping(file: File, fd: nat)        // read free_head
    | Picked(file: File, fd: nat)         // fd is chosen
    | Storing(file: File, fd: nat)        // released the lock, the pointer is not stored yet
    | Closing(fd: nat)                    // got the lock
    | Loaded(fd: nat, file: File)         // read a pointer from the cell
    | Linked(fd: nat)                     // wrote the link into the cell, free_head is unchanged yet
    | Leaving                             // nothing left but to release the lock

  datatype Call = Install(file: File) | Close(fd: nat) | Look(fd: nat)

  datatype Holder = Nobody | Thread(t: nat)

  datatype Machine = Machine(cells: seq<nat>, next: nat, head: nat, lock: Holder, pcs: seq<Pc>)

  function Start(threads: nat): Machine {
    Machine(seq(LIMIT, _ => 0), FIRST_FD, 0, Nobody, seq(threads, _ => Idle))
  }

  predicate Critical(pc: Pc) {
    !pc.Idle? && !pc.Storing?
  }

  // The descriptor a thread in install_file has chosen and not published.
  predicate Carries(pc: Pc, fd: nat) {
    (pc.Picked? || pc.Storing?) && pc.fd == fd
  }

  // Every access of the next step lies in the table.
  ghost predicate InBounds(m: Machine) {
    && |m.cells| == LIMIT
    && forall t: nat :: t < |m.pcs| && !m.pcs[t].Idle? && !m.pcs[t].Installing? && !m.pcs[t].Leaving? ==> m.pcs[t].fd < LIMIT
  }

  ghost predicate CallInBounds(c: Call) {
    !c.Install? ==> c.fd < LIMIT
  }

  // Thread t takes its next step; an idle one starts the call c. What the step shows is its event.
  function Step(m: Machine, t: nat, c: Call): (Machine, Event)
    requires InBounds(m) && t < |m.pcs| && CallInBounds(c)
  {
    match m.pcs[t]
    case Idle =>
      (match c
       case Install(file) => (if m.lock == Nobody then m.(lock := Thread(t), pcs := m.pcs[t := Installing(file)]) else m, Quiet)
       case Close(fd) => (if m.lock == Nobody then m.(lock := Thread(t), pcs := m.pcs[t := Closing(fd)]) else m, Quiet)
       case Look(fd) => (m, if m.cells[fd] < LIMIT then SawNone(fd) else Saw(fd, m.cells[fd])))
    case Installing(file) =>
      if m.next == LIMIT then
        if m.head != 0 then (m.(pcs := m.pcs[t := Popping(file, m.head)]), Quiet)
        else (m.(pcs := m.pcs[t := Leaving]), Full)
      else (m.(next := m.next + 1, pcs := m.pcs[t := Picked(file, m.next)]), Took(m.next, file))
    case Popping(file, fd) =>
      (m.(head := m.cells[fd], pcs := m.pcs[t := Picked(file, fd)]), Took(fd, file))
    case Picked(file, fd) =>
      (m.(lock := Nobody, pcs := m.pcs[t := Storing(file, fd)]), Quiet)
    case Storing(file, fd) =>
      (m.(cells := m.cells[fd := file], pcs := m.pcs[t := Idle]), Published(fd, file))
    case Closing(fd) =>
      if m.cells[fd] < LIMIT then (m.(pcs := m.pcs[t := Leaving]), NotOpen(fd))
      else (m.(pcs := m.pcs[t := Loaded(fd, m.cells[fd])]), Quiet)
    case Loaded(fd, file) =>
      (m.(cells := m.cells[fd := m.head], pcs := m.pcs[t := Linked(fd)]), Closed(fd, file))
    case Linked(fd) =>
      (m.(head := fd, pcs := m.pcs[t := Leaving]), Quiet)
    case Leaving =>
      (m.(lock := Nobody, pcs := m.pcs[t := Idle]), Quiet)
  }

  // ---- What the memory means ----

  function Follower(free: seq<nat>, i: nat): nat {
    if i + 1 < |free| then free[i + 1] else 0
  }

  // From head the cells lead through the free descriptors to 0.
  ghost predicate Chain(cells: seq<nat>, head: nat, free: seq<nat>) {
    && head == (if free == [] then 0 else free[0])
    && (forall i: nat :: i < |free| ==> free[i] < |cells|)
    && (forall i: nat {:trigger Follower(free, i)} :: i < |free| ==> cells[free[i]] == Follower(free, i))
  }

  // free_head, or the cell about to be stored there.
  ghost function Head(m: Machine): nat {
    if m.lock.Thread? && m.lock.t < |m.pcs| && m.pcs[m.lock.t].Linked? then m.pcs[m.lock.t].fd else m.head
  }

  ghost predicate CellsMean(cells: seq<nat>, a: Table) {
    && |cells| == LIMIT
    && (forall fd :: fd in a.live ==> fd < LIMIT && cells[fd] == a.live[fd])
    && (forall fd :: fd in a.flying ==> fd < LIMIT && cells[fd] < LIMIT)
    && (forall fd: nat :: fd < LIMIT && (fd < FIRST_FD || a.next <= fd) ==> cells[fd] == 0)
  }

  ghost predicate LockMeans(m: Machine) {
    && (m.lock.Thread? ==> m.lock.t < |m.pcs|)
    && (forall t: nat {:trigger Critical(m.pcs[t])} :: t < |m.pcs| ==> (Critical(m.pcs[t]) <==> m.lock == Thread(t)))
  }

  // What a thread knows at its place.
  ghost predicate Knows(m: Machine, a: Table, pc: Pc) {
    match pc
    case Popping(_, fd) => a.next == LIMIT && a.free != [] && fd == m.head && fd == a.free[0]
    case Picked(file, fd) => fd in a.flying && a.flying[fd] == file
    case Storing(file, fd) => fd in a.flying && a.flying[fd] == file
    case Closing(fd) => fd < LIMIT
    case Loaded(fd, file) => fd in a.live && a.live[fd] == file
    case Linked(fd) => a.free != [] && fd == a.free[0] && fd < LIMIT == |m.cells| && m.cells[fd] == m.head
    case _ => true
  }

  ghost predicate Carried(pcs: seq<Pc>, fd: nat) {
    exists t: nat :: t < |pcs| && Carries(pcs[t], fd)
  }

  // A flying descriptor is carried by exactly one thread.
  ghost predicate Owned(pcs: seq<Pc>, a: Table) {
    && (forall fd :: fd in a.flying ==> Carried(pcs, fd))
    && (forall t: nat, u: nat, fd: nat :: t < |pcs| && u < |pcs| && Carries(pcs[t], fd) && Carries(pcs[u], fd) ==> t == u)
  }

  ghost predicate Represents(m: Machine, a: Table) {
    && Partition(a)
    && m.next == a.next
    && CellsMean(m.cells, a)
    && Chain(m.cells, Head(m), a.free)
    && LockMeans(m)
    && (forall t: nat {:trigger Knows(m, a, m.pcs[t])} :: t < |m.pcs| ==> Knows(m, a, m.pcs[t]))
    && Owned(m.pcs, a)
  }

  lemma StartRepresents(threads: nat)
    ensures Represents(Start(threads), Initial())
  {
  }

  lemma RepresentsInBounds(m: Machine, a: Table)
    requires Represents(m, a)
    ensures InBounds(m)
  {
    forall t: nat | t < |m.pcs| && !m.pcs[t].Idle? && !m.pcs[t].Installing? && !m.pcs[t].Leaving?
      ensures m.pcs[t].fd < LIMIT
    {
      assert Knows(m, a, m.pcs[t]);
    }
  }

  // A cell holds a pointer exactly when its descriptor is live.
  lemma ChainCellIsLive(cells: seq<nat>, head: nat, a: Table, fd: nat)
    requires Partition(a) && CellsMean(cells, a) && Chain(cells, head, a.free) && fd < LIMIT
    ensures cells[fd] >= LIMIT <==> fd in a.live
    ensures fd in a.live ==> cells[fd] == a.live[fd]
  {
    if fd in a.free {
      var i: nat :| i < |a.free| && a.free[i] == fd;
      assert cells[fd] == Follower(a.free, i);
      assert fd !in a.live;
    } else if fd in a.live {
      var file: File := a.live[fd];
      assert cells[fd] == file;
    } else if fd in a.flying {
      assert cells[fd] < LIMIT;
    } else {
      assert fd < FIRST_FD || a.next <= fd;
    }
  }

  lemma CellIsLive(m: Machine, a: Table, fd: nat)
    requires Represents(m, a) && fd < LIMIT
    ensures |m.cells| == LIMIT
    ensures m.cells[fd] >= LIMIT <==> fd in a.live
    ensures fd in a.live ==> m.cells[fd] == a.live[fd]
  {
    ChainCellIsLive(m.cells, Head(m), a, fd);
  }

  // While one thread has the lock the others are idle or about to store a pointer.
  lemma OthersOutside(m: Machine, t: nat)
    requires LockMeans(m) && t < |m.pcs| && Critical(m.pcs[t])
    ensures m.lock == Thread(t)
    ensures forall u: nat :: u < |m.pcs| && u != t ==> m.pcs[u].Idle? || m.pcs[u].Storing?
  {
    forall u: nat | u < |m.pcs| && u != t ensures m.pcs[u].Idle? || m.pcs[u].Storing? {
      assert !Critical(m.pcs[u]);
    }
  }

  lemma LockKept(m: Machine, t: nat, pc: Pc, lock: Holder)
    requires LockMeans(m) && t < |m.pcs| && lock == (if Critical(pc) then Thread(t) else Nobody)
    requires m.lock == Nobody || m.lock == Thread(t)
    ensures m.lock == (if Critical(m.pcs[t]) then Thread(t) else Nobody)
    ensures forall n: Machine :: n.lock == lock && n.pcs == m.pcs[t := pc] ==> LockMeans(n)
  {
  }

  // Changing a thread that carries nothing into one that carries nothing.
  lemma OwnedKept(pcs: seq<Pc>, t: nat, pc: Pc, a: Table, b: Table)
    requires Owned(pcs, a) && t < |pcs| && b.flying.Keys == a.flying.Keys
    requires forall fd :: Carries(pcs[t], fd) <==> Carries(pc, fd)
    ensures Owned(pcs[t := pc], b)
  {
    var qcs := pcs[t := pc];
    forall fd | fd in b.flying ensures Carried(qcs, fd) {
      assert Carried(pcs, fd);
      var u: nat :| u < |pcs| && Carries(pcs[u], fd);
      assert Carries(qcs[u], fd);
    }
    forall u: nat, v: nat, fd: nat | u < |qcs| && v < |qcs| && Carries(qcs[u], fd) && Carries(qcs[v], fd) ensures u == v {
      assert Carries(pcs[u], fd) && Carries(pcs[v], fd);
    }
  }

  // A thread that carries nothing takes up a descriptor that is not flying.
  lemma OwnedMore(m: Machine, a: Table, t: nat, file: File, fd: nat)
    requires Owned(m.pcs, a) && t < |m.pcs| && fd !in a.flying
    requires forall u: nat :: u < |m.pcs| ==> Knows(m, a, m.pcs[u])
    requires forall x :: !Carries(m.pcs[t], x)
    ensures forall b: Table :: b.flying == a.flying[fd := file] ==> Owned(m.pcs[t := Picked(file, fd)], b)
  {
    var qcs := m.pcs[t := Picked(file, fd)];
    forall b: Table, x | b.flying == a.flying[fd := file] && x in b.flying ensures Carried(qcs, x) {
      if x == fd {
        assert Carries(qcs[t], x);
      } else {
        assert Carried(m.pcs, x);
        var u: nat :| u < |m.pcs| && Carries(m.pcs[u], x);
        assert Carries(qcs[u], x);
      }
    }
    forall u: nat, v: nat, x: nat | u < |qcs| && v < |qcs| && Carries(qcs[u], x) && Carries(qcs[v], x) ensures u == v {
      assert u != t ==> Carries(m.pcs[u], x) && Knows(m, a, m.pcs[u]);
      assert v != t ==> Carries(m.pcs[v], x) && Knows(m, a, m.pcs[v]);
    }
  }

  // A thread puts down the descriptor it carries.
  lemma OwnedLess(pcs: seq<Pc>, a: Table, b: Table, t: nat, fd: nat)
    requires Owned(pcs, a) && t < |pcs| && Carries(pcs[t], fd) && b.flying == a.flying - {fd}
    ensures Owned(pcs[t := Idle], b)
  {
    var qcs := pcs[t := Idle];
    forall x | x in b.flying ensures Carried(qcs, x) {
      assert Carried(pcs, x);
      var u: nat :| u < |pcs| && Carries(pcs[u], x);
      assert u != t;
      assert Carries(qcs[u], x);
    }
    forall u: nat, v: nat, x: nat | u < |qcs| && v < |qcs| && Carries(qcs[u], x) && Carries(qcs[v], x) ensures u == v {
      assert Carries(pcs[u], x) && Carries(pcs[v], x);
    }
  }

  // While thread t has the lock and takes nothing from flight, the others know what they knew.
  lemma OthersKnow(m: Machine, a: Table, n: Machine, b: Table, t: nat)
    requires LockMeans(m) && t < |m.pcs| && Critical(m.pcs[t])
    requires forall u: nat :: u < |m.pcs| ==> Knows(m, a, m.pcs[u])
    requires |n.pcs| == |m.pcs| && forall u: nat :: u < |m.pcs| && u != t ==> n.pcs[u] == m.pcs[u]
    requires forall fd :: fd in a.flying ==> fd in b.flying && b.flying[fd] == a.flying[fd]
    ensures forall u: nat :: u < |n.pcs| && u != t ==> Knows(n, b, n.pcs[u])
  {
    OthersOutside(m, t);
    forall u: nat | u < |n.pcs| && u != t ensures Knows(n, b, n.pcs[u]) {
      assert Knows(m, a, m.pcs[u]);
    }
  }

  lemma ChainPop(cells: seq<nat>, free: seq<nat>)
    requires free != [] && Chain(cells, free[0], free)
    ensures Chain(cells, cells[free[0]], free[1..])
  {
    assert cells[free[0]] == Follower(free, 0);
    forall i: nat | i < |free[1..]|
      ensures free[1..][i] == free[i + 1] && Follower(free[1..], i) == Follower(free, i + 1)
    {
    }
  }

  lemma ChainPush(cells: seq<nat>, head: nat, free: seq<nat>, fd: nat)
    requires Chain(cells, head, free) && fd < |cells| && fd !in free
    ensures Chain(cells[fd := head], fd, [fd] + free)
  {
    var more := [fd] + free;
    forall i: nat | i < |more|
      ensures i > 0 ==> more[i] == free[i - 1] && free[i - 1] in free && Follower(more, i) == Follower(free, i - 1)
      ensures i == 0 ==> Follower(more, i) == head
    {
    }
  }

  lemma ChainApart(cells: seq<nat>, head: nat, free: seq<nat>, fd: nat, v: nat)
    requires Chain(cells, head, free) && fd < |cells| && fd !in free
    ensures Chain(cells[fd := v], head, free)
  {
    assert forall i: nat :: i < |free| ==> free[i] in free;
  }

  lemma CellsClosed(cells: seq<nat>, a: Table, fd: nat, file: File, head: nat)
    requires CellsMean(cells, a) && Partition(a) && Allowed(a, Closed(fd, file))
    ensures CellsMean(cells[fd := head], After(a, Closed(fd, file)))
  {
  }

  lemma CellsStored(cells: seq<nat>, a: Table, fd: nat, file: File)
    requires CellsMean(cells, a) && Partition(a) && Allowed(a, Published(fd, file))
    ensures CellsMean(cells[fd := file], After(a, Published(fd, file)))
  {
  }

  lemma CellsTook(cells: seq<nat>, a: Table, fd: nat, file: File)
    requires CellsMean(cells, a) && Partition(a) && Allowed(a, Took(fd, file))
    requires fd < LIMIT && cells[fd] < LIMIT
    ensures CellsMean(cells, After(a, Took(fd, file)))
  {
    assert a.next == LIMIT ==> fd in a.free;
  }

  // ---- One lemma for each place a step starts from ----

  lemma IdleRefines(m: Machine, a: Table, t: nat, c: Call)
    requires Represents(m, a) && t < |m.pcs| && CallInBounds(c) && InBounds(m)
    requires m.pcs[t] == Idle
    ensures var (n, e) := Step(m, t, c); Allowed(a, e) && Represents(n, After(a, e))
  {
    var (n, e) := Step(m, t, c);
    if c.Look? {
      CellIsLive(m, a, c.fd);
    } else if m.lock == Nobody {
      LockKept(m, t, n.pcs[t], Thread(t));
      OwnedKept(m.pcs, t, n.pcs[t], a, a);
      forall u: nat | u < |n.pcs| ensures Knows(n, a, n.pcs[u]) {
        assert Knows(m, a, m.pcs[u]);
      }
    }
  }

  lemma InstallingRefines(m: Machine, a: Table, t: nat, c: Call)
    requires Represents(m, a) && t < |m.pcs| && CallInBounds(c) && InBounds(m)
    requires m.pcs[t].Installing?
    ensures var (n, e) := Step(m, t, c); Allowed(a, e) && Represents(n, After(a, e))
  {
    if m.next == LIMIT {
      InstallingReused(m, a, t, c);
    } else {
      InstallingFresh(m, a, t, c);
    }
  }

  // No fresh descriptor is left: the head of the free list is read, if there is one.
  lemma InstallingReused(m: Machine, a: Table, t: nat, c: Call)
    requires Represents(m, a) && t < |m.pcs| && CallInBounds(c) && InBounds(m)
    requires m.pcs[t].Installing? && m.next == LIMIT
    ensures var (n, e) := Step(m, t, c); Allowed(a, e) && Represents(n, After(a, e))
  {
    var (n, e) := Step(m, t, c);
    assert Critical(m.pcs[t]);
    LockKept(m, t, n.pcs[t], Thread(t));
    assert a.free != [] ==> a.free[0] in a.free;
    OwnedKept(m.pcs, t, n.pcs[t], a, a);
    OthersKnow(m, a, n, a, t);
  }

  lemma InstallingFresh(m: Machine, a: Table, t: nat, c: Call)
    requires Represents(m, a) && t < |m.pcs| && CallInBounds(c) && InBounds(m)
    requires m.pcs[t].Installing? && m.next != LIMIT
    ensures var (n, e) := Step(m, t, c); Allowed(a, e) && Represents(n, After(a, e))
  {
    var (n, e) := Step(m, t, c);
    assert Critical(m.pcs[t]);
    LockKept(m, t, n.pcs[t], Thread(t));
    PartitionKept(a, e);
    OwnedMore(m, a, t, m.pcs[t].file, m.next);
    CellsTook(m.cells, a, m.next, m.pcs[t].file);
    OthersKnow(m, a, n, After(a, e), t);
  }

  lemma PoppingRefines(m: Machine, a: Table, t: nat, c: Call)
    requires Represents(m, a) && t < |m.pcs| && CallInBounds(c) && InBounds(m)
    requires m.pcs[t].Popping?
    ensures var (n, e) := Step(m, t, c); Allowed(a, e) && Represents(n, After(a, e))
  {
    var (n, e) := Step(m, t, c);
    var b := After(a, e);
    assert Critical(m.pcs[t]);
    LockKept(m, t, n.pcs[t], Thread(t));
    assert Knows(m, a, m.pcs[t]);
    var fd, file := m.pcs[t].fd, m.pcs[t].file;
    assert fd in a.free;
    PartitionKept(a, e);
    OwnedMore(m, a, t, file, fd);
    CellIsLive(m, a, fd);
    CellsTook(m.cells, a, fd, file);
    ChainPop(m.cells, a.free);
    OthersKnow(m, a, n, b, t);
    assert Chain(n.cells, Head(n), b.free);
  }

  lemma StoringRefines(m: Machine, a: Table, t: nat, c: Call)
    requires Represents(m, a) && t < |m.pcs| && CallInBounds(c) && InBounds(m)
    requires m.pcs[t].Storing?
    ensures var (n, e) := Step(m, t, c); Allowed(a, e) && Represents(n, After(a, e))
  {
    var (n, e) := Step(m, t, c);
    var b := After(a, e);
    assert Knows(m, a, m.pcs[t]);
    var fd, file := m.pcs[t].fd, m.pcs[t].file;
    PartitionKept(a, e);
    OwnedLess(m.pcs, a, b, t, fd);
    CellsStored(m.cells, a, fd, file);
    assert Head(n) == Head(m);
    ChainApart(m.cells, Head(m), a.free, fd, file);
    forall u: nat | u < |n.pcs| ensures Knows(n, b, n.pcs[u]) {
      assert Knows(m, a, m.pcs[u]);
      if u != t {
        assert Carries(m.pcs[t], fd) && !Carries(m.pcs[u], fd);
      }
    }
    forall u: nat | u < |n.pcs| ensures Critical(n.pcs[u]) <==> n.lock == Thread(u) {
      assert Critical(m.pcs[u]) <==> m.lock == Thread(u);
    }
    assert LockMeans(n);
    assert Chain(n.cells, Head(n), b.free);
    assert CellsMean(n.cells, b);
    assert Owned(n.pcs, b);
  }

  lemma LoadedRefines(m: Machine, a: Table, t: nat, c: Call)
    requires Represents(m, a) && t < |m.pcs| && CallInBounds(c) && InBounds(m)
    requires m.pcs[t].Loaded?
    ensures var (n, e) := Step(m, t, c); Allowed(a, e) && Represents(n, After(a, e))
  {
    var (n, e) := Step(m, t, c);
    var b := After(a, e);
    assert Critical(m.pcs[t]);
    LockKept(m, t, n.pcs[t], Thread(t));
    assert Knows(m, a, m.pcs[t]);
    var fd, file := m.pcs[t].fd, m.pcs[t].file;
    PartitionKept(a, e);
    OwnedKept(m.pcs, t, n.pcs[t], a, b);
    CellsClosed(m.cells, a, fd, file, m.head);
    ChainPush(m.cells, m.head, a.free, fd);
    OthersKnow(m, a, n, b, t);
    assert Head(n) == fd;
    assert Knows(n, b, n.pcs[t]);
    assert Chain(n.cells, Head(n), b.free);
  }

  // Choosing done, nothing found, cell read, list linked, lock released: the table does not change.
  lemma QuietRefines(m: Machine, a: Table, t: nat, c: Call)
    requires Represents(m, a) && t < |m.pcs| && CallInBounds(c) && InBounds(m)
    requires m.pcs[t].Picked? || m.pcs[t].Closing? || m.pcs[t].Linked? || m.pcs[t].Leaving?
    ensures var (n, e) := Step(m, t, c); Allowed(a, e) && Represents(n, After(a, e))
  {
    var (n, e) := Step(m, t, c);
    assert Critical(m.pcs[t]);
    LockKept(m, t, n.pcs[t], n.lock);
    OwnedKept(m.pcs, t, n.pcs[t], a, a);
    assert Knows(m, a, m.pcs[t]);
    if m.pcs[t].Closing? {
      CellIsLive(m, a, m.pcs[t].fd);
    }
    OthersKnow(m, a, n, a, t);
  }

  // Each step answers as the table does and takes the machine to one that means the table after.
  lemma StepRefines(m: Machine, a: Table, t: nat, c: Call)
    requires Represents(m, a) && t < |m.pcs| && CallInBounds(c)
    ensures InBounds(m)
    ensures var (n, e) := Step(m, t, c);
            Allowed(a, e) && Represents(n, After(a, e)) && |n.pcs| == |m.pcs|
  {
    RepresentsInBounds(m, a);
    match m.pcs[t]
    case Idle => IdleRefines(m, a, t, c);
    case Installing(_) => InstallingRefines(m, a, t, c);
    case Popping(_, _) => PoppingRefines(m, a, t, c);
    case Storing(_, _) => StoringRefines(m, a, t, c);
    case Loaded(_, _) => LoadedRefines(m, a, t, c);
    case _ => QuietRefines(m, a, t, c);
  }

  // ---- Runs ----

  datatype Turn = Turn(t: nat, call: Call)

  ghost predicate Turns(threads: nat, run: seq<Turn>) {
    forall i: nat :: i < |run| ==> run[i].t < threads && CallInBounds(run[i].call)
  }

  // The machine after the turns of a run, and what the turns showed.
  ghost function Run(threads: nat, run: seq<Turn>): (r: (Machine, seq<Event>))
    requires Turns(threads, run)
    ensures |r.0.pcs| == threads && |r.1| == |run|
    ensures LegalHistory(r.1) && Represents(r.0, TableOf(r.1))
  {
    if run == [] then
      StartRepresents(threads);
      (Start(threads), [])
    else
      var n := |run| - 1;
      var (m, h) := Run(threads, run[..n]);
      StepRefines(m, TableOf(h), run[n].t, run[n].call);
      var (k, e) := Step(m, run[n].t, run[n].call);
      assert (h + [e])[..n] == h;
      (k, h + [e])
  }

  // The free list in the array: acyclic, ending at 0, made of closed descriptors.
  ghost predicate FreeList(cells: seq<nat>, head: nat, free: seq<nat>) {
    Distinct(free) && Chain(cells, head, free)
  }

  // After every run whatsoever the descriptors from 3 are partitioned: never used, on the free
  // list in the array, carried by exactly one thread, or live with the pointer in the cell.
  lemma RunPartitions(threads: nat, run: seq<Turn>)
    requires Turns(threads, run)
    ensures var m, a := Run(threads, run).0, TableOf(Run(threads, run).1);
            && Partition(a) && m.next == a.next
            && FreeList(m.cells, Head(m), a.free)
            && (forall fd: nat :: fd in a.flying <==> Carried(m.pcs, fd))
            && (forall fd: nat :: fd < LIMIT ==> (fd in a.live <==> m.cells[fd] >= LIMIT))
            && (forall t: nat, u: nat, fd: nat :: t < threads && u < threads && Carries(m.pcs[t], fd) && Carries(m.pcs[u], fd) ==> t == u)
  {
    var (m, h) := Run(threads, run);
    var a := TableOf(h);
    forall fd: nat ensures fd in a.flying <==> Carried(m.pcs, fd) {
      if Carried(m.pcs, fd) {
        var t: nat :| t < |m.pcs| && Carries(m.pcs[t], fd);
        assert Knows(m, a, m.pcs[t]);
      }
    }
    forall fd: nat | fd < LIMIT ensures fd in a.live <==> m.cells[fd] >= LIMIT {
      CellIsLive(m, a, fd);
    }
  }
}
