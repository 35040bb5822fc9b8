/** What a thread gets from install_file, uninstall_file and get_file in the middle of all the
    others: one answer for each call, after at most five turns of its own. */
module DescriptorCalls {
  import opened Descriptors
  import opened DescriptorThreads

  // The answers among the events of thread t in the turns from i up to k.
  function Shown(run: seq<Turn>, events: seq<Event>, t: nat, i: nat, k: nat): seq<Event>
    requires i <= k <= |run| == |events|
    decreases k
  {
    if i == k then []
    else
      var before := Shown(run, events, t, i, k - 1);
      if run[k - 1].t == t && !events[k - 1].Quiet? then before + [events[k - 1]] else before
  }

  // How many of these turns are its own.
  function OwnTurns(run: seq<Turn>, t: nat, i: nat, k: nat): nat
    requires i <= k <= |run|
    decreases k
  {
    if i == k then 0 else OwnTurns(run, t, i, k - 1) + if run[k - 1].t == t then 1 else 0
  }

  // Exactly the answer of one finished call.
  predicate Answers(c: Call, said: seq<Event>) {
    match c
    case Install(file) =>
      || said == [Full]
      || (|said| == 2 && said[0].Took? && said[0].file == file && said[1] == Published(said[0].fd, file))
    case Close(fd) =>
      |said| == 1 && (said[0] == NotOpen(fd) || (said[0].Closed? && said[0].fd == fd))
    case Look(fd) =>
      |said| == 1 && (said[0] == SawNone(fd) || (said[0].Saw? && said[0].fd == fd))
  }

  // ---- Inside a call ----

  // What a thread has shown of the call it is in, by its place.
  predicate Said(pc: Pc, c: Call, said: seq<Event>) {
    match pc
    case Installing(file) => c == Install(file) && said == []
    case Popping(file, _) => c == Install(file) && said == []
    case Picked(file, fd) => c == Install(file) && said == [Took(fd, file)]
    case Storing(file, fd) => c == Install(file) && said == [Took(fd, file)]
    case Closing(fd) => c == Close(fd) && said == []
    case Loaded(fd, _) => c == Close(fd) && said == []
    case Linked(fd) => c == Close(fd) && Answers(c, said)
    case Leaving => Answers(c, said)
    case Idle => Answers(c, said)
  }

  // How many turns of its own a thread is away from the end of its call at most.
  function Remaining(pc: Pc): nat {
    match pc
    case Idle => 0
    case Installing(_) => 4
    case Popping(_, _) => 3
    case Picked(_, _) => 2
    case Storing(_, _) => 1
    case Closing(_) => 4
    case Loaded(_, _) => 3
    case Linked(_) => 2
    case Leaving => 1
  }

  // A call starts when its thread gets the lock; get_file takes none.
  predicate Starts(m: Machine, c: Call) {
    c.Look? || m.lock == Nobody
  }

  lemma StartSays(m: Machine, t: nat, c: Call)
    requires InBounds(m) && t < |m.pcs| && CallInBounds(c) && m.pcs[t].Idle? && Starts(m, c)
    ensures var (n, e) := Step(m, t, c);
            && |n.pcs| == |m.pcs|
            && Said(n.pcs[t], c, if e.Quiet? then [] else [e])
            && Remaining(n.pcs[t]) <= 4
  {
  }

  lemma OwnStepSays(m: Machine, t: nat, next: Call, c: Call, said: seq<Event>)
    requires InBounds(m) && t < |m.pcs| && CallInBounds(next) && !m.pcs[t].Idle?
    requires Said(m.pcs[t], c, said)
    ensures var (n, e) := Step(m, t, next);
            && |n.pcs| == |m.pcs|
            && Said(n.pcs[t], c, if e.Quiet? then said else said + [e])
            && Remaining(n.pcs[t]) < Remaining(m.pcs[t])
  {
  }

  // The turns of other threads move none but themselves.
  lemma OthersStay(m: Machine, u: nat, c: Call, t: nat)
    requires InBounds(m) && u < |m.pcs| && CallInBounds(c) && t < |m.pcs| && t != u
    ensures Step(m, u, c).0.pcs[t] == m.pcs[t]
  {
  }

  // A thread that does not get the lock waits: nothing changes and nothing is shown.
  lemma Waits(m: Machine, t: nat, c: Call)
    requires InBounds(m) && t < |m.pcs| && CallInBounds(c) && m.pcs[t].Idle?
    ensures !Starts(m, c) <==> Step(m, t, c) == (m, Quiet)
  {
    if Starts(m, c) && !c.Look? {
      assert !Step(m, t, c).0.pcs[t].Idle?;
    }
  }

  // Any turn of any thread, while thread t is in the call c.
  lemma TurnSays(m: Machine, turn: Turn, t: nat, c: Call, said: seq<Event>)
    requires InBounds(m) && turn.t < |m.pcs| && CallInBounds(turn.call) && t < |m.pcs| && !m.pcs[t].Idle?
    requires Said(m.pcs[t], c, said)
    ensures var (n, e) := Step(m, turn.t, turn.call);
            && |n.pcs| == |m.pcs|
            && Said(n.pcs[t], c, if turn.t == t && !e.Quiet? then said + [e] else said)
            && Remaining(n.pcs[t]) + (if turn.t == t then 1 else 0) <= Remaining(m.pcs[t])
  {
    if turn.t == t {
      OwnStepSays(m, t, turn.call, c, said);
    } else {
      OthersStay(m, turn.t, turn.call, t);
    }
  }

  // ---- In a trace ----

  // One step of some thread.
  ghost predicate Follows(m: Machine, turn: Turn, n: Machine, e: Event) {
    && InBounds(m) && turn.t < |m.pcs| && CallInBounds(turn.call)
    && (n, e) == Step(m, turn.t, turn.call)
  }

  // The machines before each turn and after the last one, and what the turns showed.
  ghost predicate Trace(threads: nat, ms: seq<Machine>, run: seq<Turn>, events: seq<Event>) {
    && |ms| == |run| + 1 && |events| == |run|
    && (forall k :: 0 <= k < |ms| ==> |ms[k].pcs| == threads)
    && (forall k, next :: 0 <= k < |run| && next == k + 1 ==> Follows(ms[k], run[k], ms[next], events[k]))
  }

  // Turn i starts a call of thread t, which is not idle again before turn k.
  ghost predicate InCall(ms: seq<Machine>, run: seq<Turn>, t: nat, i: nat, k: nat) {
    && i < k < |ms| == |run| + 1 && (forall j :: 0 <= j < |ms| ==> t < |ms[j].pcs|)
    && run[i].t == t && ms[i].pcs[t].Idle? && Starts(ms[i], run[i].call)
    && forall j :: i < j < k ==> !ms[j].pcs[t].Idle?
  }

  lemma StartTurn(m: Machine, turn: Turn, n: Machine, e: Event)
    requires Follows(m, turn, n, e) && m.pcs[turn.t].Idle? && Starts(m, turn.call)
    ensures |n.pcs| == |m.pcs|
    ensures Said(n.pcs[turn.t], turn.call, if e.Quiet? then [] else [e]) && Remaining(n.pcs[turn.t]) <= 4
  {
    StartSays(m, turn.t, turn.call);
  }

  lemma NextTurn(m: Machine, turn: Turn, n: Machine, e: Event, t: nat, c: Call, said: seq<Event>)
    requires Follows(m, turn, n, e) && t < |m.pcs| && !m.pcs[t].Idle? && Said(m.pcs[t], c, said)
    ensures |n.pcs| == |m.pcs|
    ensures Said(n.pcs[t], c, if turn.t == t && !e.Quiet? then said + [e] else said)
    ensures Remaining(n.pcs[t]) + (if turn.t == t then 1 else 0) <= Remaining(m.pcs[t])
  {
    TurnSays(m, turn, t, c, said);
  }

  lemma {:induction false} CallSays(threads: nat, ms: seq<Machine>, run: seq<Turn>, events: seq<Event>, t: nat, i: nat, k: nat)
    requires Trace(threads, ms, run, events) && InCall(ms, run, t, i, k)
    ensures Said(ms[k].pcs[t], run[i].call, Shown(run, events, t, i, k))
    ensures OwnTurns(run, t, i, k) + Remaining(ms[k].pcs[t]) <= 5
    decreases k
  {
    var last := k - 1;
    assert Follows(ms[last], run[last], ms[k], events[last]);
    if last == i {
      StartTurn(ms[i], run[i], ms[k], events[i]);
      assert Shown(run, events, t, i, i) == [];
    } else {
      CallSays(threads, ms, run, events, t, i, last);
      NextTurn(ms[last], run[last], ms[k], events[last], t, run[i].call, Shown(run, events, t, i, last));
    }
  }

  // ---- In a run ----

  // The machines before each turn of a run, and after the last one.
  ghost function Machines(threads: nat, run: seq<Turn>): (ms: seq<Machine>)
    requires Turns(threads, run)
    ensures |ms| == |run| + 1
    decreases |run|
  {
    (if run == [] then [] else Machines(threads, run[..|run| - 1])) + [Run(threads, run).0]
  }

  lemma TraceMore(threads: nat, ms: seq<Machine>, run: seq<Turn>, events: seq<Event>, turn: Turn, n: Machine, e: Event)
    requires Trace(threads, ms, run, events) && Follows(ms[|run|], turn, n, e) && |n.pcs| == threads
    ensures Trace(threads, ms + [n], run + [turn], events + [e])
  {
  }

  lemma Rejoined<T>(s: seq<T>)
    requires s != []
    ensures s[..|s| - 1] + [s[|s| - 1]] == s
  {
  }

  lemma {:induction false} RunTrace(threads: nat, run: seq<Turn>)
    requires Turns(threads, run)
    ensures Trace(threads, Machines(threads, run), run, Run(threads, run).1)
    decreases |run|
  {
    if run != [] {
      var n := |run| - 1;
      RunTrace(threads, run[..n]);
      LastFollows(threads, run);
      var h := Run(threads, run).1;
      TraceMore(threads, Machines(threads, run[..n]), run[..n], h[..n], run[n], Run(threads, run).0, h[n]);
      Rejoined(run);
      Rejoined(h);
    }
  }

  lemma LastFollows(threads: nat, run: seq<Turn>)
    requires Turns(threads, run) && run != []
    ensures var front, n := run[..|run| - 1], |run| - 1;
            && Follows(Run(threads, front).0, run[n], Run(threads, run).0, Run(threads, run).1[n])
            && Run(threads, run).1[..n] == Run(threads, front).1
            && Machines(threads, front)[n] == Run(threads, front).0
  {
    var (m, h) := Run(threads, run[..|run| - 1]);
    RepresentsInBounds(m, TableOf(h));
  }

  // In every interleaving a call that is over has shown exactly its one answer: a close that it
  // freed its descriptor or found nothing to free, an install that the table was full or the
  // descriptor it chose and then published, a look the file or none.
  lemma CallAnswered(threads: nat, run: seq<Turn>, t: nat, i: nat, n: nat)
    requires Turns(threads, run) && InCall(Machines(threads, run), run, t, i, n)
    requires Machines(threads, run)[n].pcs[t].Idle?
    ensures Answers(run[i].call, Shown(run, Run(threads, run).1, t, i, n))
  {
    RunTrace(threads, run);
    CallSays(threads, Machines(threads, run), run, Run(threads, run).1, t, i, n);
  }

  // And it is over by its thread's fifth turn, whatever the others do in between.
  lemma CallEnds(threads: nat, run: seq<Turn>, t: nat, i: nat, k: nat)
    requires Turns(threads, run) && InCall(Machines(threads, run), run, t, i, k)
    ensures OwnTurns(run, t, i, k) <= 5
    ensures OwnTurns(run, t, i, k) == 5 ==> Machines(threads, run)[k].pcs[t].Idle?
  {
    RunTrace(threads, run);
    CallSays(threads, Machines(threads, run), run, Run(threads, run).1, t, i, k);
  }
}
