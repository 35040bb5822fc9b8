/** What a scan made of many readdir calls reports, while the directory changes between them and
    pages cannot be read in some of the calls. */
module ReaddirScans {
  import opened Names
  import opened Paging
  import opened Slots
  import opened Readdir

  // The slot at which a call that starts at slot i is refused for want of room, or |slots|. It
  // has passed all slots in front.
  function Reached(slots: seq<Slot>, bad: set<nat>, i: nat, room: nat): (j: nat)
    requires i <= |slots|
    ensures i <= j <= |slots|
    ensures j < |slots| ==> Readable(bad, j) && slots[j].ino != 0 && room < |slots| - i
    decreases |slots| - i
  {
    if i == |slots| then i
    else if !Readable(bad, i) || slots[i].ino == 0 then Reached(slots, bad, i + 1, room)
    else if room == 0 then i
    else Reached(slots, bad, i + 1, room - 1)
  }

  // How many of the slots from i up to j can be read.
  function ReadableIn(bad: set<nat>, i: nat, j: nat): (c: nat)
    requires i <= j
    ensures c <= j - i
    decreases j - i
  {
    if i == j then 0 else (if Readable(bad, i) then 1 else 0) + ReadableIn(bad, i + 1, j)
  }

  // The first of them that cannot, or j.
  function FirstUnread(bad: set<nat>, i: nat, j: nat): (h: nat)
    requires i <= j
    ensures i <= h <= j
    ensures forall p :: i <= p < h ==> Readable(bad, p)
    ensures h < j ==> !Readable(bad, h)
    decreases j - i
  {
    if i == j || !Readable(bad, i) then i else FirstUnread(bad, i + 1, j)
  }

  // No slot that can be read lies behind one that cannot.
  predicate Orderly(bad: set<nat>, i: nat, j: nat) {
    forall p: nat, q: nat :: i <= p < q < j && !Readable(bad, p) ==> !Readable(bad, q)
  }

  // ---- One call: the position ----

  // The position moves by one slot for each slot passed that can be read.
  lemma {:induction false} PositionLags(slots: seq<Slot>, bad: set<nat>, i: nat, pos: nat, room: nat)
    requires i <= |slots|
    ensures Scan(slots, bad, i, pos, room).pos == pos + DIR_SIZE * ReadableIn(bad, i, Reached(slots, bad, i, room))
    decreases |slots| - i
  {
    if i < |slots| {
      if !Readable(bad, i) {
        PositionLags(slots, bad, i + 1, pos, room);
      } else if slots[i].ino == 0 {
        PositionLags(slots, bad, i + 1, pos + DIR_SIZE, room);
      } else if room > 0 {
        PositionLags(slots, bad, i + 1, pos + DIR_SIZE, room - 1);
      }
    }
  }

  lemma {:induction false} NoneReadable(bad: set<nat>, i: nat, j: nat)
    requires i <= j
    ensures ReadableIn(bad, i, j) == 0 <==> forall p: nat :: i <= p < j ==> !Readable(bad, p)
    decreases j - i
  {
    if i < j {
      NoneReadable(bad, i + 1, j);
    }
  }

  lemma {:induction false} AllReadable(bad: set<nat>, i: nat, j: nat)
    requires i <= j
    ensures ReadableIn(bad, i, j) == j - i <==> forall p: nat :: i <= p < j ==> Readable(bad, p)
    decreases j - i
  {
    if i < j {
      AllReadable(bad, i + 1, j);
    }
  }

  lemma {:induction false} ReadableSplits(bad: set<nat>, i: nat, h: nat, j: nat)
    requires i <= h <= j
    ensures ReadableIn(bad, i, j) == ReadableIn(bad, i, h) + ReadableIn(bad, h, j)
    decreases h - i
  {
    if i < h {
      ReadableSplits(bad, i + 1, h, j);
    }
  }

  // As many can be read as lie in front of the first that cannot, exactly when they lie in order.
  lemma OrderlyCount(bad: set<nat>, i: nat, j: nat)
    requires i <= j
    ensures var h := FirstUnread(bad, i, j);
            && h - i <= ReadableIn(bad, i, j)
            && (ReadableIn(bad, i, j) == h - i <==> Orderly(bad, i, j))
            && (h < j ==> ReadableIn(bad, i, j) < j - i)
  {
    var h := FirstUnread(bad, i, j);
    ReadableSplits(bad, i, h, j);
    AllReadable(bad, i, h);
    AllReadable(bad, i, j);
    NoneReadable(bad, h, j);
    if Orderly(bad, i, j) && h < j {
      forall p: nat | h <= p < j
        ensures !Readable(bad, p)
      {
        if h < p {
          assert i <= h < p < j && !Readable(bad, h);
        }
      }
    }
  }

  // A call ends at the first slot it could not read, or the one it was refused at, exactly when
  // it has passed no readable slot behind an unreadable one. Otherwise it ends somewhere between
  // that slot and the one it has reached.
  lemma CallResumes(slots: seq<Slot>, bad: set<nat>, i: nat, room: nat)
    requires i < |slots|
    ensures var j := Reached(slots, bad, i, room);
            var h := FirstUnread(bad, i, j);
            var r := Call(slots, bad, DIR_SIZE * i, room);
            && (r.pos == DIR_SIZE * h <==> Orderly(bad, i, j))
            && (!Orderly(bad, i, j) ==> DIR_SIZE * h < r.pos < DIR_SIZE * j)
  {
    AlignedStays(i);
    PositionLags(slots, bad, i, DIR_SIZE * i, room);
    OrderlyCount(bad, i, Reached(slots, bad, i, room));
  }

  lemma EndsAtSize(slots: seq<Slot>, bad: set<nat>, room: nat)
    requires room >= |slots| > 0
    ensures Call(slots, bad, 0, room).pos == DIR_SIZE * |slots| <==> forall k :: 0 <= k < |slots| ==> Readable(bad, k)
  {
    PositionLags(slots, bad, 0, 0, room);
    AllReadable(bad, 0, |slots|);
    if forall p: nat :: 0 <= p < |slots| ==> Readable(bad, p) {
      forall k | 0 <= k < |slots|
        ensures Readable(bad, k)
      {
        var p: nat := k;
        assert Readable(bad, p);
      }
    }
  }

  lemma AlignedStays(i: nat)
    ensures Align(DIR_SIZE * i) == DIR_SIZE * i
  {
  }

  // The slot at which a call at position pos starts.
  function StartSlot(pos: nat): (i: nat)
    ensures Align(pos) == DIR_SIZE * i && pos <= DIR_SIZE * i < pos + DIR_SIZE
  {
    (pos + DIR_SIZE - 1) / DIR_SIZE
  }

  // ---- One call: what it reports ----

  // The occupied slots from i up to j, in slot order, each with its own position.
  function Listing(slots: seq<Slot>, i: nat, j: nat): seq<Dirent>
    requires i <= j <= |slots|
    decreases j - i
  {
    if i == j then []
    else if slots[i].ino == 0 then Listing(slots, i + 1, j)
    else [Dirent(DIR_SIZE * i, NameOf(slots[i].name), slots[i].ino)] + Listing(slots, i + 1, j)
  }

  lemma {:induction false} ListingSplits(slots: seq<Slot>, i: nat, j: nat, k: nat)
    requires i <= j <= k <= |slots|
    ensures Listing(slots, i, k) == Listing(slots, i, j) + Listing(slots, j, k)
    decreases j - i
  {
    if i < j {
      ListingSplits(slots, i + 1, j, k);
    }
  }

  lemma {:induction false} NothingRead(slots: seq<Slot>, bad: set<nat>, i: nat, pos: nat, room: nat)
    requires i <= |slots| && forall p: nat :: i <= p < Reached(slots, bad, i, room) ==> !Readable(bad, p)
    ensures Scan(slots, bad, i, pos, room) == Scanned(pos, [])
    decreases |slots| - i
  {
    if i < |slots| && !Readable(bad, i) {
      NothingRead(slots, bad, i + 1, pos, room);
    }
  }

  // An orderly call reports the listing up to where it ends.
  lemma {:induction false} ScanLists(slots: seq<Slot>, bad: set<nat>, i: nat, room: nat)
    requires i <= |slots| && Orderly(bad, i, Reached(slots, bad, i, room))
    ensures var h := FirstUnread(bad, i, Reached(slots, bad, i, room));
            Scan(slots, bad, i, DIR_SIZE * i, room) == Scanned(DIR_SIZE * h, Listing(slots, i, h))
    decreases |slots| - i
  {
    var j := Reached(slots, bad, i, room);
    if i < j {
      if !Readable(bad, i) {
        assert forall p: nat :: i < p < j ==> !Readable(bad, p);
        NothingRead(slots, bad, i, DIR_SIZE * i, room);
      } else if slots[i].ino == 0 {
        ScanLists(slots, bad, i + 1, room);
      } else {
        ScanLists(slots, bad, i + 1, room - 1);
      }
    }
  }

  // The entry reported for slot k: it is occupied and can be read, and it is found one position
  // further on for each readable slot in front of it.
  ghost predicate Reports(d: Dirent, slots: seq<Slot>, bad: set<nat>, i: nat, pos: nat, k: nat) {
    && i <= k < |slots| && Readable(bad, k) && slots[k].ino != 0
    && d == Dirent(pos + DIR_SIZE * ReadableIn(bad, i, k), NameOf(slots[k].name), slots[k].ino)
  }

  // The entries are those of the slots at, in slot order, and at has all slots from i up to j that
  // are occupied and can be read.
  ghost predicate ReportsAll(out: seq<Dirent>, at: seq<nat>, slots: seq<Slot>, bad: set<nat>, i: nat, pos: nat, j: nat) {
    && |out| == |at| && j <= |slots|
    && (forall n: nat :: n < |at| ==> at[n] < j && Reports(out[n], slots, bad, i, pos, at[n]))
    && (forall m: nat, n: nat :: m < n < |at| ==> at[m] < at[n])
    && (forall k: nat :: i <= k < j && Readable(bad, k) && slots[k].ino != 0 ==> k in at)
  }

  lemma ReportsNext(out: seq<Dirent>, at: seq<nat>, slots: seq<Slot>, bad: set<nat>, i: nat, pos: nat, j: nat)
    requires i < j && ReportsAll(out, at, slots, bad, i + 1, pos + (if Readable(bad, i) then DIR_SIZE else 0), j)
    ensures !(Readable(bad, i) && slots[i].ino != 0) ==> ReportsAll(out, at, slots, bad, i, pos, j)
    ensures Readable(bad, i) && slots[i].ino != 0 ==>
              ReportsAll([Dirent(pos, NameOf(slots[i].name), slots[i].ino)] + out, [i] + at, slots, bad, i, pos, j)
  {
    var step := pos + if Readable(bad, i) then DIR_SIZE else 0;
    forall n: nat | n < |at|
      ensures Reports(out[n], slots, bad, i, pos, at[n])
    {
      assert Reports(out[n], slots, bad, i + 1, step, at[n]);
    }
  }

  // From slot i a call reports the occupied slots it passes and can read, and no others, in slot
  // order, with their names and inode numbers; it stops before the end only with its buffer full.
  lemma {:induction false} ScanReports(slots: seq<Slot>, bad: set<nat>, i: nat, pos: nat, room: nat) returns (at: seq<nat>)
    requires i <= |slots|
    ensures ReportsAll(Scan(slots, bad, i, pos, room).out, at, slots, bad, i, pos, Reached(slots, bad, i, room))
    ensures |at| <= room && (Reached(slots, bad, i, room) < |slots| ==> |at| == room)
    decreases |slots| - i
  {
    var j := Reached(slots, bad, i, room);
    at := [];
    if i < j {
      var put := Readable(bad, i) && slots[i].ino != 0;
      var step := pos + if Readable(bad, i) then DIR_SIZE else 0;
      at := ScanReports(slots, bad, i + 1, step, if put then room - 1 else room);
      ReportsNext(Scan(slots, bad, i + 1, step, if put then room - 1 else room).out, at, slots, bad, i, pos, j);
      if put {
        at := [i] + at;
      }
    }
  }

  // The same for any call, and where it ends; one behind the size reports nothing.
  lemma CallReports(slots: seq<Slot>, bad: set<nat>, pos: nat, room: nat) returns (at: seq<nat>)
    ensures var i, r := StartSlot(pos), Call(slots, bad, pos, room);
            if i >= |slots| then r.out == [] && r.pos == 64 * i
            else
              var j := Reached(slots, bad, i, room);
              && ReportsAll(r.out, at, slots, bad, i, 64 * i, j)
              && |r.out| <= room && (j < |slots| ==> |r.out| == room)
              && r.pos == 64 * i + 64 * ReadableIn(bad, i, j)
  {
    var i := StartSlot(pos);
    at := [];
    if i < |slots| {
      at := ScanReports(slots, bad, i, DIR_SIZE * i, room);
      PositionLags(slots, bad, i, DIR_SIZE * i, room);
    }
  }

  function Count(out: seq<Dirent>, name: Name): nat {
    if out == [] then 0 else (if out[0].name == name then 1 else 0) + Count(out[1..], name)
  }

  lemma {:induction false} CountConcat(a: seq<Dirent>, b: seq<Dirent>, name: Name)
    ensures Count(a + b, name) == Count(a, name) + Count(b, name)
  {
    if a == [] {
      assert a + b == b;
    } else {
      assert (a + b)[1..] == a[1..] + b;
      CountConcat(a[1..], b, name);
    }
  }

  lemma CountFirst(d: Dirent, rest: seq<Dirent>, name: Name)
    ensures Count([d] + rest, name) == (if d.name == name then 1 else 0) + Count(rest, name)
  {
    assert ([d] + rest)[1..] == rest;
  }

  // Slot k holds the name, and no other slot does.
  ghost predicate Only(slots: seq<Slot>, name: Name, k: nat)
    requires |name| <= NAME_LEN
  {
    AllClean(slots) && Holds(slots, Padded(name), k) && forall m: nat :: m != k ==> !Holds(slots, Padded(name), m)
  }

  // The call passes slot k and can read it.
  predicate Reads(slots: seq<Slot>, bad: set<nat>, i: nat, room: nat, k: nat) {
    i <= k && i <= |slots| && k < Reached(slots, bad, i, room) && Readable(bad, k)
  }

  // The same, in terms of what is reported.
  ghost predicate Named(slots: seq<Slot>, name: Name, k: nat) {
    && k < |slots| && slots[k].ino != 0
    && forall m: nat :: m < |slots| && slots[m].ino != 0 ==> (NameOf(slots[m].name) == name <==> m == k)
  }

  lemma OnlyNamed(slots: seq<Slot>, name: Name, k: nat)
    requires ValidName(name) && Only(slots, name, k)
    ensures Named(slots, name, k)
  {
    forall m: nat | m < |slots| && slots[m].ino != 0
      ensures NameOf(slots[m].name) == name <==> m == k
    {
      PaddedRoundTrip(name);
      NameCompareExact(name, slots[m].name);
      assert slots[m].name == Padded(name) ==> Holds(slots, Padded(name), m);
    }
  }

  // A call reports the name once if it reads its slot, else not at all.
  lemma {:induction false} ScanCounts(slots: seq<Slot>, bad: set<nat>, i: nat, pos: nat, room: nat, k: nat, name: Name)
    requires Named(slots, name, k) && i <= |slots|
    ensures Count(Scan(slots, bad, i, pos, room).out, name) == if Reads(slots, bad, i, room, k) then 1 else 0
    decreases |slots| - i
  {
    if i < |slots| {
      if !Readable(bad, i) {
        ScanCounts(slots, bad, i + 1, pos, room, k, name);
      } else if slots[i].ino == 0 {
        ScanCounts(slots, bad, i + 1, pos + DIR_SIZE, room, k, name);
      } else if room > 0 {
        ScanCounts(slots, bad, i + 1, pos + DIR_SIZE, room - 1, k, name);
        CountFirst(Dirent(pos, NameOf(slots[i].name), slots[i].ino), Scan(slots, bad, i + 1, pos + DIR_SIZE, room - 1).out, name);
      }
    }
  }

  // ---- Many calls ----

  // The directory as one call finds it, the pages it cannot read, and the room in its buffer.
  datatype Turn = Turn(slots: seq<Slot>, bad: set<nat>, room: nat)

  function Result(t: Turn, pos: nat): Scanned {
    Call(t.slots, t.bad, pos, t.room)
  }

  // Each call goes on where the one before stopped.
  function Session(turns: seq<Turn>, pos: nat): Scanned
    decreases |turns|
  {
    if turns == [] then Scanned(pos, [])
    else
      var r := Result(turns[0], pos);
      var rest := Session(turns[1..], r.pos);
      Scanned(rest.pos, r.out + rest.out)
  }

  // The call at position pos passes slot k and can read it.
  predicate TurnReads(t: Turn, pos: nat, k: nat) {
    Reads(t.slots, t.bad, StartSlot(pos), t.room, k)
  }

  predicate TurnOrderly(t: Turn, pos: nat) {
    var i := StartSlot(pos);
    i < |t.slots| ==> Orderly(t.bad, i, Reached(t.slots, t.bad, i, t.room))
  }

  // How many of the calls read slot k.
  function Readings(turns: seq<Turn>, pos: nat, k: nat): nat
    decreases |turns|
  {
    if turns == [] then 0
    else (if TurnReads(turns[0], pos, k) then 1 else 0) + Readings(turns[1..], Result(turns[0], pos).pos, k)
  }

  // No call passes a readable slot behind an unreadable one.
  predicate AllOrderly(turns: seq<Turn>, pos: nat)
    decreases |turns|
  {
    turns == [] || (TurnOrderly(turns[0], pos) && AllOrderly(turns[1..], Result(turns[0], pos).pos))
  }

  // Slot k is the one that holds the name whenever a call looks.
  ghost predicate Stays(turns: seq<Turn>, k: nat, name: Name)
    requires |name| <= NAME_LEN
  {
    forall t :: 0 <= t < |turns| ==> Only(turns[t].slots, name, k)
  }

  // However the scan is chopped into calls, whatever cannot be read, wherever the buffer refuses,
  // and whatever is added, removed or redirected in between: a name that one slot holds
  // throughout is reported as often as a call reads that slot.
  lemma {:induction false} ReportedAsRead(turns: seq<Turn>, pos: nat, k: nat, name: Name)
    requires ValidName(name) && Stays(turns, k, name)
    ensures Count(Session(turns, pos).out, name) == Readings(turns, pos, k)
    decreases |turns|
  {
    if turns != [] {
      var t := turns[0];
      var r := Result(t, pos);
      var i := StartSlot(pos);
      assert Only(t.slots, name, k);
      if i < |t.slots| {
        OnlyNamed(t.slots, name, k);
        ScanCounts(t.slots, t.bad, i, Align(pos), t.room, k, name);
      }
      ReportedAsRead(turns[1..], r.pos, k, name);
      CountConcat(r.out, Session(turns[1..], r.pos).out, name);
    }
  }

  // The slots a call reads are the ones its position moves over, exactly when it is orderly.
  lemma ReadsWhatItPasses(t: Turn, pos: nat)
    ensures Align(pos) <= Result(t, pos).pos
    ensures (forall k: nat :: TurnReads(t, pos, k) <==> Align(pos) <= DIR_SIZE * k < Result(t, pos).pos) <==> TurnOrderly(t, pos)
  {
    var i := StartSlot(pos);
    var p := Result(t, pos).pos;
    if i < |t.slots| {
      var j := Reached(t.slots, t.bad, i, t.room);
      var h := FirstUnread(t.bad, i, j);
      AlignedStays(i);
      CallResumes(t.slots, t.bad, i, t.room);
      assert p == Call(t.slots, t.bad, DIR_SIZE * i, t.room).pos;
      if TurnOrderly(t, pos) {
        forall k: nat
          ensures TurnReads(t, pos, k) <==> Align(pos) <= DIR_SIZE * k < p
        {
          if h < k < j {
            assert i <= h < k < j && !Readable(t.bad, h);
          }
        }
      } else {
        assert !TurnReads(t, pos, h) && Align(pos) <= DIR_SIZE * h < p;
      }
    }
  }

  // In an orderly scan a name that one slot holds throughout is reported exactly once if the
  // scan starts at or before its slot and ends behind it, and otherwise never.
  lemma {:induction false} ReportedOnce(turns: seq<Turn>, pos: nat, k: nat, name: Name)
    requires ValidName(name) && Stays(turns, k, name) && AllOrderly(turns, pos)
    ensures var r := Session(turns, pos);
            && pos <= r.pos
            && Count(r.out, name) == if Align(pos) <= DIR_SIZE * k < r.pos then 1 else 0
  {
    ReportedAsRead(turns, pos, k, name);
    ReadOnce(turns, pos, k);
  }

  lemma {:induction false} ReadOnce(turns: seq<Turn>, pos: nat, k: nat)
    requires AllOrderly(turns, pos)
    ensures var r := Session(turns, pos);
            && pos <= r.pos
            && (turns == [] || exists i: nat :: r.pos == DIR_SIZE * i)
            && Readings(turns, pos, k) == if Align(pos) <= DIR_SIZE * k < r.pos then 1 else 0
    decreases |turns|
  {
    if turns == [] {
      assert pos <= DIR_SIZE * StartSlot(pos);
    } else {
      var p := Result(turns[0], pos).pos;
      ReadsWhatItPasses(turns[0], pos);
      assert TurnReads(turns[0], pos, k) <==> Align(pos) <= DIR_SIZE * k < p;
      var h := EndsAtSlot(turns[0], pos);
      ReadOnce(turns[1..], p, k);
      AlignedStays(h);
    }
  }

  lemma EndsAtSlot(t: Turn, pos: nat) returns (h: nat)
    ensures Result(t, pos).pos == DIR_SIZE * h && Align(pos) <= DIR_SIZE * h
  {
    var i := StartSlot(pos);
    if i < |t.slots| {
      PositionLags(t.slots, t.bad, i, Align(pos), t.room);
      h := i + ReadableIn(t.bad, i, Reached(t.slots, t.bad, i, t.room));
    } else {
      h := i;
    }
  }

  // A name that an unorderly call has jumped over is not reported by it, although its position
  // is behind the name's slot now.
  lemma JumpedOver(t: Turn, pos: nat) returns (k: nat)
    requires !TurnOrderly(t, pos)
    ensures Align(pos) <= DIR_SIZE * k < Result(t, pos).pos && k < |t.slots|
    ensures forall name: Name :: ValidName(name) && Only(t.slots, name, k) ==> Count(Result(t, pos).out, name) == 0
  {
    var i := StartSlot(pos);
    k := FirstUnread(t.bad, i, Reached(t.slots, t.bad, i, t.room));
    AlignedStays(i);
    CallResumes(t.slots, t.bad, i, t.room);
    assert Result(t, pos) == Call(t.slots, t.bad, DIR_SIZE * i, t.room);
    forall name: Name | ValidName(name) && Only(t.slots, name, k)
      ensures Count(Result(t, pos).out, name) == 0
    {
      OnlyNamed(t.slots, name, k);
      ScanCounts(t.slots, t.bad, i, Align(pos), t.room, k, name);
    }
  }

  ghost predicate Unchanged(turns: seq<Turn>, slots: seq<Slot>) {
    forall t :: 0 <= t < |turns| ==> turns[t].slots == slots
  }

  // Some call can read every page and has room for everything.
  ghost predicate OneSuffices(turns: seq<Turn>, slots: seq<Slot>) {
    exists t :: 0 <= t < |turns| && turns[t].room >= |slots| && forall k: nat :: k < |slots| ==> Readable(turns[t].bad, k)
  }

  // In an unchanged directory the calls of an orderly scan together report the listing in slot
  // order, as far as they get; and they get to i_size as soon as one call can read every page and
  // has room for everything.
  lemma {:induction false} SessionLists(turns: seq<Turn>, slots: seq<Slot>, i: nat) returns (j: nat)
    requires Unchanged(turns, slots) && i <= |slots| && AllOrderly(turns, DIR_SIZE * i)
    ensures i <= j <= |slots|
    ensures Session(turns, DIR_SIZE * i) == Scanned(DIR_SIZE * j, Listing(slots, i, j))
    ensures OneSuffices(turns, slots) ==> j == |slots|
    decreases |turns|
  {
    if turns == [] {
      j := i;
    } else {
      var h := TurnLists(turns[0], i);
      j := SessionLists(turns[1..], slots, h);
      ListingSplits(slots, i, h, j);
      if t :| 0 <= t < |turns| && turns[t].room >= |slots| && forall k: nat :: k < |slots| ==> Readable(turns[t].bad, k) {
        if t > 0 {
          assert turns[1..][t - 1] == turns[t];
          assert OneSuffices(turns[1..], slots);
        }
      }
    }
  }

  lemma TurnLists(t: Turn, i: nat) returns (h: nat)
    requires i <= |t.slots| && TurnOrderly(t, DIR_SIZE * i)
    ensures i <= h <= |t.slots|
    ensures Result(t, DIR_SIZE * i) == Scanned(DIR_SIZE * h, Listing(t.slots, i, h))
    ensures t.room >= |t.slots| && (forall k: nat :: k < |t.slots| ==> Readable(t.bad, k)) ==> h == |t.slots|
  {
    AlignedStays(i);
    if i < |t.slots| {
      ScanLists(t.slots, t.bad, i, t.room);
      h := FirstUnread(t.bad, i, Reached(t.slots, t.bad, i, t.room));
    } else {
      h := i;
    }
  }

  // ---- An example ----

  lemma {:induction false} SkipFirstPage(slots: seq<Slot>, i: nat, room: nat)
    requires |slots| == SLOTS_PER_PAGE + 1 && i <= SLOTS_PER_PAGE
    ensures Scan(slots, {0}, i, 0, room) == Scan(slots, {0}, SLOTS_PER_PAGE, 0, room)
    decreases SLOTS_PER_PAGE - i
  {
    if i < SLOTS_PER_PAGE {
      SkipFirstPage(slots, i + 1, room);
    }
  }

  // A full first page that cannot be read in the first call, and one entry on the second page.
  // The second call reports that entry again.
  lemma ReportedTwice(slots: seq<Slot>, name: Name, room: nat)
    requires |slots| == SLOTS_PER_PAGE + 1 && room >= |slots| && ValidName(name)
    requires Only(slots, name, SLOTS_PER_PAGE)
    ensures var first := Call(slots, {0}, 0, room);
            var second := Call(slots, {}, first.pos, room);
            Count(first.out + second.out, name) == 2
  {
    var k := SLOTS_PER_PAGE;
    PaddedRoundTrip(name);
    SkipFirstPage(slots, 0, room);
    IndexSplits(1, 0);
    assert First(1) == k && PageOf(k) == 1;
    var first := Call(slots, {0}, 0, room);
    var entry := Dirent(0, name, slots[k].ino);
    assert first.out == [entry] && first.pos == DIR_SIZE;
    assert [entry][1..] == [];
    AlignedStays(1);
    assert Reads(slots, {}, 1, room, k);
    OnlyNamed(slots, name, k);
    ScanCounts(slots, {}, 1, DIR_SIZE, room, k, name);
    CountConcat(first.out, Call(slots, {}, first.pos, room).out, name);
  }
}
