/** Repair of an instrumentation trace that was cut out of a longer one: ends without a
    beginning are removed, open events are closed. */
module TraceRepair {
  import opened Sequences
  import opened TraceEvents

  datatype Event = Event(name: string, tid: int, pid: int, ph: Phase, ts: real)

  datatype EventHash = EventHash(name: string, tid: int, pid: int)

  function Hash(e: Event): EventHash {
    EventHash(e.name, e.tid, e.pid)
  }

  // ------------------------------------------------------- the repaired trace

  /** `s.remove(x)`: without the first occurrence. */
  function RemoveFirst<T(==)>(s: seq<T>, x: T): (r: seq<T>)
    ensures x in s ==> |r| == |s| - 1
  {
    if s == [] then [] else if s[0] == x then s[1..] else [s[0]] + RemoveFirst(s[1..], x)
  }

  /** Begins that are still open, the latest first. */
  function Open(trace: seq<Event>): seq<EventHash> {
    if trace == [] then [] else Next(Open(Init(trace)), Last(trace))
  }

  function Next(open: seq<EventHash>, e: Event): seq<EventHash> {
    match e.ph
    case Begin => [Hash(e)] + open
    case End => if Hash(e) in open then RemoveFirst(open, Hash(e)) else open
    case Metadata => open
  }

  predicate Unmatched(open: seq<EventHash>, e: Event) {
    e.ph == End && Hash(e) !in open
  }

  /** The trace without the ends that close nothing. */
  function Kept(trace: seq<Event>): (kept: seq<Event>)
    ensures forall e :: e in trace && e.ph != End ==> e in kept
  {
    if trace == [] then []
    else if Unmatched(Open(Init(trace)), Last(trace)) then Kept(Init(trace))
    else Kept(Init(trace)) + [Last(trace)]
  }

  predicate HasThread(trace: seq<Event>, tid: int) {
    exists e :: e in trace && e.tid == tid
  }

  /** The timestamp of the last event of a thread (only asked for threads with events). */
  function LastTs(trace: seq<Event>, tid: int): real {
    if trace == [] then 0.0
    else if Last(trace).tid == tid then Last(trace).ts
    else LastTs(Init(trace), tid)
  }

  function Closing(trace: seq<Event>, h: EventHash): Event {
    Event(h.name, h.tid, h.pid, End, LastTs(trace, h.tid) + 0.1)
  }

  function Closings(trace: seq<Event>, open: seq<EventHash>): seq<Event> {
    if open == [] then [] else [Closing(trace, open[0])] + Closings(trace, open[1..])
  }

  /** An open begin is an event of the trace, so its thread has a last timestamp. */
  lemma {:induction false} OpenThreads(trace: seq<Event>)
    ensures forall h :: h in Open(trace) ==> exists e :: e in trace && e.ph == Begin && Hash(e) == h
    ensures forall h :: h in Open(trace) ==> HasThread(Kept(trace), h.tid)
    decreases |trace|
  {
    if trace != [] {
      OpenThreads(Init(trace));
      assert trace == Init(trace) + [Last(trace)];
      forall h | h in Open(trace)
        ensures exists e :: e in trace && e.ph == Begin && Hash(e) == h
      {
        RemoveFirstSubset(Open(Init(trace)), Hash(Last(trace)));
        if h in Open(Init(trace)) {
          var e :| e in Init(trace) && e.ph == Begin && Hash(e) == h;
          assert e in trace;
        } else {
          assert Last(trace) in trace;
        }
      }
    }
  }

  lemma {:induction false} RemoveFirstSubset<T>(s: seq<T>, x: T)
    ensures forall y :: y in RemoveFirst(s, x) ==> y in s
    decreases |s|
  {
    if s != [] && s[0] != x {
      RemoveFirstSubset(s[1..], x);
      assert s == [s[0]] + s[1..];
    }
  }

  function Repaired(trace: seq<Event>): seq<Event> {
    Kept(trace) + Closings(Kept(trace), Open(trace))
  }

  // ---------------------------------------------------------------- balance

  function Weight(e: Event, h: EventHash): int {
    if Hash(e) != h || e.ph == Metadata then 0 else if e.ph == Begin then 1 else -1
  }

  /** Begins minus ends of one (name, tid, pid). */
  function Balance(trace: seq<Event>, h: EventHash): int {
    if trace == [] then 0 else Balance(Init(trace), h) + Weight(Last(trace), h)
  }

  /** No prefix ends what it did not begin. */
  ghost predicate NeverNegative(trace: seq<Event>) {
    forall n, h :: 0 <= n <= |trace| ==> Balance(trace[..n], h) >= 0
  }

  ghost predicate Balanced(trace: seq<Event>) {
    NeverNegative(trace) && forall h :: Balance(trace, h) == 0
  }

  lemma {:induction false} RemoveFirstCount<T>(s: seq<T>, x: T)
    requires x in s
    ensures multiset(RemoveFirst(s, x)) == multiset(s) - multiset{x}
    decreases |s|
  {
    assert s == [s[0]] + s[1..];
    if s[0] != x {
      RemoveFirstCount(s[1..], x);
    }
  }

  lemma NextCount(open: seq<EventHash>, e: Event, h: EventHash)
    requires !Unmatched(open, e)
    ensures multiset(Next(open, e))[h] == multiset(open)[h] + Weight(e, h)
  {
    if e.ph == End {
      RemoveFirstCount(open, Hash(e));
    }
  }

  lemma BalanceSnoc(t: seq<Event>, e: Event, h: EventHash)
    ensures Balance(t + [e], h) == Balance(t, h) + Weight(e, h)
  {
    assert Init(t + [e]) == t;
  }

  lemma NeverNegativeSnoc(t: seq<Event>, e: Event)
    requires NeverNegative(t) && forall h :: Balance(t + [e], h) >= 0
    ensures NeverNegative(t + [e])
  {
    forall n, h | 0 <= n <= |t| + 1
      ensures Balance((t + [e])[..n], h) >= 0
    {
      if n <= |t| {
        assert (t + [e])[..n] == t[..n];
      } else {
        assert (t + [e])[..n] == t + [e];
      }
    }
  }

  /** What is kept never goes negative, and its balance counts the open begins. */
  lemma {:induction false} KeptBalance(trace: seq<Event>)
    ensures forall h :: Balance(Kept(trace), h) == multiset(Open(trace))[h]
    ensures NeverNegative(Kept(trace))
    decreases |trace|
  {
    if trace != [] {
      var before, e := Init(trace), Last(trace);
      KeptBalance(before);
      if !Unmatched(Open(before), e) {
        forall h
          ensures Balance(Kept(trace), h) == multiset(Open(trace))[h]
        {
          NextCount(Open(before), e, h);
          BalanceSnoc(Kept(before), e, h);
        }
        NeverNegativeSnoc(Kept(before), e);
      }
    }
  }

  /** `t` lacks exactly the ends of `open`. */
  ghost predicate Owes(t: seq<Event>, open: seq<EventHash>) {
    NeverNegative(t) && forall h :: Balance(t, h) == multiset(open)[h]
  }

  lemma OwesLess(t: seq<Event>, e: Event, rest: seq<EventHash>)
    requires Owes(t, [Hash(e)] + rest) && e.ph == End
    ensures Owes(t + [e], rest)
  {
    forall h
      ensures Balance(t + [e], h) == multiset(rest)[h]
    {
      BalanceSnoc(t, e, h);
    }
    NeverNegativeSnoc(t, e);
  }

  /** Closing what is open, in any order, brings the balance to zero. */
  lemma {:induction false} ClosingBalance(t: seq<Event>, trace: seq<Event>, open: seq<EventHash>)
    requires Owes(t, open)
    ensures Balanced(t + Closings(trace, open))
    decreases |open|
  {
    if open == [] {
      assert t + Closings(trace, open) == t;
    } else {
      hide Owes, Balanced, LastTs;
      var e, rest := Closing(trace, open[0]), open[1..];
      assert open == [open[0]] + rest;
      OwesLess(t, e, rest);
      ClosingBalance(t + [e], trace, rest);
      assert t + ([e] + Closings(trace, rest)) == (t + [e]) + Closings(trace, rest);
    }
  }

  /** Main result. Every repaired trace is balanced. */
  lemma RepairedIsBalanced(trace: seq<Event>)
    ensures Balanced(Repaired(trace))
  {
    KeptBalance(trace);
    ClosingBalance(Kept(trace), Kept(trace), Open(trace));
  }

  lemma {:induction false} NothingUnmatched(before: seq<Event>, e: Event)
    requires Kept(before) == before && Balance(before + [e], Hash(e)) >= 0
    ensures !Unmatched(Open(before), e)
  {
    KeptBalance(before);
    BalanceSnoc(before, e, Hash(e));
  }

  lemma {:induction false} NeverNegativeKept(trace: seq<Event>)
    requires NeverNegative(trace)
    ensures Kept(trace) == trace
    decreases |trace|
  {
    hide Balance, Open, Unmatched;
    if trace != [] {
      var before, e := Init(trace), Last(trace);
      assert trace == before + [e];
      forall n, h | 0 <= n <= |before|
        ensures Balance(before[..n], h) >= 0
      {
        assert before[..n] == trace[..n];
      }
      NeverNegativeKept(before);
      assert trace[..|trace|] == trace;
      NothingUnmatched(before, e);
    }
  }

  /** Main result. Repair changes nothing exactly when the trace is balanced. */
  lemma UnchangedIff(trace: seq<Event>)
    ensures Repaired(trace) == trace <==> Balanced(trace)
  {
    RepairedIsBalanced(trace);
    if Balanced(trace) {
      NeverNegativeKept(trace);
      KeptBalance(trace);
      if Open(trace) != [] {
        assert multiset(Open(trace))[Open(trace)[0]] > 0;
      }
    }
  }

  /** So repairing twice is repairing once. */
  lemma RepairIsIdempotent(trace: seq<Event>)
    ensures Repaired(Repaired(trace)) == Repaired(trace)
  {
    RepairedIsBalanced(trace);
    UnchangedIff(Repaired(trace));
  }

  // ------------------------------------------------------- which ends are dropped

  /** How many begins of one (name, tid, pid) are waiting for an end. */
  function Depth(trace: seq<Event>, h: EventHash): nat {
    if trace == [] then 0
    else
      var d := Depth(Init(trace), h) + Weight(Last(trace), h);
      if d < 0 then 0 else d
  }

  lemma {:induction false} OpenDepth(trace: seq<Event>, h: EventHash)
    ensures multiset(Open(trace))[h] == Depth(trace, h)
    decreases |trace|
  {
    if trace != [] {
      OpenDepth(Init(trace), h);
      if !Unmatched(Open(Init(trace)), Last(trace)) {
        NextCount(Open(Init(trace)), Last(trace), h);
      }
    }
  }

  /** An end is dropped exactly when no begin of its (name, tid, pid) is waiting for it; no
      other event is ever dropped. */
  lemma DroppedIff(trace: seq<Event>, e: Event)
    ensures Kept(trace + [e]) == Kept(trace) <==> e.ph == End && Depth(trace, Hash(e)) == 0
    ensures Kept(trace + [e]) == Kept(trace) || Kept(trace + [e]) == Kept(trace) + [e]
  {
    assert Init(trace + [e]) == trace;
    OpenDepth(trace, Hash(e));
  }

  // -------------------------------------------------------------- timestamps

  /** The events of a thread are in time order. */
  ghost predicate InOrder(trace: seq<Event>, tid: int) {
    forall i, j :: 0 <= i < j < |trace| && trace[i].tid == tid == trace[j].tid ==> trace[i].ts <= trace[j].ts
  }

  /** The begins and ends of a thread are in time order, whatever the times of metadata. */
  ghost predicate EventsInOrder(trace: seq<Event>, tid: int) {
    forall i, j :: 0 <= i < j < |trace| && OfThread(trace[i], tid) && OfThread(trace[j], tid) ==>
      trace[i].ts <= trace[j].ts
  }

  predicate OfThread(e: Event, tid: int) {
    e.tid == tid && e.ph != Metadata
  }

  ghost predicate AllEventsInOrder(trace: seq<Event>) {
    forall tid :: EventsInOrder(trace, tid)
  }

  lemma {:induction false} KeptSubset(trace: seq<Event>)
    ensures forall e :: e in Kept(trace) ==> e in trace
    decreases |trace|
  {
    if trace != [] {
      KeptSubset(Init(trace));
      assert trace == Init(trace) + [Last(trace)];
    }
  }

  lemma InOrderSnoc(t: seq<Event>, e: Event, tid: int)
    requires InOrder(t, tid)
    requires e.tid == tid ==> forall x :: x in t && x.tid == tid ==> x.ts <= e.ts
    ensures InOrder(t + [e], tid)
  {
  }

  lemma {:induction false} KeptInOrder(trace: seq<Event>, tid: int)
    requires InOrder(trace, tid)
    ensures InOrder(Kept(trace), tid)
    decreases |trace|
  {
    if trace != [] {
      KeptInOrder(Init(trace), tid);
      KeptSubset(Init(trace));
      InOrderSnoc(Kept(Init(trace)), Last(trace), tid);
    }
  }

  lemma {:induction false} LastTsIsLatest(trace: seq<Event>, tid: int)
    requires InOrder(trace, tid)
    ensures forall e :: e in trace && e.tid == tid ==> e.ts <= LastTs(trace, tid)
    decreases |trace|
  {
    if trace != [] {
      assert trace == Init(trace) + [Last(trace)];
      LastTsIsLatest(Init(trace), tid);
    }
  }

  lemma {:induction false} ClosingsInOrder(t: seq<Event>, trace: seq<Event>, open: seq<EventHash>, tid: int)
    requires InOrder(t, tid)
    requires forall e :: e in t && e.tid == tid ==> e.ts <= LastTs(trace, tid) + 0.1
    ensures InOrder(t + Closings(trace, open), tid)
    decreases |open|
  {
    hide LastTs;
    if open == [] {
      assert t + Closings(trace, open) == t;
    } else {
      var e, rest := Closing(trace, open[0]), open[1..];
      assert open == [open[0]] + rest;
      InOrderSnoc(t, e, tid);
      ClosingsInOrder(t + [e], trace, rest, tid);
      assert t + ([e] + Closings(trace, rest)) == (t + [e]) + Closings(trace, rest);
    }
  }

  /** Main result. A thread whose events are in time order stays so. */
  lemma RepairedInOrder(trace: seq<Event>, tid: int)
    requires InOrder(trace, tid)
    ensures InOrder(Repaired(trace), tid)
  {
    KeptInOrder(trace, tid);
    LastTsIsLatest(Kept(trace), tid);
    ClosingsInOrder(Kept(trace), Kept(trace), Open(trace), tid);
  }

  /** The time of the last begin or end of a thread (only asked for threads with any). */
  function LastEventTs(trace: seq<Event>, tid: int): real {
    if trace == [] then 0.0
    else if OfThread(Last(trace), tid) then Last(trace).ts
    else LastEventTs(Init(trace), tid)
  }

  lemma {:induction false} LastEventIsLatest(trace: seq<Event>, tid: int)
    requires EventsInOrder(trace, tid)
    ensures forall e :: e in trace && OfThread(e, tid) ==> e.ts <= LastEventTs(trace, tid)
    ensures (exists e :: e in trace && OfThread(e, tid)) ==>
              exists e :: e in trace && OfThread(e, tid) && e.ts == LastEventTs(trace, tid)
    decreases |trace|
  {
    if trace != [] {
      assert trace == Init(trace) + [Last(trace)];
      LastEventIsLatest(Init(trace), tid);
    }
  }

  lemma EventsInOrderSnoc(t: seq<Event>, e: Event, tid: int)
    ensures EventsInOrder(t + [e], tid) <==>
            EventsInOrder(t, tid) && (OfThread(e, tid) ==> forall x :: x in t && OfThread(x, tid) ==> x.ts <= e.ts)
  {
    var all := t + [e];
    if EventsInOrder(all, tid) {
      forall i, j | 0 <= i < j < |t| && OfThread(t[i], tid) && OfThread(t[j], tid)
        ensures t[i].ts <= t[j].ts
      {
        assert all[i] == t[i] && all[j] == t[j];
      }
      forall x | x in t && OfThread(x, tid) && OfThread(e, tid)
        ensures x.ts <= e.ts
      {
        var i :| 0 <= i < |t| && t[i] == x;
        assert all[i] == x && all[|t|] == e;
      }
    }
  }

  lemma {:induction false} KeptEventsInOrder(trace: seq<Event>, tid: int)
    requires EventsInOrder(trace, tid)
    ensures EventsInOrder(Kept(trace), tid)
    decreases |trace|
  {
    hide EventsInOrder;
    if trace != [] {
      var before, e := Init(trace), Last(trace);
      assert trace == before + [e];
      EventsInOrderSnoc(before, e, tid);
      KeptEventsInOrder(before, tid);
      KeptSubset(before);
      EventsInOrderSnoc(Kept(before), e, tid);
    }
  }

  /** The added ends are those of the open begins, all of a thread at the same time. */
  lemma {:induction false} ClosingsAre(trace: seq<Event>, open: seq<EventHash>)
    ensures forall e :: e in Closings(trace, open) ==>
              Hash(e) in open && e.ph == End && e.ts == LastTs(trace, e.tid) + 0.1
    ensures forall h :: h in open ==> Closing(trace, h) in Closings(trace, open)
    decreases |open|
  {
    hide LastTs;
    if open != [] {
      ClosingsAre(trace, open[1..]);
      assert open == [open[0]] + open[1..];
    }
  }

  /** No begin or end of the thread is later than the ends that are added for it. */
  predicate ClosedInTime(trace: seq<Event>, tid: int) {
    (exists h :: h in Open(trace) && h.tid == tid) ==>
      LastEventTs(Kept(trace), tid) <= LastTs(Kept(trace), tid) + 0.1
  }

  lemma {:induction false} ClosingsEventsInOrder(t: seq<Event>, trace: seq<Event>, open: seq<EventHash>, tid: int)
    requires EventsInOrder(t, tid)
    requires (exists h :: h in open && h.tid == tid) ==>
               forall e :: e in t && OfThread(e, tid) ==> e.ts <= LastTs(trace, tid) + 0.1
    ensures EventsInOrder(t + Closings(trace, open), tid)
    decreases |open|
  {
    hide LastTs, EventsInOrder;
    if open == [] {
      assert t + Closings(trace, open) == t;
    } else {
      var e, rest := Closing(trace, open[0]), open[1..];
      assert open == [open[0]] + rest;
      EventsInOrderSnoc(t, e, tid);
      ClosingsEventsInOrder(t + [e], trace, rest, tid);
      assert t + ([e] + Closings(trace, rest)) == (t + [e]) + Closings(trace, rest);
    }
  }

  lemma ClosedInOrder(trace: seq<Event>, tid: int)
    requires EventsInOrder(trace, tid) && ClosedInTime(trace, tid)
    ensures EventsInOrder(Repaired(trace), tid)
  {
    KeptEventsInOrder(trace, tid);
    LastEventIsLatest(Kept(trace), tid);
    hide EventsInOrder, LastTs, LastEventTs, Kept, Open;
    ClosingsEventsInOrder(Kept(trace), Kept(trace), Open(trace), tid);
  }

  lemma OpenIsKept(trace: seq<Event>)
    ensures forall h :: h in Open(trace) ==> exists e :: e in Kept(trace) && OfThread(e, h.tid)
  {
    OpenThreads(trace);
    hide Open;
    forall h | h in Open(trace)
      ensures exists e :: e in Kept(trace) && OfThread(e, h.tid)
    {
      var b :| b in trace && b.ph == Begin && Hash(b) == h;
      assert b in Kept(trace) && OfThread(b, h.tid);
    }
  }

  lemma ClosedTooEarly(trace: seq<Event>, tid: int)
    requires EventsInOrder(trace, tid) && !ClosedInTime(trace, tid)
    ensures !EventsInOrder(Repaired(trace), tid)
  {
    hide LastTs, LastEventTs, Open, Closings, Kept, EventsInOrder;
    var kept, open := Kept(trace), Open(trace);
    var h :| h in open && h.tid == tid;
    OpenIsKept(trace);
    KeptEventsInOrder(trace, tid);
    LastEventIsLatest(kept, tid);
    ClosingsAre(kept, open);
    var x :| x in kept && OfThread(x, tid) && x.ts == LastEventTs(kept, tid);
    var i: nat :| i < |kept| && kept[i] == x;
    var j: nat :| j < |Closings(kept, open)| && Closings(kept, open)[j] == Closing(kept, h);
    OutOfOrder(trace, tid, i, j);
  }

  /** Main result. A thread whose begins and ends are in time order stays so if and only if no
      end is added for it, or none is added before its last begin or end: metadata behind that
      with an early time, such as a thread name at time 0, makes the difference. */
  lemma {:induction false} RepairedEventsInOrderIff(trace: seq<Event>, tid: int)
    requires EventsInOrder(trace, tid)
    ensures EventsInOrder(Repaired(trace), tid) <==> ClosedInTime(trace, tid)
  {
    hide EventsInOrder, ClosedInTime;
    if ClosedInTime(trace, tid) {
      ClosedInOrder(trace, tid);
    } else {
      ClosedTooEarly(trace, tid);
    }
  }

  lemma OutOfOrder(trace: seq<Event>, tid: int, i: nat, j: nat)
    requires i < |Kept(trace)| && j < |Closings(Kept(trace), Open(trace))|
    requires var x, e := Kept(trace)[i], Closings(Kept(trace), Open(trace))[j];
             OfThread(x, tid) && OfThread(e, tid) && x.ts > e.ts
    ensures !EventsInOrder(Repaired(trace), tid)
  {
    hide Kept, Open, Closings, OfThread;
    var kept, closings := Kept(trace), Closings(Kept(trace), Open(trace));
    assert Repaired(trace)[i] == kept[i] && Repaired(trace)[|kept| + j] == closings[j];
  }

  /** An added end comes 0.1 after the last event kept of its thread, whatever that is. */
  lemma {:induction false} AddedEndTime(trace: seq<Event>, k: nat, j: nat)
    requires |Kept(trace)| <= k < |Repaired(trace)| && j < |Kept(trace)|
    requires Kept(trace)[j].tid == Repaired(trace)[k].tid
    requires forall i :: j < i < |Kept(trace)| ==> Kept(trace)[i].tid != Repaired(trace)[k].tid
    ensures Repaired(trace)[k].ph == End && Repaired(trace)[k].ts == Kept(trace)[j].ts + 0.1
  {
    var e, kept := Repaired(trace)[k], Kept(trace);
    assert e == Closings(kept, Open(trace))[k - |kept|];
    ClosingsAre(kept, Open(trace));
    LastTsAt(kept, j);
  }

  /** What is added are ends. On a thread whose begins and ends are in time order they are later
      than all begins and ends that are kept exactly when they are later than the last one. */
  lemma AddedEndsAreLater(trace: seq<Event>, k: nat)
    requires |Kept(trace)| <= k < |Repaired(trace)|
    requires EventsInOrder(trace, Repaired(trace)[k].tid)
    ensures var e, kept := Repaired(trace)[k], Kept(trace);
            && e.ph == End
            && ((forall x :: x in kept && OfThread(x, e.tid) ==> x.ts < e.ts) <==>
                LastEventTs(kept, e.tid) < LastTs(kept, e.tid) + 0.1)
  {
    var e, kept := Repaired(trace)[k], Kept(trace);
    assert e == Closings(kept, Open(trace))[k - |kept|];
    ClosingsAre(kept, Open(trace));
    OpenThreads(trace);
    KeptEventsInOrder(trace, e.tid);
    LastEventIsLatest(kept, e.tid);
    var b :| b in trace && b.ph == Begin && Hash(b) == Hash(e);
    assert b in kept && OfThread(b, e.tid);
  }

  // ------------------------------------------------------------ the repair loop

  /** Increasing positions below `n`. */
  ghost predicate Positions(positions: seq<nat>, n: nat) {
    && (forall k :: 0 <= k < |positions| ==> positions[k] < n)
    && (forall j, k :: 0 <= j < k < |positions| ==> positions[j] < positions[k])
  }

  /** The list after `pop`s at `positions`, the last one first. */
  function PopAll<T>(s: seq<T>, positions: seq<nat>): seq<T>
    requires Positions(positions, |s|)
    decreases |positions|
  {
    if positions == [] then s
    else
      var i := Last(positions);
      PopAll(s[..i] + s[i + 1..], Init(positions))
  }

  lemma PositionsSnoc(positions: seq<nat>, n: nat)
    requires Positions(positions, n)
    ensures Positions(positions, n + 1) && Positions(positions + [n], n + 1)
    ensures Init(positions + [n]) == positions && Last(positions + [n]) == n
    ensures positions != [] ==> Last(positions) < n && Positions(Init(positions), n - 1)
  {
  }

  lemma PopOne<T>(s: seq<T>, x: T, i: nat)
    requires i <= |s|
    ensures i == |s| ==> (s + [x])[..i] + (s + [x])[i + 1..] == s
    ensures i < |s| ==> (s + [x])[..i] + (s + [x])[i + 1..] == (s[..i] + s[i + 1..]) + [x]
  {
  }

  lemma {:induction false} PopAllSnoc<T>(s: seq<T>, x: T, positions: seq<nat>)
    requires Positions(positions, |s|)
    ensures Positions(positions, |s| + 1) && Positions(positions + [|s|], |s| + 1)
    ensures PopAll(s + [x], positions) == PopAll(s, positions) + [x]
    ensures PopAll(s + [x], positions + [|s|]) == PopAll(s, positions)
    decreases |positions|
  {
    hide Positions;
    PositionsSnoc(positions, |s|);
    PopOne(s, x, |s|);
    if positions != [] {
      var i := Last(positions);
      PopOne(s, x, i);
      PopAllSnoc(s[..i] + s[i + 1..], x, Init(positions));
    }
  }

  lemma LastTsAt(trace: seq<Event>, k: nat)
    requires k < |trace|
    requires forall j :: k < j < |trace| ==> trace[j].tid != trace[k].tid
    ensures LastTs(trace, trace[k].tid) == trace[k].ts
    decreases |trace|
  {
    if k < |trace| - 1 {
      assert Init(trace)[k] == trace[k];
      LastTsAt(Init(trace), k);
    }
  }

  method RemoveEventsWithoutBeginning(events: seq<Event>) returns (instrTrace: seq<Event>)
    ensures instrTrace == Repaired(events)
  {
    var begins, toRemove := FindUnmatched(events);
    instrTrace := PopEach(events, toRemove);
    OpenThreads(events);
    var lastTsPerThread := LastTimestamps(instrTrace, begins);
    instrTrace := AddEnds(instrTrace, begins, lastTsPerThread);
  }

  lemma ScanNext(before: seq<Event>, e: Event)
    ensures Open(before + [e]) == Next(Open(before), e)
    ensures Kept(before + [e]) == if Unmatched(Open(before), e) then Kept(before) else Kept(before) + [e]
    ensures e.ph == Begin ==> Next(Open(before), e) == [Hash(e)] + Open(before)
    ensures e.ph == End && Hash(e) in Open(before) ==> Next(Open(before), e) == RemoveFirst(Open(before), Hash(e))
    ensures e.ph == Metadata || Unmatched(Open(before), e) ==> Next(Open(before), e) == Open(before)
    ensures Unmatched(Open(before), e) <==> e.ph == End && Hash(e) !in Open(before)
  {
    assert Init(before + [e]) == before;
  }

  /** The open begins and the positions of the unmatched ends of a trace. */
  ghost predicate Found(trace: seq<Event>, begins: seq<EventHash>, toRemove: seq<nat>) {
    begins == Open(trace) && Positions(toRemove, |trace|) && PopAll(trace, toRemove) == Kept(trace)
  }

  /** What one event does to the open begins and the positions, branch by branch. */
  lemma FoundNext(before: seq<Event>, e: Event, begins: seq<EventHash>, toRemove: seq<nat>)
    requires Found(before, begins, toRemove)
    ensures e.ph == Begin ==> Found(before + [e], [Hash(e)] + begins, toRemove)
    ensures e.ph == Metadata ==> Found(before + [e], begins, toRemove)
    ensures e.ph == End && Hash(e) !in begins ==> Found(before + [e], begins, toRemove + [|before|])
    ensures e.ph == End && Hash(e) in begins ==> Found(before + [e], RemoveFirst(begins, Hash(e)), toRemove)
  {
    hide Open, Kept, PopAll, Positions, RemoveFirst, Next, Unmatched;
    ScanNext(before, e);
    PopAllSnoc(before, e, toRemove);
  }

  lemma FoundNothing()
    ensures Found([], [], [])
  {
  }

  method FindUnmatched(events: seq<Event>) returns (begins: seq<EventHash>, toRemove: seq<nat>)
    ensures Found(events, begins, toRemove)
  {
    hide Found, RemoveFirst;
    begins := [];
    toRemove := [];
    FoundNothing();
    assert events[..0] == [];
    for i := 0 to |events|
      invariant Found(events[..i], begins, toRemove)
    {
      var e := events[i];
      TakeNext(events, i);
      FoundNext(events[..i], e, begins, toRemove);
      if e.ph == Begin {
        begins := [Hash(e)] + begins;
        continue;
      }
      if e.ph != End {
        continue;
      }
      var h := Hash(e);
      if h !in begins {
        toRemove := toRemove + [i];
      } else {
        begins := RemoveFirst(begins, h);
      }
    }
    TakeAll(events);
  }

  method AddEnds(kept: seq<Event>, begins: seq<EventHash>, last: map<int, real>) returns (instrTrace: seq<Event>)
    requires forall h :: h in begins ==> h.tid in last && last[h.tid] == LastTs(kept, h.tid)
    ensures instrTrace == kept + Closings(kept, begins)
  {
    hide LastTs;
    instrTrace := kept;
    for k := 0 to |begins|
      invariant instrTrace + Closings(kept, begins[k..]) == kept + Closings(kept, begins)
    {
      var be := begins[k];
      assert be in begins;
      var e := Event(be.name, be.tid, be.pid, End, last[be.tid] + 0.1);
      assert begins[k..][1..] == begins[k + 1..];
      Assoc3(instrTrace, [e], Closings(kept, begins[k + 1..]));
      instrTrace := instrTrace + [e];
    }
    assert Closings(kept, begins[|begins|..]) == [];
  }

  method PopEach(events: seq<Event>, toRemove: seq<nat>) returns (instrTrace: seq<Event>)
    requires Positions(toRemove, |events|)
    ensures instrTrace == PopAll(events, toRemove)
  {
    instrTrace := events;
    var k := |toRemove|;
    assert toRemove[..k] == toRemove;
    while k > 0
      invariant 0 <= k <= |toRemove|
      invariant Positions(toRemove[..k], |instrTrace|)
      invariant PopAll(instrTrace, toRemove[..k]) == PopAll(events, toRemove)
    {
      k := k - 1;
      var i := toRemove[k];
      assert Init(toRemove[..k + 1]) == toRemove[..k];
      instrTrace := instrTrace[..i] + instrTrace[i + 1..];
    }
  }

  /** The last timestamp of every thread with an open begin: no lookup misses. */
  method LastTimestamps(trace: seq<Event>, begins: seq<EventHash>) returns (last: map<int, real>)
    requires forall h :: h in begins ==> HasThread(trace, h.tid)
    ensures forall h :: h in begins ==> h.tid in last && last[h.tid] == LastTs(trace, h.tid)
  {
    var threadIds := set h | h in begins :: h.tid;
    ghost var wanted := threadIds;
    last := map[];
    var k := |trace|;
    while k > 0
      invariant 0 <= k <= |trace|
      invariant forall tid :: tid in wanted ==> HasThread(trace, tid)
      invariant forall tid :: tid in threadIds ==> forall j :: k <= j < |trace| ==> trace[j].tid != tid
      invariant forall tid :: tid in wanted && tid !in threadIds ==> tid in last && last[tid] == LastTs(trace, tid)
    {
      k := k - 1;
      var e := trace[k];
      var tid := e.tid;
      if tid !in threadIds {
        continue;
      }
      LastTsAt(trace, k);
      last := last[tid := e.ts];
      threadIds := threadIds - {tid};
      if threadIds == {} {
        break;
      }
    }
    forall h | h in begins
      ensures h.tid !in threadIds
    {
      assert h.tid in wanted;
      var e :| e in trace && e.tid == h.tid;
      var j :| 0 <= j < |trace| && trace[j] == e;
    }
  }
}
