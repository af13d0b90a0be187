/** The two repairs of an instrumentation trace one after the other. */
module TraceAdjustment {
  import opened Sequences
  import opened Options
  import opened TraceEvents
  import opened TraceRepair
  import opened TraceNesting
  import opened FixTimestamps

  lemma GrownAt(a: seq<Event>, b: seq<Event>, k: nat)
    requires Grown(a, b) && k <= |a|
    ensures |b| == |a| && (k < |a| ==> b[k] == a[k].(ts := b[k].ts))
  {
  }

  /** Moving ends in time does not change what is begun and ended. */
  lemma {:induction false} GrownBalance(a: seq<Event>, b: seq<Event>, n: nat, h: EventHash)
    requires Grown(a, b) && n <= |a|
    ensures Balance(b[..n], h) == Balance(a[..n], h)
    decreases n
  {
    hide Balance, Grown;
    GrownAt(a, b, n);
    if n > 0 {
      GrownBalance(a, b, n - 1, h);
      GrownAt(a, b, n - 1);
      TakeNext(a, n - 1);
      TakeNext(b, n - 1);
      BalanceSnoc(a[..n - 1], a[n - 1], h);
      BalanceSnoc(b[..n - 1], b[n - 1], h);
    }
  }

  lemma GrownBalanced(a: seq<Event>, b: seq<Event>)
    requires Grown(a, b) && Balanced(a)
    ensures Balanced(b)
  {
    forall n, h | 0 <= n <= |b|
      ensures Balance(b[..n], h) >= 0
    {
      GrownBalance(a, b, n, h);
    }
    forall h
      ensures Balance(b, h) == 0
    {
      GrownBalance(a, b, |a|, h);
      TakeAll(a);
      TakeAll(b);
    }
  }

  /** ... nor how it nests. */
  lemma {:induction false} GrownNest(a: seq<Event>, b: seq<Event>, n: nat, th: Thread)
    requires Grown(a, b) && n <= |a|
    ensures Nest([], On(b[..n], th)) == Nest([], On(a[..n], th))
    decreases n
  {
    hide On, Nest, Grown;
    GrownAt(a, b, n);
    if n > 0 {
      GrownNest(a, b, n - 1, th);
      GrownAt(a, b, n - 1);
      TakeNext(a, n - 1);
      TakeNext(b, n - 1);
      SameNest(a[..n - 1], a[n - 1], b[..n - 1], b[n - 1], th);
    }
  }

  lemma SameNest(a: seq<Event>, x: Event, b: seq<Event>, y: Event, th: Thread)
    requires y == x.(ts := y.ts) && Nest([], On(b, th)) == Nest([], On(a, th))
    ensures Nest([], On(b + [y], th)) == Nest([], On(a + [x], th))
  {
    hide On, Nest;
    OnSnoc(a, x, th);
    OnSnoc(b, y, th);
    NestSnoc([], On(a, th), x);
    NestSnoc([], On(b, th), y);
  }

  /** Begins and ends are in time order on every thread, and so are the ends that are added. */
  ghost predicate Orderly(instr: seq<Event>) {
    AllEventsInOrder(instr) && forall tid :: ClosedInTime(instr, tid)
  }

  lemma RepairedAllEventsInOrder(instr: seq<Event>)
    requires AllEventsInOrder(instr)
    ensures AllEventsInOrder(Repaired(instr)) <==> Orderly(instr)
  {
    hide EventsInOrder, ClosedInTime, Repaired;
    forall tid
      ensures EventsInOrder(Repaired(instr), tid) <==> ClosedInTime(instr, tid)
    {
      assert EventsInOrder(instr, tid);
      RepairedEventsInOrderIff(instr, tid);
    }
  }

  /** Main result. If begins and ends of an instrumentation trace are in time order on every
      thread, and so are the ends added, it comes out of both repairs with every begin ended,
      and a thread whose events are a window of something well nested comes out well nested. */
  lemma {:induction false} AdjustedTrace(instr: seq<Event>, zpl: seq<Event>)
    requires Orderly(instr)
    ensures var f := FixAll(Repaired(instr), zpl);
            && Pop(f.trace, SortedDown(f.remove)) == Some(f.trace)
            && Grown(Repaired(instr), f.trace)
            && Balanced(f.trace)
            && forall th :: IsWindow(On(instr, th)) ==> WellNested(On(f.trace, th))
  {
    RepairedAllEventsInOrder(instr);
    hide FixAll, Grown, AllEventsInOrder, Balanced, On, IsWindow, Repaired, Nest, Orderly;
    var repaired, f := Repaired(instr), FixAll(Repaired(instr), zpl);
    OrderedTraceIsOnlyStretched(repaired, zpl);
    RepairedIsBalanced(instr);
    GrownBalanced(repaired, f.trace);
    forall th | IsWindow(On(instr, th))
      ensures WellNested(On(f.trace, th))
    {
      var _, _ := RepairedWindow(instr, th);
      GrownNest(repaired, f.trace, |repaired|, th);
      TakeAll(repaired);
      TakeAll(f.trace);
    }
  }

  /** A thread is named at time 0 before its first event, and gets a new name at time 0 before its
      second, an end without a begin: the open event is ended before it began, and both are
      removed. */
  lemma RenamedThreadLosesEvent(f: string, g: string)
    requires f != g
    ensures var b, e := Event(f, 1, 0, Begin, 5.0), Event(g, 1, 0, End, 6.0);
            var m := Event("thread_name", 1, 0, Metadata, 0.0);
            var t := [m, b, m, e];
            var r := FixAll(Repaired(t), []);
            && AllEventsInOrder(t) && !Orderly(t)
            && Pop(r.trace, SortedDown(r.remove)) == Some([m, m])
  {
    var b, e := Event(f, 1, 0, Begin, 5.0), Event(g, 1, 0, End, 6.0);
    var m := Event("thread_name", 1, 0, Metadata, 0.0);
    var t := [m, b, m, e];
    RenamedThreadRepaired(b, m, e);
    var repaired := [m, b, m, b.(ph := End, ts := 0.1)];
    RenamedThreadMarks(m, b);
    SortTwo();
    assert [3, 1][1..] == [1] && repaired[..3] + repaired[4..] == [m, b, m];
    assert [m, b, m][..1] + [m, b, m][2..] == [m, m];
    assert Pop([m, b, m], [1]) == Some([m, m]);
    hide FixUpTo, Repaired, Pop;
    assert !Orderly(t) by {
      if Orderly(t) {
        RepairedAllEventsInOrder(t);
        OrderedTraceIsOnlyStretched(repaired, []);
      }
    }
  }

  lemma RenamedThreadMarks(m: Event, b: Event)
    requires m.ph == Metadata && b.ph == Begin && b.ts == 5.0
    ensures var repaired := [m, b, m, b.(ph := End, ts := 0.1)];
            FixAll(repaired, []) == Fixed(repaired, [3, 1])
  {
    var repaired := [m, b, m, b.(ph := End, ts := 0.1)];
    assert FirstEnd(repaired, b, 3) == 3 && FirstEnd(repaired, b, 2) == 3;
    assert FixUpTo(repaired, [], 0) == Fixed(repaired, []);
    assert FixUpTo(repaired, [], 1) == Fixed(repaired, []);
    assert FixUpTo(repaired, [], 2) == Fixed(repaired, [3, 1]);
    assert FixUpTo(repaired, [], 3) == Fixed(repaired, [3, 1]);
    assert FixUpTo(repaired, [], 4) == Fixed(repaired, [3, 1]);
  }

  lemma SortTwo()
    ensures SortedDown([3, 1]) == [3, 1]
  {
    var none: seq<nat>, marks: seq<nat> := [], [3, 1];
    assert marks[1..] == [1] && [1][1..] == none;
    assert SortedDown(none) == none && SortedDown([1]) == [1];
  }

  lemma RenamedThreadRepaired(b: Event, m: Event, e: Event)
    requires b.ph == Begin && b.ts == 5.0 && m.ph == Metadata && m.ts == 0.0 && e.ph == End && e.ts == 6.0
    requires b.tid == m.tid && Hash(b) != Hash(e)
    ensures Repaired([m, b, m, e]) == [m, b, m, b.(ph := End, ts := 0.1)]
    ensures AllEventsInOrder([m, b, m, e])
  {
    var kept := [] + [m] + [b] + [m];
    assert kept == [m, b, m] && kept + [e] == [m, b, m, e];
    assert [Hash(b)] + [] == [Hash(b)];
    FourScanned(b, m, e);
    assert LastTs(kept, b.tid) == 0.0;
    hide Kept, Open, LastTs;
    assert [Hash(b)][1..] == [];
    assert Closings(kept, [Hash(b)]) == [Closing(kept, Hash(b))];
  }

  lemma FourScanned(b: Event, m: Event, e: Event)
    requires b.ph == Begin && m.ph == Metadata && e.ph == End && Hash(b) != Hash(e)
    ensures var kept := [] + [m] + [b] + [m];
            Open(kept + [e]) == [Hash(b)] + [] && Kept(kept + [e]) == kept
  {
    hide Kept, Open;
    NothingScanned();
    ScanNext([], m);
    ScanNext([] + [m], b);
    ScanNext([] + [m] + [b], m);
    ScanNext([] + [m] + [b] + [m], e);
  }

  lemma NothingScanned()
    ensures Open([]) == [] && Kept([]) == []
  {
  }

  /** Two begins of one name with their ends, the first of which is earlier than both: the first
      repair changes nothing, the second removes everything. */
  lemma BalancedEventsLost(name: string)
    ensures var b := Event(name, 1, 0, Begin, 3.0);
            var t := [b, b, b.(ph := End, ts := 1.0), b.(ph := End, ts := 5.0)];
            var f := FixAll(Repaired(t), []);
            && Balanced(t) && Repaired(t) == t
            && f.remove == [2, 0, 2, 1] && Pop(f.trace, SortedDown(f.remove)) == Some([])
  {
    var b := Event(name, 1, 0, Begin, 3.0);
    var e, last := b.(ph := End, ts := 1.0), b.(ph := End, ts := 5.0);
    var t := [b, b, e, last];
    FourBalanced(name);
    UnchangedIff(t);
    UnrelatedEventLost(name, last);
  }

  lemma FourBalanced(name: string)
    ensures var b := Event(name, 1, 0, Begin, 3.0);
            Balanced([b, b, b.(ph := End, ts := 1.0), b.(ph := End, ts := 5.0)])
  {
    var b := Event(name, 1, 0, Begin, 3.0);
    var e, last := b.(ph := End, ts := 1.0), b.(ph := End, ts := 5.0);
    var t := [b, b, e, last];
    assert t[..0] == [] && t[..1] == [b] && t[..2] == [b, b] && t[..3] == [b, b, e] && t[..4] == t;
    assert Init(t) == [b, b, e] && Init([b, b, e]) == [b, b] && Init([b, b]) == [b] && Init([b]) == [];
    forall n, h | 0 <= n <= 4
      ensures Balance(t[..n], h) >= 0 && (n == 4 ==> Balance(t[..n], h) == 0)
    {
      var w := if Hash(b) == h then 1 else 0;
      assert Balance([b], h) == w;
      assert Balance([b, b], h) == 2 * w;
      assert Balance([b, b, e], h) == w;
      assert Balance(t, h) == 0;
    }
    assert forall h :: Balance(t[..4], h) == Balance(t, h);
  }

  /** The end of `adjust_instrumentation_trace`; None is an index error. */
  method AdjustInstrumentationTrace(instrTrace: seq<Event>, zplTrace: seq<Event>) returns (r: Option<seq<Event>>)
    ensures Orderly(instrTrace) ==>
              && r == Some(zplTrace + FixAll(Repaired(instrTrace), zplTrace).trace)
              && Balanced(FixAll(Repaired(instrTrace), zplTrace).trace)
    ensures var f := FixAll(Repaired(instrTrace), zplTrace);
            r == match Pop(f.trace, SortedDown(f.remove)) { case Some(t) => Some(zplTrace + t) case None => None }
  {
    var instr := RemoveEventsWithoutBeginning(instrTrace);
    var fixed := FixTimestamps.FixTimestamps(instr, zplTrace);
    if Orderly(instrTrace) {
      AdjustedTrace(instrTrace, zplTrace);
    }
    r := match fixed case Some(t) => Some(zplTrace + t) case None => None;
  }
}
