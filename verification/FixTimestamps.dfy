/** Timestamp repair: the end of an instrumentation event is moved so that it does not come
    before the ends of the Zephelin events that began inside it. */
module FixTimestamps {
  import opened Sequences
  import opened Options
  import Sorting
  import opened TraceEvents
  import opened TraceRepair

  predicate OnThread(e: Event, b: Event) {
    e.tid == b.tid && e.pid == b.pid
  }

  predicate IsEndOf(e: Event, b: Event) {
    Hash(e) == Hash(b) && e.ph == End
  }

  /** A begin on the thread of `b` inside the time span `[from, to)`. */
  predicate IsChild(e: Event, b: Event, from: real, to: real) {
    OnThread(e, b) && e.ph == Begin && from <= e.ts < to
  }

  /** `next(filter(...), None)` over the events from a position on: the first position, or -1. */
  function FirstEnd(s: seq<Event>, b: Event, from: nat): (r: int)
    ensures r == -1 ==> forall k :: from <= k < |s| ==> !IsEndOf(s[k], b)
    ensures r != -1 ==> from <= r < |s| && IsEndOf(s[r], b) && forall k :: from <= k < r ==> !IsEndOf(s[k], b)
    decreases |s| - from
  {
    if from >= |s| then -1 else if IsEndOf(s[from], b) then from else FirstEnd(s, b, from + 1)
  }

  function FirstChild(s: seq<Event>, b: Event, lo: real, hi: real, from: nat): (r: int)
    ensures r == -1 ==> forall k :: from <= k < |s| ==> !IsChild(s[k], b, lo, hi)
    ensures r != -1 ==> from <= r < |s| && IsChild(s[r], b, lo, hi)
    ensures r != -1 ==> forall k :: from <= k < r ==> !IsChild(s[k], b, lo, hi)
    decreases |s| - from
  {
    if from >= |s| then -1 else if IsChild(s[from], b, lo, hi) then from else FirstChild(s, b, lo, hi, from + 1)
  }

  predicate IsLaterEndOf(e: Event, b: Event) {
    IsEndOf(e, b) && e.ts > b.ts
  }

  function FirstLaterEnd(s: seq<Event>, b: Event, from: nat): (r: int)
    ensures r == -1 ==> forall k :: from <= k < |s| ==> !IsLaterEndOf(s[k], b)
    ensures r != -1 ==> from <= r < |s| && IsLaterEndOf(s[r], b) && forall k :: from <= k < r ==> !IsLaterEndOf(s[k], b)
    decreases |s| - from
  {
    if from >= |s| then -1 else if IsLaterEndOf(s[from], b) then from else FirstLaterEnd(s, b, from + 1)
  }

  /** How many events come after a point in time: what the cursor loop uses up. */
  function Later(s: seq<Event>, ts: real): nat {
    if s == [] then 0 else Later(Init(s), ts) + if Last(s).ts > ts then 1 else 0
  }

  lemma {:induction false} LaterLess(s: seq<Event>, t0: real, t1: real, k: nat)
    requires t0 < t1 && k < |s| && t0 < s[k].ts <= t1
    ensures Later(s, t1) < Later(s, t0)
    decreases |s|
  {
    if k == |s| - 1 {
      LaterMono(Init(s), t0, t1);
    } else {
      LaterLess(Init(s), t0, t1, k);
    }
  }

  lemma {:induction false} LaterMono(s: seq<Event>, t0: real, t1: real)
    requires t0 <= t1
    ensures Later(s, t1) <= Later(s, t0)
    decreases |s|
  {
    if s != [] {
      LaterMono(Init(s), t0, t1);
    }
  }

  /** The end that the begin `b` with the end time `end` gets, looking at Zephelin events from
      `cursor` on: children are visited one after the other until one ends too late. */
  function Extend(zpl: seq<Event>, b: Event, end: real, cursor: real): real
    decreases Later(zpl, cursor)
  {
    var k := FirstChild(zpl, b, cursor, end, 0);
    if k == -1 then end
    else
      var m := FirstLaterEnd(zpl, zpl[k], 0);
      if m == -1 then end
      else if zpl[m].ts > end then zpl[m].ts
      else
        LaterLess(zpl, cursor, zpl[m].ts, m);
        Extend(zpl, b, end, zpl[m].ts)
  }

  /** Events after the begins before position `i` have been looked at, and the positions to
      remove. */
  datatype Fixed = Fixed(trace: seq<Event>, remove: seq<nat>)

  function FixOne(f: Fixed, zpl: seq<Event>, i: nat): (r: Fixed)
    requires i < |f.trace|
    ensures |r.trace| == |f.trace|
  {
    var b := f.trace[i];
    var j := FirstEnd(f.trace, b, i + 1);
    if b.ph != Begin || j == -1 then f
    else if f.trace[j].ts < b.ts then f.(remove := f.remove + [j, i])
    else f.(trace := f.trace[j := f.trace[j].(ts := Extend(zpl, b, f.trace[j].ts, b.ts))])
  }

  function FixUpTo(instr: seq<Event>, zpl: seq<Event>, n: nat): (r: Fixed)
    requires n <= |instr|
    ensures |r.trace| == |instr|
  {
    if n == 0 then Fixed(instr, []) else FixOne(FixUpTo(instr, zpl, n - 1), zpl, n - 1)
  }

  function FixAll(instr: seq<Event>, zpl: seq<Event>): Fixed {
    FixUpTo(instr, zpl, |instr|)
  }

  // ------------------------------------------------------------ ends only grow

  /** Nothing but the timestamps of ends differs, and those are not earlier. */
  ghost predicate Grown(before: seq<Event>, after: seq<Event>) {
    && |before| == |after|
    && forall k :: 0 <= k < |before| ==>
         && after[k] == before[k].(ts := after[k].ts)
         && after[k].ts >= before[k].ts
         && (before[k].ph != End ==> after[k] == before[k])
  }

  lemma {:induction false} ExtendGrows(zpl: seq<Event>, b: Event, end: real, cursor: real)
    ensures var r := Extend(zpl, b, end, cursor);
            || r == end
            || (r > end && exists m :: 0 <= m < |zpl| && OnThread(zpl[m], b) && zpl[m].ph == End && zpl[m].ts == r)
    decreases Later(zpl, cursor)
  {
    var k := FirstChild(zpl, b, cursor, end, 0);
    if k != -1 {
      var m := FirstLaterEnd(zpl, zpl[k], 0);
      if m != -1 && zpl[m].ts <= end {
        LaterLess(zpl, cursor, zpl[m].ts, m);
        ExtendGrows(zpl, b, end, zpl[m].ts);
      }
    }
  }

  lemma FixOneGrows(f: Fixed, zpl: seq<Event>, i: nat)
    requires i < |f.trace|
    ensures Grown(f.trace, FixOne(f, zpl, i).trace)
  {
    var b := f.trace[i];
    var j := FirstEnd(f.trace, b, i + 1);
    if j != -1 {
      ExtendGrows(zpl, b, f.trace[j].ts, b.ts);
    }
  }

  lemma GrownSame(a: seq<Event>)
    ensures Grown(a, a)
  {
  }

  lemma GrownTwice(a: seq<Event>, b: seq<Event>, c: seq<Event>)
    requires Grown(a, b) && Grown(b, c)
    ensures Grown(a, c)
  {
  }

  lemma {:induction false} FixGrows(instr: seq<Event>, zpl: seq<Event>, m: nat, n: nat)
    requires m <= n <= |instr|
    ensures Grown(FixUpTo(instr, zpl, m).trace, FixUpTo(instr, zpl, n).trace)
    decreases n
  {
    hide Grown, FixOne;
    if m == n {
      GrownSame(FixUpTo(instr, zpl, n).trace);
    } else {
      FixGrows(instr, zpl, m, n - 1);
      FixOneGrows(FixUpTo(instr, zpl, n - 1), zpl, n - 1);
      GrownTwice(FixUpTo(instr, zpl, m).trace, FixUpTo(instr, zpl, n - 1).trace, FixUpTo(instr, zpl, n).trace);
    }
  }

  /** The pair of a begin does not depend on timestamps. */
  lemma {:induction false} SameEnd(a: seq<Event>, b: seq<Event>, e: Event, from: nat)
    requires Grown(a, b)
    ensures FirstEnd(a, e, from) == FirstEnd(b, e, from)
    ensures forall ts: real :: FirstEnd(a, e.(ts := ts), from) == FirstEnd(a, e, from)
    decreases |a| - from
  {
    if from < |a| {
      SameEnd(a, b, e, from + 1);
      forall ts: real
        ensures FirstEnd(a, e.(ts := ts), from) == FirstEnd(a, e, from)
      {
        assert FirstEnd(a, e.(ts := ts), from + 1) == FirstEnd(a, e, from + 1);
      }
    }
  }

  // ---------------------------------------------------------------- end times

  /** The time of the end at `j` once the begins before position `n` have been looked at: those
      whose first later end it is extend it, unless it is too early for them. */
  function EndTime(instr: seq<Event>, zpl: seq<Event>, j: nat, n: nat): real
    requires n <= |instr| && j < |instr|
  {
    if n == 0 then instr[j].ts
    else
      var b, e := instr[n - 1], EndTime(instr, zpl, j, n - 1);
      if b.ph == Begin && FirstEnd(instr, b, n) == j && b.ts <= e then Extend(zpl, b, e, b.ts) else e
  }

  lemma FixOneAt(f: Fixed, zpl: seq<Event>, i: nat, j: nat)
    requires i < |f.trace| && j < |f.trace|
    ensures var b, e := f.trace[i], f.trace[j].ts;
            FixOne(f, zpl, i).trace[j].ts
              == if b.ph == Begin && FirstEnd(f.trace, b, i + 1) == j && b.ts <= e then Extend(zpl, b, e, b.ts) else e
  {
    hide Extend;
  }

  lemma {:induction false} EndTimeIs(instr: seq<Event>, zpl: seq<Event>, j: nat, n: nat)
    requires n <= |instr| && j < |instr|
    ensures FixUpTo(instr, zpl, n).trace[j].ts == EndTime(instr, zpl, j, n)
    decreases n
  {
    hide Extend, FixOne, FirstEnd;
    if n > 0 {
      EndTimeIs(instr, zpl, j, n - 1);
      SameBegin(instr, zpl, n - 1);
      FixOneAt(FixUpTo(instr, zpl, n - 1), zpl, n - 1, j);
    }
  }

  /** A begin and its first later end are where they were when their turn comes. */
  lemma SameBegin(instr: seq<Event>, zpl: seq<Event>, i: nat)
    requires i < |instr|
    ensures var f := FixUpTo(instr, zpl, i);
            && f.trace[i].ph == instr[i].ph
            && (instr[i].ph == Begin ==> f.trace[i] == instr[i])
            && FirstEnd(f.trace, instr[i], i + 1) == FirstEnd(instr, instr[i], i + 1)
  {
    FixGrows(instr, zpl, 0, i);
    SameEnd(instr, FixUpTo(instr, zpl, i).trace, instr[i], i + 1);
  }

  lemma {:induction false} EndTimeGrows(instr: seq<Event>, zpl: seq<Event>, j: nat, m: nat, n: nat)
    requires m <= n <= |instr| && j < |instr|
    ensures EndTime(instr, zpl, j, m) <= EndTime(instr, zpl, j, n)
    decreases n
  {
    if m < n {
      EndTimeGrows(instr, zpl, j, m, n - 1);
      ExtendGrows(zpl, instr[n - 1], EndTime(instr, zpl, j, n - 1), instr[n - 1].ts);
    }
  }

  // ------------------------------------------------------------------ removal

  function Downwards(x: nat): real {
    -(x as real)
  }

  /** `sorted(positions, reverse=True)`. */
  function SortedDown(positions: seq<nat>): seq<nat> {
    Sorting.SortBy(Downwards, positions)
  }

  /** `pop` at one position after the other; None is an index out of range. */
  function Pop(s: seq<Event>, positions: seq<nat>): (r: Option<seq<Event>>)
    ensures r.Some? ==> |r.value| == |s| - |positions|
    decreases |positions|
  {
    if positions == [] then Some(s)
    else if positions[0] >= |s| then None
    else Pop(s[..positions[0]] + s[positions[0] + 1..], positions[1..])
  }

  /** What removal is meant to give: the trace without the events at some positions. */
  function Without(s: seq<Event>, positions: set<nat>): seq<Event> {
    if s == [] then []
    else if |s| - 1 in positions then Without(Init(s), positions)
    else Without(Init(s), positions) + [Last(s)]
  }

  function SetOf(s: seq<nat>): set<nat> {
    set x | x in s
  }

  predicate NoDuplicates(s: seq<nat>) {
    s == [] || (s[0] !in s[1..] && NoDuplicates(s[1..]))
  }

  predicate Down(s: seq<nat>) {
    Sorting.Sorted(Downwards, s)
  }

  lemma DownCons(x: nat, s: seq<nat>)
    ensures Down([x] + s) <==> Down(s) && forall y :: y in s ==> y <= x
    ensures NoDuplicates([x] + s) <==> NoDuplicates(s) && x !in s
  {
    Sorting.SortedCons(Downwards, x, s);
    assert ([x] + s)[1..] == s;
  }

  lemma SameMembers(a: seq<nat>, b: seq<nat>)
    requires multiset(a) == multiset(b)
    ensures SetOf(a) == SetOf(b) && |a| == |b|
  {
    assert |multiset(a)| == |a| && |multiset(b)| == |b|;
    assert forall x :: x in a <==> x in multiset(a);
    assert forall x :: x in b <==> x in multiset(b);
  }

  lemma {:induction false} NoDuplicatesIff(s: seq<nat>)
    ensures |SetOf(s)| <= |s|
    ensures NoDuplicates(s) <==> |SetOf(s)| == |s|
    decreases |s|
  {
    if s != [] {
      var rest := s[1..];
      assert s == [s[0]] + rest;
      NoDuplicatesIff(rest);
      DownCons(s[0], rest);
      if s[0] in rest {
        assert SetOf(s) == SetOf(rest);
      } else {
        assert SetOf(s) == SetOf(rest) + {s[0]};
      }
    }
  }

  lemma {:induction false} WithoutLength(s: seq<Event>, positions: set<nat>)
    requires forall x :: x in positions ==> x < |s|
    ensures |Without(s, positions)| == |s| - |positions|
    decreases |s|
  {
    if s == [] {
      assert positions == {};
    } else {
      var rest := positions - {|s| - 1};
      WithoutLength(Init(s), rest);
      WithoutIrrelevant(Init(s), positions, rest);
    }
  }

  lemma {:induction false} WithoutIrrelevant(s: seq<Event>, a: set<nat>, b: set<nat>)
    requires forall x :: x < |s| ==> (x in a <==> x in b)
    ensures Without(s, a) == Without(s, b)
    decreases |s|
  {
    if s != [] {
      WithoutIrrelevant(Init(s), a, b);
    }
  }

  lemma PoppedInit(s: seq<Event>, p: nat)
    requires p < |s| - 1
    ensures var t := s[..p] + s[p + 1..];
            t != [] && Init(t) == Init(s)[..p] + Init(s)[p + 1..] && Last(t) == Last(s)
  {
  }

  lemma {:induction false} WithoutPop(s: seq<Event>, p: nat, rest: set<nat>)
    requires p < |s| && forall x :: x in rest ==> x < p
    ensures Without(s[..p] + s[p + 1..], rest) == Without(s, rest + {p})
    decreases |s|
  {
    var t := s[..p] + s[p + 1..];
    if p == |s| - 1 {
      assert t == Init(s);
      WithoutIrrelevant(Init(s), rest, rest + {p});
    } else {
      PoppedInit(s, p);
      WithoutPop(Init(s), p, rest);
    }
  }

  /** Popping distinct positions from the highest down removes exactly what is there. */
  lemma {:induction false} PopDistinct(s: seq<Event>, positions: seq<nat>)
    requires Down(positions) && NoDuplicates(positions) && forall x :: x in positions ==> x < |s|
    ensures Pop(s, positions) == Some(Without(s, SetOf(positions)))
    decreases |positions|
  {
    if positions == [] {
      assert SetOf(positions) == {};
      WithoutNothing(s);
    } else {
      var p, rest := positions[0], positions[1..];
      assert positions == [p] + rest;
      DownCons(p, rest);
      assert p in positions && p < |s|;
      assert forall x :: x in rest ==> x in positions && x <= p && x != p;
      assert forall x :: x in SetOf(rest) ==> x in rest;
      WithoutPop(s, p, SetOf(rest));
      PopDistinct(s[..p] + s[p + 1..], rest);
      assert SetOf(positions) == SetOf(rest) + {p};
    }
  }

  lemma {:induction false} WithoutNothing(s: seq<Event>)
    ensures Without(s, {}) == s
    decreases |s|
  {
    if s != [] {
      WithoutNothing(Init(s));
    }
  }

  /** Popping positions, sorted downwards, takes out exactly what is at them if and only if
      they are distinct. */
  lemma PopExactIff(s: seq<Event>, remove: seq<nat>)
    requires forall x :: x in remove ==> x < |s|
    ensures Pop(s, SortedDown(remove)) == Some(Without(s, SetOf(remove))) <==> NoDuplicates(remove)
  {
    var sorted := SortedDown(remove);
    Sorting.SortBySorts(Downwards, remove);
    SameMembers(sorted, remove);
    NoDuplicatesIff(remove);
    NoDuplicatesIff(sorted);
    WithoutLength(s, SetOf(remove));
    if NoDuplicates(remove) {
      assert forall x :: x in sorted ==> x in SetOf(sorted);
      PopDistinct(s, sorted);
    }
  }

  // ----------------------------------------------------------- what is marked

  /** The begin at `i` finds its first later end, at `j`, too early. */
  predicate Marks(instr: seq<Event>, zpl: seq<Event>, i: nat, j: nat) {
    && i < |instr| && j < |instr| && instr[i].ph == Begin
    && FirstEnd(instr, instr[i], i + 1) == j
    && EndTime(instr, zpl, j, i) < instr[i].ts
  }

  /** Two begins find the same end too early. */
  ghost predicate SharedEarlyEnd(instr: seq<Event>, zpl: seq<Event>, n: nat) {
    exists i: nat, k: nat, j: nat :: i < k < n && Marks(instr, zpl, i, j) && Marks(instr, zpl, k, j)
  }

  lemma MarkedNext(instr: seq<Event>, zpl: seq<Event>, n: nat)
    requires n < |instr|
    ensures var f := FixUpTo(instr, zpl, n);
            var j := FirstEnd(instr, instr[n], n + 1);
            FixUpTo(instr, zpl, n + 1).remove
              == if j != -1 && Marks(instr, zpl, n, j) then f.remove + [j, n] else f.remove
  {
    hide Extend;
    SameBegin(instr, zpl, n);
    var j := FirstEnd(instr, instr[n], n + 1);
    if j != -1 {
      EndTimeIs(instr, zpl, j, n);
    }
  }

  /** What is marked: begins that find their end too early, and these ends. */
  lemma {:induction false} MarkedIff(instr: seq<Event>, zpl: seq<Event>, n: nat)
    requires n <= |instr|
    ensures forall x :: x in FixUpTo(instr, zpl, n).remove <==>
              exists i: nat, j: nat :: i < n && Marks(instr, zpl, i, j) && (x == i || x == j)
    ensures forall x :: x in FixUpTo(instr, zpl, n).remove ==> x < |instr|
    decreases n
  {
    hide FixUpTo, Marks;
    if n > 0 {
      MarkedIff(instr, zpl, n - 1);
      MarkedNext(instr, zpl, n - 1);
      MarksFirstEnd(instr, zpl, n - 1);
    } else {
      assert FixUpTo(instr, zpl, 0).remove == [] by {
        NothingMarkedYet(instr, zpl);
      }
    }
  }

  lemma NothingMarkedYet(instr: seq<Event>, zpl: seq<Event>)
    ensures FixUpTo(instr, zpl, 0).remove == []
  {
  }

  lemma MarksFirstEnd(instr: seq<Event>, zpl: seq<Event>, i: nat)
    ensures forall j: nat :: Marks(instr, zpl, i, j) ==>
              && i < |instr| && j == FirstEnd(instr, instr[i], i + 1) && j < |instr|
              && instr[i].ph == Begin && instr[j].ph == End
  {
  }

  lemma {:induction false} NoDuplicatesSnoc(s: seq<nat>, x: nat)
    ensures NoDuplicates(s + [x]) <==> NoDuplicates(s) && x !in s
    decreases |s|
  {
    if s != [] {
      NoDuplicatesSnoc(s[1..], x);
      assert s == [s[0]] + s[1..];
      assert (s + [x])[1..] == s[1..] + [x];
    }
  }

  /** The end of a marked begin is marked already exactly when an earlier begin shares it. */
  lemma MarkedBefore(instr: seq<Event>, zpl: seq<Event>, i: nat, j: nat)
    requires Marks(instr, zpl, i, j) && i < |instr|
    ensures var before := FixUpTo(instr, zpl, i).remove;
            && i !in before && i != j
            && (j in before <==> exists k: nat :: k < i && Marks(instr, zpl, k, j))
  {
    hide FixUpTo, Marks;
    MarkedIff(instr, zpl, i);
    MarksFirstEnd(instr, zpl, i);
    forall k: nat, l: nat | k < i && Marks(instr, zpl, k, l)
      ensures l != i && k != j
    {
      MarksFirstEnd(instr, zpl, k);
    }
  }

  lemma SharedNext(instr: seq<Event>, zpl: seq<Event>, n: nat)
    requires n < |instr|
    ensures var j := FirstEnd(instr, instr[n], n + 1);
            SharedEarlyEnd(instr, zpl, n + 1) <==>
              || SharedEarlyEnd(instr, zpl, n)
              || (j != -1 && Marks(instr, zpl, n, j) && exists k: nat :: k < n && Marks(instr, zpl, k, j))
  {
    MarksFirstEnd(instr, zpl, n);
    hide Marks;
  }

  /** Marks are distinct as long as no two begins share an end that is too early. */
  lemma {:induction false} DistinctIff(instr: seq<Event>, zpl: seq<Event>, n: nat)
    requires n <= |instr|
    ensures NoDuplicates(FixUpTo(instr, zpl, n).remove) <==> !SharedEarlyEnd(instr, zpl, n)
    decreases n
  {
    if n == 0 {
      NothingMarkedYet(instr, zpl);
    } else {
      hide FixUpTo, Marks, NoDuplicates, SharedEarlyEnd;
      var i, before := n - 1, FixUpTo(instr, zpl, n - 1).remove;
      DistinctIff(instr, zpl, i);
      MarkedNext(instr, zpl, i);
      SharedNext(instr, zpl, i);
      var j := FirstEnd(instr, instr[i], i + 1);
      if j != -1 && Marks(instr, zpl, i, j) {
        assert before + [j, i] == (before + [j]) + [i];
        NoDuplicatesSnoc(before + [j], i);
        NoDuplicatesSnoc(before, j);
        MarkedBefore(instr, zpl, i, j);
      }
    }
  }

  /** Main result. The removals take out exactly the marked events if and only if no two begins
      find the same end too early. Otherwise an unrelated event is lost, or there is an index
      error. */
  lemma {:induction false} RemovalExactIff(instr: seq<Event>, zpl: seq<Event>)
    ensures var f := FixAll(instr, zpl);
            Pop(f.trace, SortedDown(f.remove)) == Some(Without(f.trace, SetOf(f.remove))) <==>
              !SharedEarlyEnd(instr, zpl, |instr|)
  {
    MarkedIff(instr, zpl, |instr|);
    PopExactIff(FixAll(instr, zpl).trace, FixAll(instr, zpl).remove);
    DistinctIff(instr, zpl, |instr|);
  }

  /** Nothing is marked exactly when no begin finds its first later end too early. */
  lemma NothingMarkedIff(instr: seq<Event>, zpl: seq<Event>)
    ensures FixAll(instr, zpl).remove == [] <==> forall i: nat, j: nat :: !Marks(instr, zpl, i, j)
  {
    var remove := FixAll(instr, zpl).remove;
    MarkedIff(instr, zpl, |instr|);
    hide FixUpTo, Marks;
    if i: nat, j: nat :| Marks(instr, zpl, i, j) {
      MarksFirstEnd(instr, zpl, i);
      assert i in remove;
    }
    if remove != [] {
      assert remove[0] in remove;
    }
  }

  lemma NotEarly(instr: seq<Event>, zpl: seq<Event>, i: nat, j: nat)
    requires AllEventsInOrder(instr) && i < j < |instr|
    requires instr[i].ph == Begin && IsEndOf(instr[j], instr[i])
    ensures instr[i].ts <= EndTime(instr, zpl, j, i)
  {
    EndTimeGrows(instr, zpl, j, 0, i);
    assert EventsInOrder(instr, instr[i].tid);
  }

  /** In a trace whose begins and ends are in time order on every thread nothing is marked. */
  lemma NothingMarked(instr: seq<Event>, zpl: seq<Event>)
    requires AllEventsInOrder(instr)
    ensures FixAll(instr, zpl).remove == []
  {
    hide AllEventsInOrder, EndTime;
    forall i: nat, j: nat
      ensures !Marks(instr, zpl, i, j)
    {
      if i < j < |instr| && instr[i].ph == Begin && FirstEnd(instr, instr[i], i + 1) == j {
        NotEarly(instr, zpl, i, j);
      }
    }
    NothingMarkedIff(instr, zpl);
  }

  /** Four events, the first two sharing the early end behind them: the fourth is lost,
      whatever it is. */
  lemma UnrelatedEventLost(name: string, other: Event)
    ensures var b := Event(name, 1, 0, Begin, 3.0);
            var f := FixAll([b, b, b.(ph := End, ts := 1.0), other], []);
            f.remove == [2, 0, 2, 1] && Pop(f.trace, SortedDown(f.remove)) == Some([])
  {
    var b := Event(name, 1, 0, Begin, 3.0);
    var t := [b, b, b.(ph := End, ts := 1.0), other];
    assert FirstEnd(t, b, 2) == 2 && FirstEnd(t, b, 1) == 2;
    var f0 := FixUpTo(t, [], 0);
    var f1 := FixUpTo(t, [], 1);
    assert f1 == Fixed(t, [2, 0]);
    var f2 := FixUpTo(t, [], 2);
    assert f2 == Fixed(t, [2, 0, 2, 1]);
    assert FixUpTo(t, [], 3) == f2;
    assert FirstEnd(t, other, 4) == -1;
    assert FixUpTo(t, [], 4) == f2;
    SortFour();
    PopFour(t);
  }

  lemma SortFour()
    ensures SortedDown([2, 0, 2, 1]) == [2, 2, 1, 0]
  {
    var none: seq<nat>, one: seq<nat>, c: seq<nat>, b: seq<nat> := [], [1], [2, 1], [0, 2, 1];
    var a: seq<nat>, zero: nat := [2, 0, 2, 1], 0;
    assert a[1..] == b && b[1..] == c && c[1..] == one && one[1..] == none;
    assert SortedDown(none) == none && SortedDown(one) == one && SortedDown(c) == c;
    assert Sorting.Insert(Downwards, zero, one) == one + Sorting.Insert(Downwards, zero, none);
    assert Sorting.Insert(Downwards, zero, c) == [2] + Sorting.Insert(Downwards, zero, one);
    assert SortedDown(b) == [2, 1, 0];
  }

  lemma PopFour(t: seq<Event>)
    requires |t| == 4
    ensures Pop(t, [2, 2, 1, 0]) == Some([])
  {
    var t1, t2, t3 := t[..2] + t[3..], t[..2], t[..1];
    assert t1[..2] + t1[3..] == t2 && t2[..1] + t2[2..] == t3;
    assert [2, 2, 1, 0][1..] == [2, 1, 0] && [2, 1, 0][1..] == [1, 0];
    assert Pop(t3, [0]).value == [];
    assert [1, 0][1..] == [0];
  }

  // ---------------------------------------------------------------- the method

  method FixTimestamps(events: seq<Event>, zplTrace: seq<Event>) returns (r: Option<seq<Event>>)
    ensures r == Pop(FixAll(events, zplTrace).trace, SortedDown(FixAll(events, zplTrace).remove))
  {
    var instrTrace := events;
    var toRemove: seq<nat> := [];
    for instrId := 0 to |events|
      invariant |instrTrace| == |events|
      invariant Fixed(instrTrace, toRemove) == FixUpTo(events, zplTrace, instrId)
    {
      var instrBegEv := instrTrace[instrId];
      if instrBegEv.ph != Begin {
        continue;
      }
      var instrEndId := FirstEnd(instrTrace, instrBegEv, instrId + 1);
      if instrEndId == -1 {
        continue;
      }
      if instrTrace[instrEndId].ts < instrBegEv.ts {
        toRemove := toRemove + [instrEndId, instrId];
        continue;
      }
      var end := ExtendEnd(zplTrace, instrBegEv, instrTrace[instrEndId].ts);
      instrTrace := instrTrace[instrEndId := instrTrace[instrEndId].(ts := end)];
    }
    r := PopDown(instrTrace, SortedDown(toRemove));
  }

  /** The loop over the Zephelin events inside one instrumentation event. */
  method ExtendEnd(zplTrace: seq<Event>, instrBegEv: Event, instrEnd: real) returns (end: real)
    ensures end == Extend(zplTrace, instrBegEv, instrEnd, instrBegEv.ts)
  {
    end := instrEnd;
    var ts := instrBegEv.ts;
    while true
      invariant end == instrEnd
      invariant Extend(zplTrace, instrBegEv, instrEnd, ts) == Extend(zplTrace, instrBegEv, instrEnd, instrBegEv.ts)
      decreases Later(zplTrace, ts)
    {
      var zplBeg := FirstChild(zplTrace, instrBegEv, ts, end, 0);
      if zplBeg == -1 {
        break;
      }
      var zplEnd := FirstLaterEnd(zplTrace, zplTrace[zplBeg], 0);
      if zplEnd == -1 {
        break;
      }
      if zplTrace[zplEnd].ts > end {
        end := zplTrace[zplEnd].ts;
        break;
      }
      LaterLess(zplTrace, ts, zplTrace[zplEnd].ts, zplEnd);
      ts := zplTrace[zplEnd].ts;
    }
  }

  method PopDown(events: seq<Event>, positions: seq<nat>) returns (r: Option<seq<Event>>)
    ensures r == Pop(events, positions)
  {
    var trace := events;
    for k := 0 to |positions|
      invariant Pop(trace, positions[k..]) == Pop(events, positions)
    {
      var i := positions[k];
      assert positions[k..][0] == i && positions[k..][1..] == positions[k + 1..];
      if i >= |trace| {
        return None;
      }
      trace := trace[..i] + trace[i + 1..];
    }
    r := Some(trace);
  }

  /** Main result. In a trace whose begins and ends are in time order on every thread the method
      never fails: it only moves ends to later times. */
  lemma OrderedTraceIsOnlyStretched(instr: seq<Event>, zpl: seq<Event>)
    requires AllEventsInOrder(instr)
    ensures var f := FixAll(instr, zpl);
            Pop(f.trace, SortedDown(f.remove)) == Some(f.trace) && Grown(instr, f.trace)
  {
    NothingMarked(instr, zpl);
    FixGrows(instr, zpl, 0, |instr|);
  }
}
