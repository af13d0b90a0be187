/** The renumbering of a whole trace: finished inferences, and the model events inside them,
    get the number of their model. */
module InferenceNumbers {
  import opened Sequences
  import opened Options
  import opened ModelNumbers
  import opened TraceEvents

  datatype Kind = InferenceEvent | ModelEvent | OtherEvent

  /** `num`: the model number in the event's name (and, for inferences, in its arguments);
      `prefix`: the argument that an inference exit carries. */
  datatype TefEvent = TefEvent(kind: Kind, ph: Phase, tid: int, ts: real, num: Option<int>, prefix: Option<string>)

  /** A finished inference: the positions of its begin and its end. */
  datatype Run = Run(start: nat, exit: nat)

  /** Threads with an open inference, and the inferences finished so far. */
  datatype Scan = Scan(starts: map<int, nat>, runs: seq<Run>)

  function ScanNext(s: Scan, e: TefEvent, i: nat): Scan {
    if e.kind != InferenceEvent || e.ph == Metadata then s
    else if e.ph == Begin then s.(starts := s.starts[e.tid := i])
    else if e.tid !in s.starts then s
    else if e.prefix == None then s.(starts := s.starts - {e.tid})
    else Scan(s.starts - {e.tid}, s.runs + [Run(s.starts[e.tid], i)])
  }

  function ScanTo(trace: seq<TefEvent>, n: nat): Scan
    requires n <= |trace|
  {
    if n == 0 then Scan(map[], []) else ScanNext(ScanTo(trace, n - 1), trace[n - 1], n - 1)
  }

  function Runs(trace: seq<TefEvent>): seq<Run> {
    ScanTo(trace, |trace|).runs
  }

  ghost predicate RunValid(trace: seq<TefEvent>, r: Run) {
    && r.start < r.exit < |trace|
    && trace[r.start].kind == InferenceEvent && trace[r.start].ph == Begin
    && trace[r.exit].kind == InferenceEvent && trace[r.exit].ph == End && trace[r.exit].prefix.Some?
    && trace[r.start].tid == trace[r.exit].tid
  }

  function Tid(trace: seq<TefEvent>, r: Run): int {
    if r.exit < |trace| then trace[r.exit].tid else 0
  }

  /** `q` comes after `r`; on the same thread it also begins after `r` has ended. */
  ghost predicate Follows(trace: seq<TefEvent>, r: Run, q: Run) {
    r.exit < q.exit && (Tid(trace, r) == Tid(trace, q) ==> r.exit < q.start)
  }

  ghost predicate Successive(trace: seq<TefEvent>, runs: seq<Run>) {
    && (forall k :: 0 <= k < |runs| ==> RunValid(trace, runs[k]))
    && (forall j, k :: 0 <= j < k < |runs| ==> Follows(trace, runs[j], runs[k]))
  }

  /** An open inference of thread `t` began at `i`, after all finished ones of the thread. */
  ghost predicate OpenAt(trace: seq<TefEvent>, runs: seq<Run>, t: int, i: nat) {
    && i < |trace| && trace[i].tid == t && trace[i].ph == Begin && trace[i].kind == InferenceEvent
    && forall k :: 0 <= k < |runs| && Tid(trace, runs[k]) == t ==> runs[k].exit < i
  }

  ghost predicate ScanValid(trace: seq<TefEvent>, s: Scan, n: nat) {
    && Successive(trace, s.runs)
    && (forall k :: 0 <= k < |s.runs| ==> s.runs[k].exit < n)
    && (forall t :: t in s.starts ==> s.starts[t] < n && OpenAt(trace, s.runs, t, s.starts[t]))
  }

  lemma FinishValid(trace: seq<TefEvent>, s: Scan, i: nat)
    requires i < |trace| && ScanValid(trace, s, i)
    requires var e := trace[i]; e.kind == InferenceEvent && e.ph == End && e.tid in s.starts && e.prefix.Some?
    ensures ScanValid(trace, ScanNext(s, trace[i], i), i + 1)
  {
    var t := trace[i].tid;
    var r := Run(s.starts[t], i);
    assert OpenAt(trace, s.runs, t, r.start);
    assert RunValid(trace, r);
    assert forall k :: 0 <= k < |s.runs| ==> Follows(trace, s.runs[k], r);
    forall u | u in s.starts - {t}
      ensures OpenAt(trace, s.runs + [r], u, s.starts[u])
    {
      assert OpenAt(trace, s.runs, u, s.starts[u]);
    }
  }

  lemma {:induction false} ScanIsValid(trace: seq<TefEvent>, n: nat)
    requires n <= |trace|
    ensures ScanValid(trace, ScanTo(trace, n), n)
    decreases n
  {
    if n > 0 {
      ScanIsValid(trace, n - 1);
      var s, e := ScanTo(trace, n - 1), trace[n - 1];
      hide Successive;
      if e.kind == InferenceEvent && e.ph == End && e.tid in s.starts && e.prefix.Some? {
        FinishValid(trace, s, n - 1);
      }
    }
  }

  /** A begin or an end of an inference of a thread. */
  predicate InferenceOn(e: TefEvent, tid: int) {
    e.kind == InferenceEvent && e.ph != Metadata && e.tid == tid
  }

  /** No inference begins or ends on the thread between two positions. */
  ghost predicate NoneBetween(trace: seq<TefEvent>, tid: int, i: nat, n: nat) {
    forall k :: i < k < n && k < |trace| ==> !InferenceOn(trace[k], tid)
  }

  /** The begin at `i` and the end at `j` make up a finished inference. */
  ghost predicate Finishes(trace: seq<TefEvent>, i: nat, j: nat) {
    && i < j < |trace| && trace[i].tid == trace[j].tid
    && InferenceOn(trace[i], trace[j].tid) && trace[i].ph == Begin
    && InferenceOn(trace[j], trace[j].tid) && trace[j].ph == End && trace[j].prefix.Some?
    && NoneBetween(trace, trace[j].tid, i, j)
  }

  /** The inference that began on the thread at `i` is open before event `n`. */
  ghost predicate Opened(trace: seq<TefEvent>, tid: int, i: nat, n: nat) {
    && i < n && i < |trace| && InferenceOn(trace[i], tid) && trace[i].ph == Begin
    && NoneBetween(trace, tid, i, n)
  }

  lemma OpenedNext(trace: seq<TefEvent>, tid: int, i: nat, n: nat)
    requires n < |trace|
    ensures Opened(trace, tid, i, n + 1) <==>
              if InferenceOn(trace[n], tid) then i == n && trace[n].ph == Begin else Opened(trace, tid, i, n)
  {
  }

  /** The open inferences are what the dictionary of starts says. */
  lemma {:induction false} StartsIff(trace: seq<TefEvent>, n: nat, tid: int, i: nat)
    requires n <= |trace|
    ensures tid in ScanTo(trace, n).starts && ScanTo(trace, n).starts[tid] == i <==> Opened(trace, tid, i, n)
    decreases n
  {
    hide Opened;
    if n > 0 {
      StartsIff(trace, n - 1, tid, i);
      OpenedNext(trace, tid, i, n - 1);
    } else {
      NothingOpened(trace, tid, i);
    }
  }

  lemma NothingOpened(trace: seq<TefEvent>, tid: int, i: nat)
    ensures !Opened(trace, tid, i, 0)
  {
  }

  lemma FinishesIff(trace: seq<TefEvent>, i: nat, j: nat)
    requires j < |trace|
    ensures Finishes(trace, i, j) <==>
            && InferenceOn(trace[j], trace[j].tid) && trace[j].ph == End && trace[j].prefix.Some?
            && Opened(trace, trace[j].tid, i, j)
  {
  }

  lemma {:induction false} RunsToIff(trace: seq<TefEvent>, n: nat, i: nat, j: nat)
    requires n <= |trace|
    ensures Run(i, j) in ScanTo(trace, n).runs <==> j < n && Finishes(trace, i, j)
    decreases n
  {
    hide Opened, Finishes;
    if n > 0 {
      RunsToIff(trace, n - 1, i, j);
      StartsIff(trace, n - 1, trace[n - 1].tid, i);
      FinishesIff(trace, i, n - 1);
    }
  }

  /** Main result. Exactly those inferences are finished whose begin and end have no begin or end
      of an inference of the thread between them and whose end carries a prefix. */
  lemma RunsIff(trace: seq<TefEvent>, i: nat, j: nat)
    ensures Run(i, j) in Runs(trace) <==> Finishes(trace, i, j)
  {
    hide Finishes;
    RunsToIff(trace, |trace|, i, j);
    FinishesInside(trace, i, j);
  }

  lemma FinishesInside(trace: seq<TefEvent>, i: nat, j: nat)
    ensures Finishes(trace, i, j) ==> j < |trace|
  {
  }

  /** How far behind an exit events still belong to the inference: up to the first event of
      the thread with a later timestamp (up to, but without, the last event if there is none). */
  function EndPosition(trace: seq<TefEvent>, i: nat, x: nat): (r: nat)
    requires i < x < |trace|
    ensures x <= r < |trace|
    ensures forall y :: x <= y < r ==> !IsBeyond(trace[y], trace[i])
    ensures IsBeyond(trace[r], trace[i]) || r == |trace| - 1
    decreases |trace| - x
  {
    if IsBeyond(trace[x], trace[i]) || x == |trace| - 1 then x else EndPosition(trace, i, x + 1)
  }

  predicate IsBeyond(e: TefEvent, exit: TefEvent) {
    e.tid == exit.tid && e.ts > exit.ts
  }

  /** The events of the thread behind `i`, up to `x`, are not later than the one at `i`. */
  predicate NotBeyond(trace: seq<TefEvent>, i: nat, x: nat)
    requires i < x < |trace|
  {
    forall y :: i < y <= x && trace[y].tid == trace[i].tid ==> trace[y].ts <= trace[i].ts
  }

  /** The end of the range of events that are looked at for an exit at `i`. */
  function RangeEnd(trace: seq<TefEvent>, i: nat): (r: nat)
    requires i < |trace|
    ensures i < r <= |trace|
  {
    if i + 1 == |trace| then |trace| else EndPosition(trace, i, i + 1)
  }

  /** Main result. Behind an exit the range holds exactly the events up to which no event of the
      thread has a later time, whatever their order, but never the last event of the trace. */
  lemma RangeEndIff(trace: seq<TefEvent>, i: nat, x: nat)
    requires i < x < |trace|
    ensures x < RangeEnd(trace, i) <==> x < |trace| - 1 && NotBeyond(trace, i, x)
  {
    var r := RangeEnd(trace, i);
    assert x < r ==> forall y :: i < y <= x ==> !IsBeyond(trace[y], trace[i]);
  }

  /** The events after one finished inference was given a number. */
  function Updated(e: TefEvent, x: nat, r: Run, tid: int, num: int, end: nat): TefEvent {
    if x == r.exit then e.(num := Some(num), prefix := None)
    else if x == r.start then e.(num := Some(num))
    else if r.start < x < end && e.kind == ModelEvent && e.tid == tid then e.(num := Some(num))
    else e
  }

  function Apply(t: seq<TefEvent>, r: Run, tid: int, num: int, end: nat): (u: seq<TefEvent>)
    ensures |u| == |t| && forall x :: 0 <= x < |t| ==> u[x] == Updated(t[x], x, r, tid, num, end)
  {
    seq(|t|, x requires 0 <= x < |t| => Updated(t[x], x, r, tid, num, end))
  }

  /** The prefixes shown by the finished inferences, in order. */
  function Shown(trace: seq<TefEvent>, runs: seq<Run>): (ps: seq<string>)
    ensures |ps| == |runs|
  {
    seq(|runs|, k requires 0 <= k < |runs| => ShownBy(trace, runs[k]))
  }

  function ShownBy(trace: seq<TefEvent>, r: Run): string {
    if r.exit < |trace| && trace[r.exit].prefix.Some? then trace[r.exit].prefix.value else []
  }

  function ApplyRuns(trace: seq<TefEvent>, runs: seq<Run>, first: int): (u: seq<TefEvent>)
    ensures |u| == |trace|
  {
    if runs == [] || Last(runs).exit >= |trace| then trace
    else
      var r := Last(runs);
      Apply(ApplyRuns(trace, Init(runs), first), r, trace[r.exit].tid,
            Number(Shown(trace, runs), |runs| - 1, first), RangeEnd(trace, r.exit))
  }

  // -------------------------------------------------------------- the outcome

  /** `r` and the model events inside it carry the number `num`. */
  ghost predicate Numbered(u: seq<TefEvent>, trace: seq<TefEvent>, r: Run, num: int)
  {
    && |u| == |trace| && RunValid(trace, r)
    && u[r.start] == trace[r.start].(num := Some(num))
    && u[r.exit] == trace[r.exit].(num := Some(num), prefix := None)
    && forall x :: r.start < x < r.exit && trace[x].kind == ModelEvent && trace[x].tid == trace[r.exit].tid ==>
         u[x] == trace[x].(num := Some(num))
  }

  /** Only numbers, and the prefixes of inference ends, ever change. */
  ghost predicate SameButNumbers(u: seq<TefEvent>, trace: seq<TefEvent>) {
    |u| == |trace| && forall x :: 0 <= x < |u| ==>
      u[x] == trace[x].(num := u[x].num, prefix := u[x].prefix)
      && (!(trace[x].kind == InferenceEvent && trace[x].ph == End) ==> u[x].prefix == trace[x].prefix)
  }

  lemma {:induction false} ApplySame(trace: seq<TefEvent>, runs: seq<Run>, first: int)
    requires forall k :: 0 <= k < |runs| ==> RunValid(trace, runs[k])
    ensures SameButNumbers(ApplyRuns(trace, runs, first), trace)
    decreases |runs|
  {
    if runs != [] {
      ApplySame(trace, Init(runs), first);
      assert RunValid(trace, Last(runs));
    }
  }

  /** `x` is the begin or the end of the inference, or a model event in its range. */
  predicate Concerns(trace: seq<TefEvent>, r: Run, x: nat)
    requires r.exit < |trace| && x < |trace|
  {
    || x == r.start || x == r.exit
    || (r.start < x < RangeEnd(trace, r.exit) && trace[x].kind == ModelEvent && trace[x].tid == trace[r.exit].tid)
  }

  /** Events that no finished inference concerns stay as they are. */
  lemma {:induction false} OthersUntouched(trace: seq<TefEvent>, runs: seq<Run>, first: int, x: nat)
    requires x < |trace| && forall k :: 0 <= k < |runs| ==> runs[k].exit < |trace| && !Concerns(trace, runs[k], x)
    ensures ApplyRuns(trace, runs, first)[x] == trace[x]
    decreases |runs|
  {
    hide RangeEnd, Number, Shown;
    if runs != [] {
      forall k | 0 <= k < |runs| - 1
        ensures Init(runs)[k].exit < |trace| && !Concerns(trace, Init(runs)[k], x)
      {
        assert Init(runs)[k] == runs[k];
      }
      OthersUntouched(trace, Init(runs), first, x);
      assert !Concerns(trace, Last(runs), x);
    }
  }

  /** Main result. An event changes only if it begins or ends an inference, or is a model event
      behind the begin of an inference of its thread, and before its end or not behind any later
      event of the thread. */
  lemma {:induction false} ChangedOnlyIf(trace: seq<TefEvent>, runs: seq<Run>, first: int, x: nat)
    requires x < |trace| && forall k :: 0 <= k < |runs| ==> RunValid(trace, runs[k])
    requires ApplyRuns(trace, runs, first)[x] != trace[x]
    ensures trace[x].kind != OtherEvent
    ensures trace[x].kind == InferenceEvent ==> exists k :: 0 <= k < |runs| && (x == runs[k].start || x == runs[k].exit)
    ensures trace[x].kind == ModelEvent ==> exists k ::
              0 <= k < |runs| && trace[x].tid == Tid(trace, runs[k]) && runs[k].start < x &&
              (x < runs[k].exit || (runs[k].exit < x < |trace| - 1 && NotBeyond(trace, runs[k].exit, x)))
  {
    if forall k :: 0 <= k < |runs| ==> runs[k].exit < |trace| && !Concerns(trace, runs[k], x) {
      OthersUntouched(trace, runs, first, x);
    } else {
      var k :| 0 <= k < |runs| && !(runs[k].exit < |trace| && !Concerns(trace, runs[k], x));
      assert RunValid(trace, runs[k]);
      if runs[k].exit < x {
        RangeEndIff(trace, runs[k].exit, x);
      }
    }
  }

  /** A later inference leaves an earlier one, and the model events inside it, alone. */
  lemma LaterLeavesAlone(t: seq<TefEvent>, trace: seq<TefEvent>, r: Run, num: int, later: Run, num': int, end: nat)
    requires SameButNumbers(t, trace) && RunValid(trace, r) && RunValid(trace, later)
    requires Follows(trace, r, later)
    requires Numbered(t, trace, r, num)
    ensures Numbered(Apply(t, later, trace[later.exit].tid, num', end), trace, r, num)
  {
    var u := Apply(t, later, trace[later.exit].tid, num', end);
    assert u[r.start] == Updated(t[r.start], r.start, later, trace[later.exit].tid, num', end);
    assert u[r.exit] == Updated(t[r.exit], r.exit, later, trace[later.exit].tid, num', end);
    assert r.start != later.exit && r.start != later.start;
  }

  /** No earlier inference has touched the events of the last one in a way that matters. */
  lemma LastNumbered(t: seq<TefEvent>, trace: seq<TefEvent>, r: Run, num: int, end: nat)
    requires SameButNumbers(t, trace) && RunValid(trace, r) && r.exit < end
    requires t[r.start].prefix == trace[r.start].prefix
    ensures Numbered(Apply(t, r, trace[r.exit].tid, num, end), trace, r, num)
  {
  }

  /** Prefix arguments are only taken from the exits. */
  lemma {:induction false} PrefixKept(trace: seq<TefEvent>, runs: seq<Run>, first: int, x: nat)
    requires x < |trace| && forall k :: 0 <= k < |runs| ==> runs[k].exit != x
    ensures ApplyRuns(trace, runs, first)[x].prefix == trace[x].prefix
    decreases |runs|
  {
    if runs != [] {
      PrefixKept(trace, Init(runs), first, x);
      assert Last(runs).exit != x;
    }
  }

  lemma SuccessiveInit(trace: seq<TefEvent>, runs: seq<Run>)
    requires Successive(trace, runs) && runs != []
    ensures Successive(trace, Init(runs)) && RunValid(trace, Last(runs)) && Last(runs).exit < |trace|
    ensures forall k :: 0 <= k < |runs| - 1 ==> RunValid(trace, runs[k]) && Follows(trace, runs[k], Last(runs))
  {
  }

  lemma {:induction false} AllNumbered(trace: seq<TefEvent>, runs: seq<Run>, first: int)
    requires Successive(trace, runs)
    ensures forall k :: 0 <= k < |runs| ==>
              Numbered(ApplyRuns(trace, runs, first), trace, runs[k], Number(Shown(trace, runs), k, first))
    decreases |runs|
  {
    hide Number, Shown, Numbered, Successive, Follows, SameButNumbers, Apply, RangeEnd, RunValid;
    if runs != [] {
      var before, r := Init(runs), Last(runs);
      SuccessiveInit(trace, runs);
      AllNumbered(trace, before, first);
      ApplySame(trace, before, first);
      var t, num := ApplyRuns(trace, before, first), Number(Shown(trace, runs), |runs| - 1, first);
      LastRunNumbered(trace, before, r, num, first);
      forall k | 0 <= k < |before|
        ensures Numbered(ApplyRuns(trace, runs, first), trace, runs[k], Number(Shown(trace, runs), k, first))
      {
        SameNumber(trace, runs, k, first);
        assert before[k] == runs[k];
        LaterLeavesAlone(t, trace, runs[k], Number(Shown(trace, before), k, first), r, num, RangeEnd(trace, r.exit));
      }
    }
  }

  lemma {:induction false} LastRunNumbered(trace: seq<TefEvent>, before: seq<Run>, r: Run, num: int, first: int)
    requires Successive(trace, before) && RunValid(trace, r)
    ensures var u := Apply(ApplyRuns(trace, before, first), r, trace[r.exit].tid, num, RangeEnd(trace, r.exit));
            Numbered(u, trace, r, num)
  {
    ApplySame(trace, before, first);
    PrefixKept(trace, before, first, r.start);
    LastNumbered(ApplyRuns(trace, before, first), trace, r, num, RangeEnd(trace, r.exit));
  }

  /** Main result. A model event in the range of an inference, behind its end or not, carries the
      number of the last inference in whose range it lies. */
  lemma {:induction false} LastRangeNumbers(trace: seq<TefEvent>, runs: seq<Run>, first: int, k: nat, x: nat)
    requires k < |runs| && x < |trace| && trace[x].kind == ModelEvent
    requires forall l :: 0 <= l < |runs| ==> RunValid(trace, runs[l])
    requires runs[k].exit < |trace| && Concerns(trace, runs[k], x)
    requires forall l :: k < l < |runs| ==> runs[l].exit < |trace| && !Concerns(trace, runs[l], x)
    ensures ApplyRuns(trace, runs, first)[x] == trace[x].(num := Some(Number(Shown(trace, runs), k, first)))
    decreases |runs|
  {
    hide Number, RangeEnd, Shown;
    var before, r := Init(runs), Last(runs);
    assert RunValid(trace, r);
    ApplySame(trace, before, first);
    PrefixKept(trace, before, first, x) by {
      forall l | 0 <= l < |before|
        ensures before[l].exit != x
      {
        assert RunValid(trace, runs[l]);
      }
    }
    if k < |before| {
      forall l | k < l < |before|
        ensures before[l].exit < |trace| && !Concerns(trace, before[l], x)
      {
        assert before[l] == runs[l];
      }
      LastRangeNumbers(trace, before, first, k, x);
      SameNumber(trace, runs, k, first);
      assert !Concerns(trace, r, x);
    }
  }

  lemma SameNumber(trace: seq<TefEvent>, runs: seq<Run>, k: nat, first: int)
    requires runs != [] && k < |runs| - 1
    ensures Number(Shown(trace, runs), k, first) == Number(Shown(trace, Init(runs)), k, first)
  {
    var a, b := Shown(trace, runs), Shown(trace, Init(runs));
    assert a[..k] == b[..k] && a[..k + 1] == b[..k + 1];
  }

  /** Main result. If the finished inferences of a trace ran `models`, showing prefixes as
      observed, then in the renumbered trace each of them (begin, end, and the model events in
      between) carries a number, and two carry the same one exactly when they ran the same
      model. */
  lemma SameNumberInTrace(trace: seq<TefEvent>, models: seq<int>, full: map<int, string>, first: int, j: nat, k: nat)
    requires PrefixFree(full) && Observed(Shown(trace, Runs(trace)), models, full)
    requires j < |Runs(trace)| && k < |Runs(trace)|
    ensures |models| == |Runs(trace)|
    ensures var runs := Runs(trace);
            var u := ApplyRuns(trace, runs, first);
            var a, b := Number(Shown(trace, runs), j, first), Number(Shown(trace, runs), k, first);
            && Numbered(u, trace, runs[j], a) && Numbered(u, trace, runs[k], b)
            && (a == b <==> models[j] == models[k])
  {
    ScanIsValid(trace, |trace|);
    SameLength(Shown(trace, Runs(trace)), models, full);
    AllNumbered(trace, Runs(trace), first);
    SameNumberIff(Shown(trace, Runs(trace)), models, full, first);
  }

  // ---------------------------------------------------------------- the method

  /** Given a number to a finished inference: its model events first, then its exit and begin. */
  method UpdateEvents(t: seq<TefEvent>, r: Run, tid: int, num: int, end: nat) returns (u: seq<TefEvent>)
    requires r.start < r.exit < |t| && end <= |t|
    requires t[r.start].kind == t[r.exit].kind == InferenceEvent
    ensures u == Apply(t, r, tid, num, end)
  {
    u := t;
    var x := r.start + 1;
    while x < end
      invariant r.start < x && |u| == |t|
      invariant forall y :: 0 <= y < |t| ==>
        u[y] == if r.start < y < x && y < end && t[y].kind == ModelEvent && t[y].tid == tid
                then t[y].(num := Some(num)) else t[y]
      decreases end - x
    {
      if u[x].kind == ModelEvent && u[x].tid == tid {
        u := u[x := u[x].(num := Some(num))];
      }
      x := x + 1;
    }
    u := u[r.exit := u[r.exit].(num := Some(num))];
    u := u[r.start := u[r.start].(num := Some(num))];
    u := u[r.exit := u[r.exit].(prefix := None)];
  }

  /** `for end_margin, e in enumerate(tef_trace[i + 1 :])`: leaves the last value of the loop
      variable, or an old one (or none) when there is nothing to loop over. */
  method FindEndMargin(t: seq<TefEvent>, i: nat, previous: Option<nat>) returns (endMargin: Option<nat>)
    requires i < |t|
    ensures i + 1 == |t| ==> endMargin == previous
    ensures i + 1 < |t| ==> endMargin.Some? && i + endMargin.value + 1 == RangeEnd(t, i)
  {
    endMargin := previous;
    var x := i + 1;
    while x < |t|
      invariant i < x <= |t|
      invariant x == i + 1 ==> endMargin == previous
      invariant x > i + 1 ==> endMargin == Some(x - 1 - (i + 1))
      invariant i + 1 < |t| && x < |t| ==> EndPosition(t, i, i + 1) == EndPosition(t, i, x)
      invariant x == |t| && i + 1 < |t| ==> EndPosition(t, i, i + 1) == |t| - 1
    {
      var e := t[x];
      endMargin := Some(x - (i + 1));
      if e.tid == t[i].tid && e.ts > t[i].ts {
        break;
      }
      x := x + 1;
    }
  }

  /** Only thread, kind and time of events matter for ranges, and these never change. */
  lemma {:induction false} SameRange(u: seq<TefEvent>, trace: seq<TefEvent>, i: nat, x: nat)
    requires SameButNumbers(u, trace) && i < x < |trace|
    ensures EndPosition(u, i, x) == EndPosition(trace, i, x)
    decreases |trace| - x
  {
    if !IsBeyond(trace[x], trace[i]) && x < |trace| - 1 {
      SameRange(u, trace, i, x + 1);
    }
  }

  /** Threads with an inference that has begun; an ended one is kept with the value None. */
  ghost predicate Started(starts: map<int, Option<nat>>, s: Scan) {
    forall t ::
      && (t in starts && starts[t].Some? <==> t in s.starts)
      && (t in s.starts ==> starts[t] == Some(s.starts[t]))
  }

  lemma StartedNext(starts: map<int, Option<nat>>, s: Scan, e: TefEvent, i: nat)
    requires Started(starts, s)
    ensures var n := ScanNext(s, e, i);
            && (e.kind != InferenceEvent || e.ph == Metadata ==> n == s)
            && (e.kind == InferenceEvent && e.ph == Begin ==> Started(starts[e.tid := Some(i)], n) && n.runs == s.runs)
            && (e.kind == InferenceEvent && e.ph == End && e.tid !in s.starts ==> n == s)
            && (e.kind == InferenceEvent && e.ph == End && e.tid in s.starts ==>
                  Started(starts[e.tid := None], n) && (e.prefix == None ==> n.runs == s.runs))
    ensures e.tid in starts && starts[e.tid].Some? <==> e.tid in s.starts
    ensures e.tid in s.starts ==> starts[e.tid] == Some(s.starts[e.tid])
  {
  }

  lemma FinishedRun(trace: seq<TefEvent>, i: nat, first: int)
    requires i < |trace|
    requires var e := trace[i];
             e.kind == InferenceEvent && e.ph == End && e.prefix.Some? && e.tid in ScanTo(trace, i).starts
    ensures var s := ScanTo(trace, i); var r := Run(s.starts[trace[i].tid], i);
            var ps, ps' := Shown(trace, s.runs), Shown(trace, s.runs + [r]);
            && RunValid(trace, r)
            && ScanTo(trace, i + 1).runs == s.runs + [r]
            && Table(ps') == Register(Table(ps), trace[i].prefix.value)
            && Number(ps', |s.runs|, first) == first + IndexOf(Table(ps'), Resolve(Table(ps), trace[i].prefix.value))
            && ApplyRuns(trace, s.runs + [r], first)
                 == Apply(ApplyRuns(trace, s.runs, first), r, trace[i].tid, Number(ps', |s.runs|, first),
                          RangeEnd(trace, i))
  {
    var s := ScanTo(trace, i);
    ScanIsValid(trace, i);
    var r := Run(s.starts[trace[i].tid], i);
    assert OpenAt(trace, s.runs, trace[i].tid, r.start);
    var ps, ps' := Shown(trace, s.runs), Shown(trace, s.runs + [r]);
    assert Init(s.runs + [r]) == s.runs;
    assert Init(ps') == ps == ps'[..|ps|];
    assert ps'[..|ps'|] == ps';
  }

  /** The event that the loop looks at has not been touched in the fields it looks at. */
  lemma {:induction false} Untouched(trace: seq<TefEvent>, i: nat, first: int)
    requires i < |trace|
    ensures var t := ApplyRuns(trace, ScanTo(trace, i).runs, first);
            && SameButNumbers(t, trace)
            && t[i].kind == trace[i].kind && t[i].ph == trace[i].ph
            && t[i].tid == trace[i].tid && t[i].prefix == trace[i].prefix
    ensures ScanTo(trace, i + 1) == ScanNext(ScanTo(trace, i), trace[i], i)
  {
    var s := ScanTo(trace, i);
    ScanIsValid(trace, i);
    ApplySame(trace, s.runs, first);
    PrefixKept(trace, s.runs, first, i);
  }

  /** Handles the end of an inference that began at `r.start`. */
  method FinishInference(t: seq<TefEvent>, ghost trace: seq<TefEvent>, r: Run, num: int, previous: Option<nat>)
      returns (u: seq<TefEvent>, endMargin: Option<nat>)
    requires SameButNumbers(t, trace) && RunValid(trace, r)
    ensures endMargin == None <==> previous == None && r.exit == |trace| - 1
    ensures endMargin.Some? ==> u == Apply(t, r, trace[r.exit].tid, num, RangeEnd(trace, r.exit))
  {
    var i := r.exit;
    u := t;
    endMargin := FindEndMargin(t, i, previous);
    if endMargin.Some? {
      if i + 1 < |t| {
        SameRange(t, trace, i, i + 1);
      }
      var end := if i + endMargin.value + 1 < |t| then i + endMargin.value + 1 else |t|;
      u := UpdateEvents(t, r, t[i].tid, num, end);
    }
  }

  lemma {:induction false} RunsGrow(trace: seq<TefEvent>, m: nat, n: nat)
    requires m <= n <= |trace|
    ensures ScanTo(trace, m).runs <= ScanTo(trace, n).runs
    decreases n
  {
    if m < n {
      RunsGrow(trace, m, n - 1);
    }
  }

  /** The variables of the main loop. */
  datatype Loop = Loop(
    trace: seq<TefEvent>,
    starts: map<int, Option<nat>>,
    keys: seq<string>,
    numbers: map<string, int>,
    endMargin: Option<nat>)

  /** What the loop knows before it looks at event `i` of the trace. */
  ghost predicate LoopState(trace: seq<TefEvent>, i: nat, first: int, l: Loop) {
    && i <= |trace|
    && Started(l.starts, ScanTo(trace, i))
    && l.trace == ApplyRuns(trace, ScanTo(trace, i).runs, first)
    && l.keys == Table(Shown(trace, ScanTo(trace, i).runs))
    && Dictionary(l.keys, l.numbers, first) && |l.keys| == |l.numbers|
    && (l.endMargin == None <==> ScanTo(trace, i).runs == [])
    && (ScanTo(trace, i).runs != [] ==> ScanTo(trace, i).runs[0].exit < |trace| - 1)
  }

  lemma LoopStart(trace: seq<TefEvent>, first: int)
    ensures LoopState(trace, 0, first, Loop(trace, map[], [], map[], None))
  {
  }

  lemma Looking(trace: seq<TefEvent>, i: nat, first: int, l: Loop)
    requires LoopState(trace, i, first, l) && i < |trace|
    ensures SameButNumbers(l.trace, trace) && |l.trace| == |trace|
    ensures var e := l.trace[i];
            e.kind == trace[i].kind && e.ph == trace[i].ph && e.tid == trace[i].tid && e.prefix == trace[i].prefix
    ensures Dictionary(l.keys, l.numbers, first) && |l.keys| == |l.numbers|
  {
    Untouched(trace, i, first);
  }

  /** An event that is no begin or end of an inference, or an end without a begin. */
  lemma LoopSkip(trace: seq<TefEvent>, i: nat, first: int, l: Loop)
    requires LoopState(trace, i, first, l) && i < |trace|
    requires var e := trace[i];
             || e.kind != InferenceEvent || e.ph == Metadata
             || (e.ph == End && (e.tid !in l.starts || l.starts[e.tid] == None))
    ensures LoopState(trace, i + 1, first, l)
  {
    Untouched(trace, i, first);
    StartedNext(l.starts, ScanTo(trace, i), trace[i], i);
  }

  lemma LoopBegin(trace: seq<TefEvent>, i: nat, first: int, l: Loop)
    requires LoopState(trace, i, first, l) && i < |trace|
    requires trace[i].kind == InferenceEvent && trace[i].ph == Begin
    ensures LoopState(trace, i + 1, first, l.(starts := l.starts[trace[i].tid := Some(i)]))
  {
    Untouched(trace, i, first);
    StartedNext(l.starts, ScanTo(trace, i), trace[i], i);
  }

  /** The end of an inference that has begun. */
  ghost predicate Ends(trace: seq<TefEvent>, i: nat, l: Loop)
    requires i < |trace|
  {
    var e := trace[i];
    e.kind == InferenceEvent && e.ph == End && e.tid in l.starts && l.starts[e.tid].Some?
  }

  /** ... without a prefix. */
  lemma LoopUnknown(trace: seq<TefEvent>, i: nat, first: int, l: Loop)
    requires LoopState(trace, i, first, l) && i < |trace|
    requires Ends(trace, i, l) && trace[i].prefix == None
    ensures LoopState(trace, i + 1, first, l.(starts := l.starts[trace[i].tid := None]))
  {
    Untouched(trace, i, first);
    StartedNext(l.starts, ScanTo(trace, i), trace[i], i);
  }

  lemma RunIsValid(trace: seq<TefEvent>, i: nat, first: int, l: Loop)
    requires LoopState(trace, i, first, l) && i < |trace|
    requires Ends(trace, i, l) && trace[i].prefix.Some?
    ensures RunValid(trace, Run(l.starts[trace[i].tid].value, i))
    ensures i == |trace| - 1 && l.endMargin == None ==> Runs(trace) != [] && Runs(trace)[0].exit == |trace| - 1
  {
    StartedNext(l.starts, ScanTo(trace, i), trace[i], i);
    FinishedRun(trace, i, first);
    RunsGrow(trace, i + 1, |trace|);
  }

  /** ... with a prefix: `n` holds the updated trace and dictionary. */
  lemma {:induction false} LoopFinish(trace: seq<TefEvent>, i: nat, first: int, l: Loop, n: Loop, num: int)
    requires LoopState(trace, i, first, l) && i < |trace|
    requires Ends(trace, i, l) && trace[i].prefix.Some?
    requires n.keys == Register(l.keys, trace[i].prefix.value)
    requires Dictionary(n.keys, n.numbers, first) && |n.keys| == |n.numbers|
    requires num == first + IndexOf(n.keys, Resolve(l.keys, trace[i].prefix.value))
    requires n.endMargin.Some? && (l.endMargin.Some? || i < |trace| - 1)
    requires n.trace == Apply(l.trace, Run(l.starts[trace[i].tid].value, i), trace[i].tid, num, RangeEnd(trace, i))
    requires n.starts == l.starts[trace[i].tid := None]
    ensures LoopState(trace, i + 1, first, n)
  {
    hide ApplyRuns, Table, Shown, Dictionary, SameButNumbers, RunValid, Apply, RangeEnd, Number, Register, Resolve;
    Untouched(trace, i, first);
    StartedNext(l.starts, ScanTo(trace, i), trace[i], i);
    FinishedRun(trace, i, first);
  }

  method TvmRecalculateModelNumbers(trace: seq<TefEvent>, first: int)
      returns (result: Option<(seq<TefEvent>, map<string, int>)>)
    ensures var runs := Runs(trace);
            && (result == None <==> runs != [] && runs[0].exit == |trace| - 1)
            && (result.Some? ==>
                  && result.value.0 == ApplyRuns(trace, runs, first)
                  && Dictionary(Table(Shown(trace, runs)), result.value.1, first))
  {
    hide ScanNext, Started, ApplyRuns, Table, Shown, Dictionary, SameButNumbers, RunValid, Apply, RangeEnd,
      Number, Register, Resolve;
    var t := trace;
    var starts: map<int, Option<nat>> := map[];
    var keys: seq<string>, numbers: map<string, int> := [], map[];
    var endMargin: Option<nat> := None;
    LoopStart(trace, first);
    for i := 0 to |trace|
      invariant LoopState(trace, i, first, Loop(t, starts, keys, numbers, endMargin))
    {
      hide LoopState;
      ghost var l := Loop(t, starts, keys, numbers, endMargin);
      Looking(trace, i, first, l);
      var event := t[i];
      if event.kind != InferenceEvent {
        LoopSkip(trace, i, first, l);
        continue;
      }
      var threadId := event.tid;
      if event.ph == Begin {
        LoopBegin(trace, i, first, l);
        starts := starts[threadId := Some(i)];
        continue;
      }
      if event.ph != End || threadId !in starts || starts[threadId] == None {
        LoopSkip(trace, i, first, l);
        continue;
      }
      if event.prefix == None {
        LoopUnknown(trace, i, first, l);
        starts := starts[threadId := None];
        continue;
      }
      RunIsValid(trace, i, first, l);
      var num: int;
      keys, numbers, num := LookUp(keys, numbers, event.prefix.value, first);
      t, endMargin := FinishInference(t, trace, Run(starts[threadId].value, i), num, endMargin);
      if endMargin == None {
        return None;
      }
      starts := starts[threadId := None];
      LoopFinish(trace, i, first, l, Loop(t, starts, keys, numbers, endMargin), num);
    }
    result := Some((t, numbers));
  }

  /** A single inference whose end is the last event: the model number cannot be filled in. */
  lemma EndOfTraceFails(prefix: string, first: int)
    ensures var trace := [TefEvent(InferenceEvent, Begin, 1, 0.0, None, None),
                          TefEvent(InferenceEvent, End, 1, 1.0, None, Some(prefix))];
            Runs(trace) == [Run(0, 1)] && Runs(trace)[0].exit == |trace| - 1
  {
    var trace := [TefEvent(InferenceEvent, Begin, 1, 0.0, None, None),
                  TefEvent(InferenceEvent, End, 1, 1.0, None, Some(prefix))];
    assert ScanTo(trace, 0) == Scan(map[], []);
    assert ScanTo(trace, 1) == Scan(map[1 := 0], []);
    assert ScanTo(trace, 2).runs == [Run(0, 1)];
  }
}
