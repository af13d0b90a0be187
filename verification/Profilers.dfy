/** The operator profilers of TFLite Micro and TVM: events are emitted at once, or buffered
    and emitted when the inference is over. `O` describes an operator, `S` what is measured
    at its boundaries (cycles; for TFLite Micro also the arena usage). */
module Profilers {
  import opened Sequences

  datatype Record<O, S> = Enter(op: O, at: S) | Exit(op: O, at: S)

  /** One entry of the buffers. */
  datatype Slot<O, S> = Slot(op: O, begin: S, end: S)

  datatype Profiler<O, S> = Profiler(num: nat, slots: seq<Slot<O, S>>, emitted: seq<Record<O, S>>)

  datatype Call<O, S> = Begin(op: O, at: S) | End(handle: nat, at: S) | Dump(enabled: bool)

  /** The handle of an event that did not fit: -1 as an unsigned number. */
  const REJECTED: nat := 0xFFFF_FFFF

  /** What a dump emits for the first `n` buffered events. */
  function DumpRecords<O, S>(slots: seq<Slot<O, S>>, n: nat): seq<Record<O, S>>
    requires n <= |slots|
  {
    if n == 0 then []
    else
      var s := slots[n - 1];
      DumpRecords(slots, n - 1) + [Enter(s.op, s.begin), Exit(s.op, s.end)]
  }

  function Next<O, S>(delayed: bool, p: Profiler<O, S>, c: Call<O, S>): (q: Profiler<O, S>)
    requires p.num <= |p.slots|
    ensures q.num <= |q.slots| == |p.slots|
  {
    match c
    case Begin(op, at) =>
      if p.num == |p.slots| then p
      else
        var s := p.slots[p.num].(op := op);
        if delayed then Profiler(p.num + 1, p.slots[p.num := s.(begin := at)], p.emitted)
        else Profiler(p.num + 1, p.slots[p.num := s], p.emitted + [Enter(op, at)])
    case End(h, at) =>
      if h >= |p.slots| then p
      else if delayed then p.(slots := p.slots[h := p.slots[h].(end := at)])
      else p.(emitted := p.emitted + [Exit(p.slots[h].op, at)])
    case Dump(enabled) =>
      if !enabled then p
      else if delayed then Profiler(0, p.slots, p.emitted + DumpRecords(p.slots, p.num))
      else p.(num := 0)
  }

  function Run<O, S>(delayed: bool, slots: seq<Slot<O, S>>, calls: seq<Call<O, S>>): (q: Profiler<O, S>)
    ensures q.num <= |q.slots| == |slots|
  {
    if calls == [] then Profiler(0, slots, []) else Next(delayed, Run(delayed, slots, Init(calls)), Last(calls))
  }

  // ------------------------------------------------------------ well-used profilers

  /** The accepted events since the last enabled dump: how many, and which have ended. */
  datatype Use = Use(num: nat, ended: set<nat>)

  function UseOf<O, S>(capacity: nat, calls: seq<Call<O, S>>): Use {
    if calls == [] then Use(0, {})
    else
      var u := UseOf(capacity, Init(calls));
      match Last(calls)
      case Begin(_, _) => if u.num == capacity then u else u.(num := u.num + 1)
      case End(h, _) => if h >= capacity then u else u.(ended := u.ended + {h})
      case Dump(enabled) => if enabled then Use(0, {}) else u
  }

  /** Every accepted handle is ended once, before the next enabled dump. */
  ghost predicate WellUsed<O, S>(capacity: nat, calls: seq<Call<O, S>>) {
    calls == [] ||
    var u := UseOf(capacity, Init(calls));
    && WellUsed(capacity, Init(calls))
    && match Last(calls)
       case Begin(_, _) => true
       case End(h, _) => h >= capacity || (h < u.num && h !in u.ended)
       case Dump(enabled) => enabled ==> forall h :: 0 <= h < u.num ==> h in u.ended
  }

  /** What immediate emission has emitted for the buffered events. */
  ghost function Pending<O, S>(slots: seq<Slot<O, S>>, n: nat, ended: set<nat>): multiset<Record<O, S>>
    requires n <= |slots|
  {
    if n == 0 then multiset{} else Pending(slots, n - 1, ended) + OfSlot(slots[n - 1], n - 1 in ended)
  }

  ghost function OfSlot<O, S>(s: Slot<O, S>, ended: bool): multiset<Record<O, S>> {
    if ended then multiset{Enter(s.op, s.begin), Exit(s.op, s.end)} else multiset{Enter(s.op, s.begin)}
  }

  lemma {:induction false} PendingSame<O, S>(a: seq<Slot<O, S>>, b: seq<Slot<O, S>>, n: nat, s: set<nat>, t: set<nat>)
    requires n <= |a| && n <= |b| && a[..n] == b[..n]
    requires forall h :: 0 <= h < n ==> (h in s <==> h in t)
    ensures Pending(a, n, s) == Pending(b, n, t)
    decreases n
  {
    if n > 0 {
      assert a[n - 1] == a[..n][n - 1] == b[n - 1];
      assert a[..n - 1] == a[..n][..n - 1] == b[..n - 1];
      PendingSame(a, b, n - 1, s, t);
    }
  }

  lemma SlotEnds<O, S>(rest: multiset<Record<O, S>>, s: Slot<O, S>, at: S)
    ensures rest + OfSlot(s.(end := at), true) == (rest + OfSlot(s, false)) + multiset{Exit(s.op, at)}
  {
  }

  lemma MoveToEnd<T>(a: multiset<T>, b: multiset<T>, c: multiset<T>)
    ensures (a + c) + b == (a + b) + c
  {
  }

  /** Ending a buffered event adds its exit. */
  lemma {:induction false} PendingEnd<O, S>(slots: seq<Slot<O, S>>, n: nat, ended: set<nat>, h: nat, at: S)
    requires h < n <= |slots| && h !in ended
    ensures Pending(slots[h := slots[h].(end := at)], n, ended + {h})
         == Pending(slots, n, ended) + multiset{Exit(slots[h].op, at)}
    decreases n
  {
    hide OfSlot;
    var after := slots[h := slots[h].(end := at)];
    if h == n - 1 {
      PendingSame(after, slots, n - 1, ended + {h}, ended);
      SlotEnds(Pending(slots, n - 1, ended), slots[h], at);
    } else {
      PendingEnd(slots, n - 1, ended, h, at);
      MoveToEnd(Pending(slots, n - 1, ended), OfSlot(slots[n - 1], n - 1 in ended), multiset{Exit(slots[h].op, at)});
    }
  }

  /** When all have ended, it is what a dump emits. */
  lemma {:induction false} PendingAll<O, S>(slots: seq<Slot<O, S>>, n: nat, ended: set<nat>)
    requires n <= |slots| && forall h :: 0 <= h < n ==> h in ended
    ensures Pending(slots, n, ended) == multiset(DumpRecords(slots, n))
    decreases n
  {
    if n > 0 {
      PendingAll(slots, n - 1, ended);
      var s := slots[n - 1];
      DumpOne(DumpRecords(slots, n - 1), s);
    }
  }

  lemma DumpOne<O, S>(before: seq<Record<O, S>>, s: Slot<O, S>)
    ensures multiset(before + [Enter(s.op, s.begin), Exit(s.op, s.end)]) == multiset(before) + OfSlot(s, true)
  {
  }

  function Ops<O, S>(slots: seq<Slot<O, S>>): seq<O> {
    seq(|slots|, k requires 0 <= k < |slots| => slots[k].op)
  }

  /** The two modes side by side. */
  ghost predicate SameMeaning<O, S>(i: Profiler<O, S>, d: Profiler<O, S>, u: Use) {
    && i.num == d.num == u.num <= |d.slots| == |i.slots|
    && Ops(i.slots) == Ops(d.slots)
    && (forall h :: h in u.ended ==> h < u.num)
    && multiset(i.emitted) == multiset(d.emitted) + Pending(d.slots, d.num, u.ended)
  }

  lemma {:induction false} ModesAgree<O, S>(slots: seq<Slot<O, S>>, calls: seq<Call<O, S>>)
    requires WellUsed(|slots|, calls)
    ensures SameMeaning(Run(false, slots, calls), Run(true, slots, calls), UseOf(|slots|, calls))
    decreases |calls|
  {
    if calls != [] {
      ModesAgree(slots, Init(calls));
      var i, d := Run(false, slots, Init(calls)), Run(true, slots, Init(calls));
      var u := UseOf(|slots|, Init(calls));
      match Last(calls) {
        case Begin(op, at) => BeginAgrees(i, d, u, op, at);
        case End(h, at) => EndAgrees(i, d, u, h, at);
        case Dump(enabled) => if enabled { PendingAll(d.slots, d.num, u.ended); }
      }
    }
  }

  lemma OpsUpdate<O, S>(slots: seq<Slot<O, S>>, n: nat, s: Slot<O, S>)
    requires n < |slots|
    ensures Ops(slots[n := s]) == Ops(slots)[n := s.op]
  {
  }

  lemma PendingBegin<O, S>(slots: seq<Slot<O, S>>, n: nat, ended: set<nat>, s: Slot<O, S>)
    requires n < |slots| && n !in ended
    ensures Pending(slots[n := s], n + 1, ended) == Pending(slots, n, ended) + multiset{Enter(s.op, s.begin)}
  {
    PendingSame(slots[n := s], slots, n, ended, ended);
  }

  lemma BeginAgrees<O, S>(i: Profiler<O, S>, d: Profiler<O, S>, u: Use, op: O, at: S)
    requires SameMeaning(i, d, u)
    ensures SameMeaning(Next(false, i, Begin(op, at)), Next(true, d, Begin(op, at)),
                        if u.num == |i.slots| then u else u.(num := u.num + 1))
  {
    if u.num < |i.slots| {
      var n := d.num;
      PendingBegin(d.slots, n, u.ended, d.slots[n].(op := op, begin := at));
      OpsUpdate(d.slots, n, d.slots[n].(op := op, begin := at));
      OpsUpdate(i.slots, n, i.slots[n].(op := op));
      hide Ops, Pending;
      assert multiset(i.emitted + [Enter(op, at)]) == multiset(i.emitted) + multiset{Enter(op, at)};
    }
  }

  lemma EndAgrees<O, S>(i: Profiler<O, S>, d: Profiler<O, S>, u: Use, h: nat, at: S)
    requires SameMeaning(i, d, u)
    requires h >= |i.slots| || (h < u.num && h !in u.ended)
    ensures SameMeaning(Next(false, i, End(h, at)), Next(true, d, End(h, at)),
                        if h >= |i.slots| then u else u.(ended := u.ended + {h}))
  {
    if h < |i.slots| {
      PendingEnd(d.slots, d.num, u.ended, h, at);
      assert Ops(i.slots)[h] == Ops(d.slots)[h];
      assert Ops(Next(true, d, End(h, at)).slots) == Ops(d.slots);
    }
  }

  /** Main result. Right after an enabled dump, delayed emission has emitted the same records
      as immediate emission, as often. */
  lemma {:induction false} SameRecordsAfterDump<O, S>(slots: seq<Slot<O, S>>, calls: seq<Call<O, S>>)
    requires WellUsed(|slots|, calls + [Dump(true)])
    ensures multiset(Run(false, slots, calls + [Dump(true)]).emitted)
         == multiset(Run(true, slots, calls + [Dump(true)]).emitted)
  {
    ModesAgree(slots, calls + [Dump(true)]);
  }

  // --------------------------------------------------- operators one after the other

  /** Whether an accepted event is open; ends must be those of the open event. */
  ghost predicate OneByOne<O, S>(capacity: nat, calls: seq<Call<O, S>>) {
    calls == [] ||
    var u := UseOf(capacity, Init(calls));
    && OneByOne(capacity, Init(calls))
    && match Last(calls)
       case Begin(_, _) => u.num == capacity || AllEnded(u)
       case End(h, _) => h >= capacity || (h + 1 == u.num && h !in u.ended)
       case Dump(enabled) => enabled ==> AllEnded(u)
  }

  ghost predicate AllEnded(u: Use) {
    forall h :: 0 <= h < u.num ==> h in u.ended
  }

  /** All buffered events but possibly the last have ended, and the emitted sequences match. */
  ghost predicate SameSequence<O, S>(i: Profiler<O, S>, d: Profiler<O, S>, u: Use) {
    && i.num == d.num == u.num <= |d.slots| == |i.slots|
    && Ops(i.slots) == Ops(d.slots)
    && (forall h :: h in u.ended ==> h < u.num)
    && (forall h :: 0 <= h < u.num - 1 ==> h in u.ended)
    && i.emitted == d.emitted +
         if AllEnded(u) then DumpRecords(d.slots, d.num)
         else DumpRecords(d.slots, d.num - 1) + [Enter(d.slots[d.num - 1].op, d.slots[d.num - 1].begin)]
  }

  lemma {:induction false} DumpSame<O, S>(a: seq<Slot<O, S>>, b: seq<Slot<O, S>>, n: nat)
    requires n <= |a| && n <= |b| && a[..n] == b[..n]
    ensures DumpRecords(a, n) == DumpRecords(b, n)
    decreases n
  {
    if n > 0 {
      assert a[n - 1] == a[..n][n - 1] == b[n - 1];
      assert a[..n - 1] == a[..n][..n - 1] == b[..n - 1];
      DumpSame(a, b, n - 1);
    }
  }

  lemma BeginInSequence<O, S>(i: Profiler<O, S>, d: Profiler<O, S>, u: Use, op: O, at: S)
    requires SameSequence(i, d, u) && (u.num == |i.slots| || AllEnded(u))
    ensures SameSequence(Next(false, i, Begin(op, at)), Next(true, d, Begin(op, at)),
                         if u.num == |i.slots| then u else u.(num := u.num + 1))
  {
    if u.num < |i.slots| {
      var d' := Next(true, d, Begin(op, at));
      DumpSame(d'.slots, d.slots, d.num);
      OpsUpdate(d.slots, d.num, d.slots[d.num].(op := op, begin := at));
      OpsUpdate(i.slots, d.num, i.slots[d.num].(op := op));
      assert !AllEnded(u.(num := u.num + 1)) by {
        assert d.num !in u.ended;
      }
      Assoc3(d.emitted, DumpRecords(d.slots, d.num), [Enter(op, at)]);
    }
  }

  lemma EndInSequence<O, S>(i: Profiler<O, S>, d: Profiler<O, S>, u: Use, h: nat, at: S)
    requires SameSequence(i, d, u) && (h >= |i.slots| || (h + 1 == u.num && h !in u.ended))
    ensures SameSequence(Next(false, i, End(h, at)), Next(true, d, End(h, at)),
                         if h >= |i.slots| then u else u.(ended := u.ended + {h}))
  {
    if h < |i.slots| {
      assert !AllEnded(u);
      var d' := Next(true, d, End(h, at));
      assert Ops(i.slots)[h] == Ops(d.slots)[h];
      assert Ops(d'.slots) == Ops(d.slots);
      assert d'.slots[..h] == d.slots[..h];
      DumpSame(d'.slots, d.slots, h);
      var s := d'.slots[h];
      assert (d.emitted + (DumpRecords(d.slots, h) + [Enter(s.op, s.begin)])) + [Exit(s.op, at)]
          == d.emitted + (DumpRecords(d.slots, h) + [Enter(s.op, s.begin), Exit(s.op, at)]);
    }
  }

  lemma {:induction false} SequencesAgree<O, S>(slots: seq<Slot<O, S>>, calls: seq<Call<O, S>>)
    requires OneByOne(|slots|, calls)
    ensures SameSequence(Run(false, slots, calls), Run(true, slots, calls), UseOf(|slots|, calls))
    decreases |calls|
  {
    if calls != [] {
      SequencesAgree(slots, Init(calls));
      var i, d := Run(false, slots, Init(calls)), Run(true, slots, Init(calls));
      var u := UseOf(|slots|, Init(calls));
      match Last(calls) {
        case Begin(op, at) => BeginInSequence(i, d, u, op, at);
        case End(h, at) => EndInSequence(i, d, u, h, at);
        case Dump(enabled) =>
          if enabled {
            assert Run(true, slots, calls).emitted + DumpRecords(d.slots, 0) == d.emitted + DumpRecords(d.slots, d.num);
          }
      }
    }
  }

  /** Main result. When operators do not overlap, the two modes have emitted the very same
      sequence right after an enabled dump. */
  lemma {:induction false} SameSequenceAfterDump<O, S>(slots: seq<Slot<O, S>>, calls: seq<Call<O, S>>)
    requires OneByOne(|slots|, calls + [Dump(true)])
    ensures Run(false, slots, calls + [Dump(true)]).emitted == Run(true, slots, calls + [Dump(true)]).emitted
  {
    SequencesAgree(slots, calls + [Dump(true)]);
    assert UseOf(|slots|, calls + [Dump(true)]) == Use(0, {});
    var d := Run(true, slots, calls + [Dump(true)]);
    assert d.emitted + DumpRecords(d.slots, 0) == d.emitted;
  }

  // ------------------------------------------------------------- what was called

  /** What a handle stands for: the operator and the begin of the last accepted event with that
      handle, and the last end for it; before those, what the buffers held at first. */
  function Held<O, S>(slots: seq<Slot<O, S>>, calls: seq<Call<O, S>>, h: nat): Slot<O, S>
    requires h < |slots|
  {
    if calls == [] then slots[h]
    else
      var held := Held(slots, Init(calls), h);
      match Last(calls)
      case Begin(op, at) =>
        if UseOf(|slots|, Init(calls)).num == h then Slot(op, at, held.end) else held
      case End(h', at) => if h' == h then held.(end := at) else held
      case Dump(_) => held
  }

  /** What the calls themselves say: every accepted begin is an enter of its operator, and every
      end of a handle within the capacity an exit of the operator it stands for. */
  function Called<O, S>(slots: seq<Slot<O, S>>, calls: seq<Call<O, S>>): seq<Record<O, S>> {
    if calls == [] then []
    else
      var before := Called(slots, Init(calls));
      match Last(calls)
      case Begin(op, at) => if UseOf(|slots|, Init(calls)).num < |slots| then before + [Enter(op, at)] else before
      case End(h, at) => if h < |slots| then before + [Exit(Held(slots, Init(calls), h).op, at)] else before
      case Dump(_) => before
  }

  /** The buffers hold what was called, however the profiler is used. */
  lemma {:induction false} BuffersHold<O, S>(delayed: bool, slots: seq<Slot<O, S>>, calls: seq<Call<O, S>>, h: nat)
    requires h < |slots|
    ensures var held := Held(slots, calls, h);
            Run(delayed, slots, calls).slots[h] == if delayed then held else slots[h].(op := held.op)
    decreases |calls|
  {
    if calls != [] {
      BuffersHold(delayed, slots, Init(calls), h);
      NumIsUse(delayed, slots, Init(calls));
    }
  }

  /** Main result. Immediate emission emits exactly what is called, in the order of the calls, in
      every run. */
  lemma {:induction false} EmittedIsCalled<O, S>(slots: seq<Slot<O, S>>, calls: seq<Call<O, S>>)
    ensures Run(false, slots, calls).emitted == Called(slots, calls)
    decreases |calls|
  {
    if calls != [] {
      EmittedIsCalled(slots, Init(calls));
      NumIsUse(false, slots, Init(calls));
      match Last(calls) {
        case End(h, at) =>
          if h < |slots| {
            BuffersHold(false, slots, Init(calls), h);
          }
        case _ =>
      }
    }
  }

  /** Main result. In a well-used run delayed emission has, right after an enabled dump, emitted
      what is called, as often, and in the same order if operators do not overlap. */
  lemma {:induction false} DumpedIsCalled<O, S>(slots: seq<Slot<O, S>>, calls: seq<Call<O, S>>)
    requires WellUsed(|slots|, calls + [Dump(true)])
    ensures var d := Run(true, slots, calls + [Dump(true)]);
            && multiset(d.emitted) == multiset(Called(slots, calls))
            && (OneByOne(|slots|, calls + [Dump(true)]) ==> d.emitted == Called(slots, calls))
  {
    var all := calls + [Dump(true)];
    assert Init(all) == calls && Last(all) == Dump(true);
    SameRecordsAfterDump(slots, calls);
    EmittedIsCalled(slots, all);
    if OneByOne(|slots|, all) {
      SameSequenceAfterDump(slots, calls);
    }
  }

  /** In a well-used run the handle of an end stands for the event whose begin returned it, since
      the last enabled dump. */
  lemma {:induction false} HeldSince<O, S>(slots: seq<Slot<O, S>>, before: seq<Call<O, S>>, op: O, at: S,
                                           since: seq<Call<O, S>>)
    requires UseOf(|slots|, before).num < |slots|
    requires forall k :: 0 <= k < |since| ==> since[k] != Dump(true)
    ensures var h := UseOf(|slots|, before).num;
            var held := Held(slots, before + [Begin(op, at)] + since, h);
            held.op == op && held.begin == at
    ensures UseOf(|slots|, before + [Begin(op, at)] + since).num > UseOf(|slots|, before).num
    decreases |since|
  {
    var calls := before + [Begin(op, at)] + since;
    if since == [] {
      assert calls == before + [Begin(op, at)] && Init(calls) == before && Last(calls) == Begin(op, at);
    } else {
      assert Init(calls) == before + [Begin(op, at)] + Init(since) && Last(calls) == Last(since);
      HeldSince(slots, before, op, at, Init(since));
    }
  }

  // --------------------------------------------------------------- past the capacity

  /** The calls without the begins past the capacity and the ends of what they returned. */
  function Accepted<O, S>(capacity: nat, calls: seq<Call<O, S>>): seq<Call<O, S>> {
    if calls == [] then []
    else
      var before, c := Accepted(capacity, Init(calls)), Last(calls);
      if (c.Begin? && UseOf(capacity, Init(calls)).num == capacity) || (c.End? && c.handle >= capacity) then before
      else before + [c]
  }

  lemma {:induction false} NumIsUse<O, S>(delayed: bool, slots: seq<Slot<O, S>>, calls: seq<Call<O, S>>)
    ensures Run(delayed, slots, calls).num == UseOf(|slots|, calls).num
    decreases |calls|
  {
    if calls != [] {
      NumIsUse(delayed, slots, Init(calls));
    }
  }

  /** Main result. Calls past the capacity leave no trace in either mode. */
  lemma {:induction false} PastCapacityIgnored<O, S>(delayed: bool, slots: seq<Slot<O, S>>, calls: seq<Call<O, S>>)
    ensures Run(delayed, slots, calls) == Run(delayed, slots, Accepted(|slots|, calls))
    decreases |calls|
  {
    if calls != [] {
      var before := Accepted(|slots|, Init(calls));
      PastCapacityIgnored(delayed, slots, Init(calls));
      NumIsUse(delayed, slots, Init(calls));
      assert Init(before + [Last(calls)]) == before;
    }
  }

  // ------------------------------------------------------------------- the profiler

  class OperatorProfiler<O(0), S(0)> {
    /** Whether emission is delayed, a build option. */
    const delayed: bool
    const ops: array<O>
    const begins: array<S>
    const ends: array<S>
    var numEvents: nat
    ghost var emitted: seq<Record<O, S>>

    ghost predicate Valid()
      reads this
    {
      && numEvents <= ops.Length == begins.Length == ends.Length <= REJECTED
      && begins != ends && ops as object != begins as object && ops as object != ends as object
    }

    ghost function Slots(): (r: seq<Slot<O, S>>)
      requires ops.Length == begins.Length == ends.Length
      reads ops, begins, ends
      ensures |r| == ops.Length
    {
      seq(ops.Length, k requires 0 <= k < ops.Length && ops.Length == begins.Length == ends.Length
                        reads ops, begins, ends => Slot(ops[k], begins[k], ends[k]))
    }

    ghost function State(): Profiler<O, S>
      requires Valid()
      reads this, ops, begins, ends
    {
      Profiler(numEvents, Slots(), emitted)
    }

    constructor (capacity: nat, delayed: bool)
      requires capacity <= REJECTED
      ensures Valid() && numEvents == 0 && emitted == [] && |Slots()| == capacity && this.delayed == delayed
      ensures fresh(ops) && fresh(begins) && fresh(ends)
    {
      ops, begins, ends := new O[capacity], new S[capacity], new S[capacity];
      numEvents, emitted := 0, [];
      this.delayed := delayed;
    }

    method BeginEvent(op: O, at: S) returns (handle: nat)
      requires Valid()
      modifies this, ops, begins
      ensures Valid() && State() == Next(delayed, old(State()), Begin(op, at))
      ensures handle == if old(numEvents) < ops.Length then old(numEvents) else REJECTED
    {
      if numEvents >= ops.Length {
        return REJECTED;
      }
      handle := numEvents;
      ops[handle] := op;
      if delayed {
        begins[handle] := at;
      } else {
        emitted := emitted + [Enter(op, at)];
      }
      numEvents := numEvents + 1;
      assert Slots() == State().slots;
    }

    method EndEvent(handle: nat, at: S)
      requires Valid()
      modifies `emitted, ends
      ensures Valid() && State() == Next(delayed, old(State()), End(handle, at))
    {
      if handle >= ops.Length {
        return;
      }
      if delayed {
        ends[handle] := at;
      } else {
        emitted := emitted + [Exit(ops[handle], at)];
      }
    }

    method DumpEvents(enabled: bool)
      requires Valid()
      modifies this
      ensures Valid() && State() == Next(delayed, old(State()), Dump(enabled))
    {
      if !enabled {
        return;
      }
      if delayed {
        assert emitted + DumpRecords(Slots(), 0) == emitted;
        for i := 0 to numEvents
          invariant emitted == old(emitted) + DumpRecords(Slots(), i)
          invariant numEvents == old(numEvents)
        {
          emitted := emitted + [Enter(ops[i], begins[i])];
          emitted := emitted + [Exit(ops[i], ends[i])];
        }
      }
      numEvents := 0;
    }
  }
}
