/** The live pipeline of the trace server as a step machine: parsed events are collected,
    batched, queued and delivered to the frontend, or collected on request. */
module LivePipeline {
  import opened Sequences
  import Sorting

  datatype Event = Event(id: int, ts: real)

  /** The name of a thread, announced to the frontend. */
  datatype ThreadName = ThreadName(tid: int, name: string)

  datatype Message = Events(metadata: seq<ThreadName>, events: seq<Event>) | Status

  /** `delivered` and `announced` are what the frontend got since the last reset. */
  datatype Pipeline = Pipeline(
    traceEvents: seq<Event>,
    threads: map<int, string>,
    pending: seq<Event>,
    metadata: seq<ThreadName>,
    queue: seq<Message>,
    streaming: bool,
    delivered: seq<Event>,
    announced: seq<ThreadName>)

  function Empty(streaming: bool): Pipeline {
    Pipeline([], map[], [], [], [], streaming, [], [])
  }

  // ------------------------------------------------------------------- sorting

  function Ts(e: Event): real {
    e.ts
  }

  /** `sort(key=ts)`, which is stable. */
  function SortByTs(s: seq<Event>): seq<Event> {
    Sorting.SortBy(Ts, s)
  }

  predicate Sorted(s: seq<Event>) {
    Sorting.Sorted(Ts, s)
  }

  function AtTime(s: seq<Event>, ts: real): seq<Event> {
    if s == [] then [] else (if s[0].ts == ts then [s[0]] else []) + AtTime(s[1..], ts)
  }

  lemma AtTimeCons(e: Event, s: seq<Event>, ts: real)
    ensures AtTime([e] + s, ts) == (if e.ts == ts then [e] else []) + AtTime(s, ts)
  {
    assert ([e] + s)[1..] == s;
  }

  lemma {:induction false} InsertStable(e: Event, s: seq<Event>, ts: real)
    ensures AtTime(Sorting.Insert(Ts, e, s), ts) == (if e.ts == ts then [e] else []) + AtTime(s, ts)
    decreases |s|
  {
    AtTimeCons(e, s, ts);
    if s != [] && e.ts > s[0].ts {
      InsertStable(e, s[1..], ts);
      AtTimeCons(s[0], Sorting.Insert(Ts, e, s[1..]), ts);
    }
  }

  lemma SortByTsSorts(s: seq<Event>)
    ensures Sorted(SortByTs(s)) && multiset(SortByTs(s)) == multiset(s)
    ensures forall x :: x in SortByTs(s) <==> x in s
  {
    Sorting.SortBySorts(Ts, s);
  }

  /** Events of the same time keep their order. */
  lemma {:induction false} SortByTsIsStable(s: seq<Event>, ts: real)
    ensures AtTime(SortByTs(s), ts) == AtTime(s, ts)
    decreases |s|
  {
    if s != [] {
      SortByTsIsStable(s[1..], ts);
      InsertStable(s[0], SortByTs(s[1..]), ts);
    }
  }

  // ------------------------------------------------------------------- steps

  /** Thread names that are new or changed, in the order of the dictionary. */
  function NewNames(threads: map<int, string>, names: seq<ThreadName>): seq<ThreadName>
    decreases |names|
  {
    if names == [] then []
    else if names[0].tid in threads && threads[names[0].tid] == names[0].name then NewNames(threads, names[1..])
    else [names[0]] + NewNames(threads[names[0].tid := names[0].name], names[1..])
  }

  function Renamed(threads: map<int, string>, names: seq<ThreadName>): map<int, string>
    decreases |names|
  {
    if names == [] then threads else Renamed(threads[names[0].tid := names[0].name], names[1..])
  }

  function Max(a: nat, b: nat): nat {
    if a > b then a else b
  }

  /** An increment was parsed; `cooled`: the last batch was sent long enough ago. */
  function Increment(p: Pipeline, events: seq<Event>, names: seq<ThreadName>, cooled: bool): Pipeline {
    var q := Receive(p, events, names);
    if cooled && p.streaming then Emit(q) else q.(queue := q.queue + [Status])
  }

  function Receive(p: Pipeline, events: seq<Event>, names: seq<ThreadName>): Pipeline {
    p.(traceEvents := p.traceEvents + events,
       threads := Renamed(p.threads, names),
       pending := p.pending + events,
       metadata := p.metadata + NewNames(p.threads, names))
  }

  /** The earlier half of the pending events is queued. */
  function Emit(q: Pipeline): Pipeline {
    var (send, keep) := Halves(SortByTs(q.pending));
    q.(pending := keep, metadata := [], queue := q.queue + [Events(q.metadata, send)])
  }

  function Halves(sorted: seq<Event>): (r: (seq<Event>, seq<Event>))
    ensures r.0 + r.1 == sorted
    ensures sorted != [] ==> r.0 != [] && r.0[0] == sorted[0]
  {
    var n := Max(1, |sorted| / 2);
    if n <= |sorted| then (sorted[..n], sorted[n..]) else (sorted, [])
  }

  predicate CanCollect(p: Pipeline) {
    p.pending != [] && !p.streaming
  }

  /** The frontend asks for what is pending. */
  function Collect(p: Pipeline): Pipeline {
    if !CanCollect(p) then p
    else p.(pending := [], metadata := [],
            delivered := p.delivered + p.pending, announced := p.announced + p.metadata)
  }

  /** The emit task takes one message. */
  function Deliver(p: Pipeline): Pipeline {
    if p.queue == [] then p
    else
      var m := p.queue[0];
      p.(queue := p.queue[1..], delivered := p.delivered + EventsOf(m), announced := p.announced + NamesOf(m))
  }

  datatype Step =
    | Parsed(events: seq<Event>, names: seq<ThreadName>, cooled: bool)
    | Collected
    | Delivered
    | Streaming(on: bool)
    | ResetAll

  function Next(p: Pipeline, s: Step): Pipeline {
    match s
    case Parsed(events, names, cooled) => Increment(p, events, names, cooled)
    case Collected => Collect(p)
    case Delivered => Deliver(p)
    case Streaming(on) => p.(streaming := on)
    case ResetAll => Empty(p.streaming)
  }

  function Run(p: Pipeline, steps: seq<Step>): Pipeline {
    if steps == [] then p else Next(Run(p, Init(steps)), Last(steps))
  }

  // ------------------------------------------------------------- conservation

  function EventsOf(m: Message): seq<Event> {
    if m.Events? then m.events else []
  }

  function NamesOf(m: Message): seq<ThreadName> {
    if m.Events? then m.metadata else []
  }

  function QueuedEvents(queue: seq<Message>): seq<Event> {
    if queue == [] then [] else EventsOf(queue[0]) + QueuedEvents(queue[1..])
  }

  function QueuedNames(queue: seq<Message>): seq<ThreadName> {
    if queue == [] then [] else NamesOf(queue[0]) + QueuedNames(queue[1..])
  }

  lemma {:induction false} QueuedSnoc(queue: seq<Message>, m: Message)
    ensures QueuedEvents(queue + [m]) == QueuedEvents(queue) + EventsOf(m)
    ensures QueuedNames(queue + [m]) == QueuedNames(queue) + NamesOf(m)
    decreases |queue|
  {
    hide EventsOf, NamesOf;
    var all := queue + [m];
    if queue == [] {
      assert all[0] == m && all[1..] == [];
    } else {
      var h, rest := queue[0], queue[1..];
      assert all[0] == h && all[1..] == rest + [m];
      QueuedSnoc(rest, m);
      assert EventsOf(h) + (QueuedEvents(rest) + EventsOf(m)) == (EventsOf(h) + QueuedEvents(rest)) + EventsOf(m);
      assert NamesOf(h) + (QueuedNames(rest) + NamesOf(m)) == (NamesOf(h) + QueuedNames(rest)) + NamesOf(m);
    }
  }

  /** Every parsed event is in exactly one place: delivered, queued or pending. */
  ghost predicate Conserved(p: Pipeline) {
    multiset(p.traceEvents) == multiset(p.delivered) + multiset(QueuedEvents(p.queue)) + multiset(p.pending)
  }

  lemma EmitConserves(q: Pipeline)
    requires Conserved(q)
    ensures Conserved(Emit(q))
  {
    SortByTsSorts(q.pending);
    var (send, keep) := Halves(SortByTs(q.pending));
    QueuedSnoc(q.queue, Events(q.metadata, send));
    hide SortByTs, QueuedEvents, Halves;
    assert multiset(send + keep) == multiset(send) + multiset(keep);
  }

  lemma IncrementConserves(p: Pipeline, events: seq<Event>, names: seq<ThreadName>, cooled: bool)
    requires Conserved(p)
    ensures Conserved(Increment(p, events, names, cooled))
  {
    hide NewNames, Renamed, QueuedEvents, Emit;
    assert multiset(p.traceEvents + events) == multiset(p.traceEvents) + multiset(events);
    assert multiset(p.pending + events) == multiset(p.pending) + multiset(events);
    QueuedSnoc(p.queue, Status);
    EmitConserves(Receive(p, events, names));
  }

  lemma NextConserves(p: Pipeline, s: Step)
    requires Conserved(p)
    ensures Conserved(Next(p, s))
  {
    if s.Parsed? {
      IncrementConserves(p, s.events, s.names, s.cooled);
    }
  }

  /** Main result. Over all runs: nothing is lost and nothing is delivered twice. */
  lemma {:induction false} RunConserves(streaming: bool, steps: seq<Step>)
    ensures Conserved(Run(Empty(streaming), steps))
    decreases |steps|
  {
    if steps != [] {
      RunConserves(streaming, Init(steps));
      NextConserves(Run(Empty(streaming), Init(steps)), Last(steps));
    }
  }

  lemma DeliveredAtMostOnce(streaming: bool, steps: seq<Step>, e: Event)
    ensures var p := Run(Empty(streaming), steps);
            multiset(p.delivered)[e] <= multiset(p.traceEvents)[e]
  {
    RunConserves(streaming, steps);
  }

  /** What was parsed since the last reset. */
  function ParsedEvents(steps: seq<Step>): seq<Event> {
    if steps == [] || Last(steps).ResetAll? then []
    else ParsedEvents(Init(steps)) + if Last(steps).Parsed? then Last(steps).events else []
  }

  function ParsedNames(steps: seq<Step>): seq<ThreadName> {
    if steps == [] || Last(steps).ResetAll? then []
    else ParsedNames(Init(steps)) + if Last(steps).Parsed? then Last(steps).names else []
  }

  function ParsedCount(steps: seq<Step>): nat {
    if steps == [] || Last(steps).ResetAll? then 0
    else ParsedCount(Init(steps)) + if Last(steps).Parsed? then 1 else 0
  }

  /** The trace is what was parsed since the last reset, in order, and the table of names what
      these increments make of an empty one. */
  lemma {:induction false} TraceIsParsed(streaming: bool, steps: seq<Step>)
    ensures var p := Run(Empty(streaming), steps);
            p.traceEvents == ParsedEvents(steps) && p.threads == Renamed(map[], ParsedNames(steps))
    decreases |steps|
  {
    hide Emit;
    if steps != [] {
      TraceIsParsed(streaming, Init(steps));
      var p, s := Run(Empty(streaming), Init(steps)), Last(steps);
      if s.Parsed? {
        RenamedAppend(map[], ParsedNames(Init(steps)), s.names);
        ReceivedStays(p, s);
      } else {
        assert ParsedEvents(Init(steps)) + [] == ParsedEvents(Init(steps));
        assert ParsedNames(Init(steps)) + [] == ParsedNames(Init(steps));
      }
    }
  }

  lemma ReceivedStays(p: Pipeline, s: Step)
    requires s.Parsed?
    ensures Next(p, s).traceEvents == p.traceEvents + s.events && Next(p, s).threads == Renamed(p.threads, s.names)
  {
    hide Renamed, SortByTs, Halves;
  }

  /** Streaming is never turned on. */
  predicate NeverStreaming(steps: seq<Step>) {
    forall k :: 0 <= k < |steps| && steps[k].Streaming? ==> !steps[k].on
  }

  /** What has been collected and what still can be is the trace, and only `n` increments or less
      have sent anything: a status. */
  ghost predicate Collectable(p: Pipeline, n: nat) {
    && !p.streaming && p.delivered + p.pending == p.traceEvents
    && (forall m :: m in p.queue ==> m == Status) && |p.queue| <= n
  }

  lemma NextCollectable(p: Pipeline, n: nat, s: Step)
    requires Collectable(p, n) && (s.Streaming? ==> !s.on)
    ensures Collectable(Next(p, s), if s.ResetAll? then 0 else if s.Parsed? then n + 1 else n)
  {
    hide Renamed, NewNames;
    match s {
      case Parsed(events, names, cooled) =>
        assert (p.delivered + p.pending) + events == p.delivered + (p.pending + events);
      case Delivered =>
        if p.queue != [] {
          assert p.queue[0] in p.queue && p.delivered + [] == p.delivered;
          assert forall m :: m in p.queue[1..] ==> m in p.queue;
        }
      case Collected => assert (p.delivered + p.pending) + [] == p.delivered + p.pending;
      case Streaming(on) =>
      case ResetAll =>
    }
  }

  /** Main result. Without streaming every increment only sends a status; what has been collected
      and what still can be is the trace in the order in which it was parsed. */
  lemma {:induction false} CollectedInParseOrder(steps: seq<Step>)
    requires NeverStreaming(steps)
    ensures Collectable(Run(Empty(false), steps), ParsedCount(steps))
    ensures var p := Run(Empty(false), steps); p.delivered + p.pending == ParsedEvents(steps)
    decreases |steps|
  {
    hide Next;
    TraceIsParsed(false, steps);
    if steps != [] {
      assert forall k :: 0 <= k < |steps| - 1 ==> Init(steps)[k] == steps[k];
      CollectedInParseOrder(Init(steps));
      NextCollectable(Run(Empty(false), Init(steps)), ParsedCount(Init(steps)), Last(steps));
    }
  }

  /** Nothing that came before a reset matters afterwards, but for the streaming flag. */
  lemma {:induction false} ResetForgets(streaming: bool, before: seq<Step>, after: seq<Step>)
    ensures var kept := Run(Empty(streaming), before).streaming;
            Run(Empty(streaming), before + [ResetAll] + after) == Run(Empty(kept), after)
    decreases |after|
  {
    var steps := before + [ResetAll] + after;
    if after == [] {
      assert steps == before + [ResetAll] && Init(steps) == before;
    } else {
      assert Init(steps) == before + [ResetAll] + Init(after) && Last(steps) == Last(after);
      ResetForgets(streaming, before, Init(after));
    }
  }

  // -------------------------------------------------------------- thread names

  lemma {:induction false} RenamedAppend(threads: map<int, string>, a: seq<ThreadName>, b: seq<ThreadName>)
    ensures Renamed(threads, a + b) == Renamed(Renamed(threads, a), b)
    decreases |a|
  {
    if a == [] {
      assert a + b == b;
    } else {
      assert (a + b)[1..] == a[1..] + b;
      RenamedAppend(threads[a[0].tid := a[0].name], a[1..], b);
    }
  }

  /** Announcing only what is new or changed is enough. */
  lemma {:induction false} NewNamesSuffice(threads: map<int, string>, names: seq<ThreadName>)
    ensures Renamed(threads, NewNames(threads, names)) == Renamed(threads, names)
    decreases |names|
  {
    if names != [] {
      var n, rest := names[0], names[1..];
      var next := threads[n.tid := n.name];
      NewNamesSuffice(next, rest);
      if n.tid in threads && threads[n.tid] == n.name {
        assert next == threads;
      } else {
        assert ([n] + NewNames(next, rest))[1..] == NewNames(next, rest);
      }
    }
  }

  /** ... and no name is announced that is known already. */
  lemma {:induction false} NewNamesAreNew(threads: map<int, string>, names: seq<ThreadName>, k: nat)
    requires k < |NewNames(threads, names)|
    ensures var t, now := NewNames(threads, names)[k], Renamed(threads, NewNames(threads, names)[..k]);
            t in names && !(t.tid in now && now[t.tid] == t.name)
    decreases |names|
  {
    var n, rest := names[0], names[1..];
    assert names == [n] + rest;
    if n.tid in threads && threads[n.tid] == n.name {
      NewNamesAreNew(threads, rest, k);
    } else if k > 0 {
      var next := threads[n.tid := n.name];
      NewNamesAreNew(next, rest, k - 1);
      var later := NewNames(next, rest);
      assert NewNames(threads, names)[..k] == [n] + later[..k - 1];
      assert ([n] + later[..k - 1])[1..] == later[..k - 1];
    }
  }

  /** Streaming is never turned off. */
  predicate AlwaysStreaming(steps: seq<Step>) {
    forall k :: 0 <= k < |steps| && steps[k].Streaming? ==> steps[k].on
  }

  /** What was announced, what is queued and what waits, in the order in which it is sent unless
      it is collected. */
  function Told(p: Pipeline): seq<ThreadName> {
    p.announced + QueuedNames(p.queue) + p.metadata
  }

  /** ... make up the known names. */
  ghost predicate NamesTold(p: Pipeline) {
    Renamed(map[], Told(p)) == p.threads
  }

  lemma {:induction false} IncrementTold(p: Pipeline, events: seq<Event>, names: seq<ThreadName>, cooled: bool)
    ensures Told(Increment(p, events, names, cooled)) == Told(p) + NewNames(p.threads, names)
  {
    hide Renamed, NewNames, QueuedNames, SortByTs, Halves;
    var q := Receive(p, events, names);
    var told := p.announced + QueuedNames(p.queue);
    assert (told + p.metadata) + NewNames(p.threads, names) == told + q.metadata;
    if cooled && p.streaming {
      QueuedSnoc(p.queue, Events(q.metadata, Halves(SortByTs(q.pending)).0));
      assert (p.announced + (QueuedNames(p.queue) + q.metadata)) + [] == told + q.metadata;
    } else {
      QueuedSnoc(p.queue, Status);
      assert QueuedNames(p.queue) + [] == QueuedNames(p.queue);
    }
  }

  lemma DeliverTold(p: Pipeline)
    ensures Told(Deliver(p)) == Told(p)
  {
    if p.queue != [] {
      var m, rest := NamesOf(p.queue[0]), QueuedNames(p.queue[1..]);
      assert p.announced + (m + rest) == (p.announced + m) + rest;
    }
  }

  /** What is collected overtakes what is queued. */
  lemma CollectTold(p: Pipeline)
    ensures Told(Collect(p)) == if CanCollect(p) then p.announced + (p.metadata + QueuedNames(p.queue)) else Told(p)
  {
    if CanCollect(p) {
      var a, m, q := p.announced, p.metadata, QueuedNames(p.queue);
      assert (a + m) + q + [] == a + (m + q);
    }
  }

  /** The name that a thread was given last. */
  predicate IsNamed(names: seq<ThreadName>, tid: int) {
    names != [] && (Last(names).tid == tid || IsNamed(Init(names), tid))
  }

  function LastName(names: seq<ThreadName>, tid: int): string
    requires IsNamed(names, tid)
  {
    if Last(names).tid == tid then Last(names).name else LastName(Init(names), tid)
  }

  /** The table holds the last name of every thread that was ever named. */
  lemma {:induction false} RenamedIs(threads: map<int, string>, names: seq<ThreadName>, tid: int)
    ensures tid in Renamed(threads, names) <==> tid in threads || IsNamed(names, tid)
    ensures IsNamed(names, tid) ==> Renamed(threads, names)[tid] == LastName(names, tid)
    ensures !IsNamed(names, tid) && tid in threads ==> Renamed(threads, names)[tid] == threads[tid]
    decreases |names|
  {
    if names != [] {
      var before, n := Init(names), Last(names);
      assert names == before + [n];
      RenamedAppend(threads, before, [n]);
      RenamedIs(threads, before, tid);
      assert [n][1..] == [];
      assert Renamed(threads, names) == Renamed(threads, before)[n.tid := n.name];
    }
  }

  /** The threads named in both lists have the same last name in both. */
  ghost predicate Agree(a: seq<ThreadName>, b: seq<ThreadName>) {
    forall tid :: IsNamed(a, tid) && IsNamed(b, tid) ==> LastName(a, tid) == LastName(b, tid)
  }

  lemma SwapNamesAt(threads: map<int, string>, a: seq<ThreadName>, b: seq<ThreadName>, tid: int)
    ensures var ab, ba := Renamed(threads, a + b), Renamed(threads, b + a);
            && (tid in ab <==> tid in ba)
            && (tid in ab ==> (ab[tid] == ba[tid] <==>
                  (IsNamed(a, tid) && IsNamed(b, tid) ==> LastName(a, tid) == LastName(b, tid))))
            && (IsNamed(a, tid) ==> tid in ab)
  {
    RenamedAppend(threads, a, b);
    RenamedAppend(threads, b, a);
    hide Renamed, IsNamed, LastName;
    RenamedIs(threads, a, tid);
    RenamedIs(threads, b, tid);
    RenamedIs(Renamed(threads, a), b, tid);
    RenamedIs(Renamed(threads, b), a, tid);
  }

  lemma {:induction false} SwapNamesIff(threads: map<int, string>, a: seq<ThreadName>, b: seq<ThreadName>)
    ensures Renamed(threads, b + a) == Renamed(threads, a + b) <==> Agree(a, b)
  {
    var ab, ba := Renamed(threads, a + b), Renamed(threads, b + a);
    hide Renamed, IsNamed, LastName;
    forall tid: int
      ensures tid in ab.Keys <==> tid in ba.Keys
    {
      SwapNamesAt(threads, a, b, tid);
    }
    forall tid: int | tid in ab
      ensures ab[tid] == ba[tid] <==>
                (IsNamed(a, tid) && IsNamed(b, tid) ==> LastName(a, tid) == LastName(b, tid))
    {
      SwapNamesAt(threads, a, b, tid);
    }
    if Agree(a, b) {
      assert ab.Keys == ba.Keys;
      assert forall tid :: tid in ab ==> ab[tid] == ba[tid];
    } else {
      var tid :| IsNamed(a, tid) && IsNamed(b, tid) && LastName(a, tid) != LastName(b, tid);
      SwapNamesAt(threads, a, b, tid);
      assert tid in ab && ab[tid] != ba[tid];
    }
  }

  /** Main result. If announced, queued and waiting names make up the table, they still do after
      a collect if and only if it was refused or no thread has a waiting name that differs from
      one that is queued. */
  lemma {:induction false} CollectKeepsNamesIff(p: Pipeline)
    requires NamesTold(p)
    ensures NamesTold(Collect(p)) <==> !CanCollect(p) || Agree(QueuedNames(p.queue), p.metadata)
  {
    CollectTold(p);
    if CanCollect(p) {
      var q := QueuedNames(p.queue);
      assert Told(p) == p.announced + (q + p.metadata);
      RenamedAppend(map[], p.announced, q + p.metadata);
      RenamedAppend(map[], p.announced, p.metadata + q);
      SwapNamesIff(Renamed(map[], p.announced), q, p.metadata);
    }
  }

  /** No collect overtakes a queued name of a thread that has got another one since. */
  ghost predicate NoOvertaking(streaming: bool, steps: seq<Step>) {
    steps == [] ||
    var p := Run(Empty(streaming), Init(steps));
    && NoOvertaking(streaming, Init(steps))
    && (Last(steps).Collected? && CanCollect(p) ==> Agree(QueuedNames(p.queue), p.metadata))
  }

  lemma NextTellsNames(p: Pipeline, s: Step)
    requires NamesTold(p) && (s.Collected? && CanCollect(p) ==> Agree(QueuedNames(p.queue), p.metadata))
    ensures NamesTold(Next(p, s))
  {
    match s {
      case Parsed(events, names, cooled) =>
        IncrementTold(p, events, names, cooled);
        RenamedAppend(map[], Told(p), NewNames(p.threads, names));
        NewNamesSuffice(p.threads, names);
      case Delivered => DeliverTold(p);
      case Collected => CollectKeepsNamesIff(p);
      case Streaming(on) =>
      case ResetAll =>
    }
  }

  /** Main result. While no collect overtakes a name, once the queue is drained and nothing waits,
      the frontend knows the current name of every thread. */
  lemma {:induction false} FrontendKnowsNames(streaming: bool, steps: seq<Step>)
    requires NoOvertaking(streaming, steps)
    ensures NamesTold(Run(Empty(streaming), steps))
    ensures var p := Run(Empty(streaming), steps);
            p.queue == [] && p.metadata == [] ==> Renamed(map[], p.announced) == p.threads
    decreases |steps|
  {
    var p := Run(Empty(streaming), steps);
    hide Next, Renamed;
    if steps != [] {
      FrontendKnowsNames(streaming, Init(steps));
      NextTellsNames(Run(Empty(streaming), Init(steps)), Last(steps));
    } else {
      NothingNamed();
    }
    assert p.announced + [] + [] == p.announced;
  }

  lemma NothingNamed()
    ensures Renamed(map[], []) == map[]
  {
  }

  /** In particular while streaming is never turned off: then nothing can be collected. */
  lemma {:induction false} StreamingNeverOvertakes(steps: seq<Step>)
    requires AlwaysStreaming(steps)
    ensures NoOvertaking(true, steps) && Run(Empty(true), steps).streaming
    decreases |steps|
  {
    if steps != [] {
      assert forall k :: 0 <= k < |steps| - 1 ==> Init(steps)[k] == steps[k];
      StreamingNeverOvertakes(Init(steps));
    }
  }

  /** Streaming is turned off while a name is queued, the thread gets another, and that is
      collected before the queue is emptied: in the end the frontend has the old name. */
  lemma {:induction false} StaleName(e: Event, tid: int, before: string, now: string)
    requires before != now
    ensures var n0, n1 := ThreadName(tid, before), ThreadName(tid, now);
            var p := Run(Empty(true), [Parsed([e], [n0], true), Streaming(false), Parsed([e], [n1], false),
                                       Collected, Delivered, Delivered]);
            && p.threads == map[tid := now] && p.queue == [] && p.metadata == [] && p.announced == [n1, n0]
            && Renamed(map[], p.announced) == map[tid := before]
  {
    var n0, n1 := ThreadName(tid, before), ThreadName(tid, now);
    var batch := Events([n0], [e]);
    var p1 := Pipeline([e], map[tid := before], [], [], [batch], true, [], []);
    var p3 := Pipeline([e, e], map[tid := now], [e], [n1], [batch, Status], false, [], []);
    var p4 := p3.(pending := [], metadata := [], delivered := [e], announced := [n1]);
    var p5 := p4.(queue := [Status], delivered := [e, e], announced := [n1, n0]);
    FirstIncrement(e, n0);
    SecondIncrement(p1, e, n1);
    OldNameLast(p4, n0, n1, e);
    OneName(map[], n1);
    OneName(map[tid := now], n0);
    RenamedAppend(map[], [n1], [n0]);
    SixSteps(Empty(true), Parsed([e], [n0], true), Streaming(false), Parsed([e], [n1], false), Collected, Delivered,
             Delivered);
    hide Renamed, Run;
    assert [n1] + [n0] == [n1, n0];
    assert Next(p1, Streaming(false)) == p1.(streaming := false);
    assert Next(p3, Collected) == p4 by {
      assert [] + [e] == [e] && [] + [n1] == [n1];
    }
  }

  lemma FirstIncrement(e: Event, n: ThreadName)
    ensures Next(Empty(true), Parsed([e], [n], true))
         == Pipeline([e], map[n.tid := n.name], [], [], [Events([n], [e])], true, [], [])
  {
    OneName(map[], n);
    OneEvent(e);
    hide Renamed, NewNames, SortByTs, Halves;
    assert [] + [n] == [n] && [] + [e] == [e];
  }

  lemma SecondIncrement(p: Pipeline, e: Event, n: ThreadName)
    requires p.pending == [] && p.metadata == [] && |p.queue| == 1 && |p.traceEvents| == 1 && p.traceEvents[0] == e
    requires !(n.tid in p.threads && p.threads[n.tid] == n.name)
    ensures Next(p.(streaming := false), Parsed([e], [n], false))
         == p.(traceEvents := [e, e], threads := p.threads[n.tid := n.name], pending := [e], metadata := [n],
               queue := [p.queue[0], Status], streaming := false)
  {
    OneName(p.threads, n);
    hide Renamed, NewNames;
    assert p.metadata + [n] == [n] && p.pending + [e] == [e] && p.traceEvents + [e] == [e, e];
    assert p.queue + [Status] == [p.queue[0], Status];
  }

  lemma OldNameLast(p: Pipeline, n0: ThreadName, n1: ThreadName, e: Event)
    requires p.queue == [Events([n0], [e]), Status] && p.delivered == [e] && p.announced == [n1]
    ensures Next(Next(p, Delivered), Delivered) == p.(queue := [], delivered := [e, e], announced := [n1, n0])
  {
    assert p.queue[1..] == [Status] && [Status][1..] == [];
    assert p.delivered + [e] == [e, e] && p.announced + [n0] == [n1, n0];
    assert [e, e] + [] == [e, e] && [n1, n0] + [] == [n1, n0];
  }

  lemma OneName(threads: map<int, string>, n: ThreadName)
    ensures Renamed(threads, [n]) == threads[n.tid := n.name]
    ensures !(n.tid in threads && threads[n.tid] == n.name) ==> NewNames(threads, [n]) == [n]
  {
    assert [n][1..] == [];
  }

  lemma OneEvent(e: Event)
    ensures Halves(SortByTs([e])) == ([e], [])
  {
    assert [e][1..] == [] && Sorting.SortBy(Ts, [e][1..]) == [];
    assert Sorting.Insert(Ts, e, []) == [e];
  }

  lemma SixSteps(p: Pipeline, a: Step, b: Step, c: Step, d: Step, e: Step, f: Step)
    ensures Run(p, [a, b, c, d, e, f]) == Next(Next(Next(Next(Next(Next(p, a), b), c), d), e), f)
  {
    hide Next;
    assert Init([a, b, c, d, e, f]) == [a, b, c, d, e] && Init([a, b, c, d, e]) == [a, b, c, d];
    assert Init([a, b, c, d]) == [a, b, c] && Init([a, b, c]) == [a, b] && Init([a, b]) == [a] && Init([a]) == [];
    assert Run(p, []) == p && Run(p, [a]) == Next(p, a);
    assert Run(p, [a, b]) == Next(Next(p, a), b);
    assert Run(p, [a, b, c, d]) == Next(Next(Next(Next(p, a), b), c), d);
  }

  /** Every thread's current name is among what was announced, what is queued and what waits. */
  ghost predicate NamesKept(p: Pipeline) {
    forall tid :: tid in p.threads ==> ThreadName(tid, p.threads[tid]) in Told(p)
  }

  lemma {:induction false} NewNamesIn(threads: map<int, string>, names: seq<ThreadName>)
    ensures var now := Renamed(threads, names);
            forall tid :: tid in now ==>
              || (tid in threads && now[tid] == threads[tid])
              || ThreadName(tid, now[tid]) in NewNames(threads, names)
    decreases |names|
  {
    if names != [] {
      var n, rest := names[0], names[1..];
      var next, now := threads[n.tid := n.name], Renamed(threads, names);
      NewNamesIn(next, rest);
      var later := NewNames(next, rest);
      forall tid | tid in now && !(tid in threads && now[tid] == threads[tid])
        ensures ThreadName(tid, now[tid]) in NewNames(threads, names)
      {
        assert n.tid in threads && threads[n.tid] == n.name ==> next == threads;
        assert NewNames(threads, names) == later || NewNames(threads, names) == [n] + later;
      }
    }
  }

  lemma NextKeepsNames(p: Pipeline, s: Step)
    requires NamesKept(p)
    ensures NamesKept(Next(p, s))
  {
    match s {
      case Parsed(events, names, cooled) =>
        IncrementTold(p, events, names, cooled);
        NewNamesIn(p.threads, names);
      case Delivered => DeliverTold(p);
      case Collected => CollectTold(p);
      case Streaming(on) =>
      case ResetAll =>
    }
  }

  /** Main result. Over all runs, with streaming on or off: the current name of every thread has
      been announced since the last reset, or is queued, or waits. */
  lemma {:induction false} NoNameLost(streaming: bool, steps: seq<Step>)
    ensures NamesKept(Run(Empty(streaming), steps))
    decreases |steps|
  {
    hide Next;
    if steps != [] {
      NoNameLost(streaming, Init(steps));
      NextKeepsNames(Run(Empty(streaming), Init(steps)), Last(steps));
    }
  }

  // ------------------------------------------------------------------- order

  /** What has left the pending list. */
  function Batched(p: Pipeline): seq<Event> {
    p.delivered + QueuedEvents(p.queue)
  }

  ghost predicate NotAfter(a: seq<Event>, b: seq<Event>) {
    forall x, y :: x in a && y in b ==> x.ts <= y.ts
  }

  ghost predicate InOrder(p: Pipeline) {
    p.streaming && Sorted(Batched(p)) && NotAfter(Batched(p), p.pending)
  }

  lemma {:induction false} SortedAppend(a: seq<Event>, b: seq<Event>)
    ensures Sorted(a + b) <==> Sorted(a) && Sorted(b) && NotAfter(a, b)
    decreases |a|
  {
    if a == [] {
      assert a + b == b;
    } else {
      var h, rest := a[0], a[1..];
      assert a == [h] + rest && a + b == [h] + (rest + b);
      Sorting.SortedCons(Ts, h, rest);
      Sorting.SortedCons(Ts, h, rest + b);
      SortedAppend(rest, b);
      assert h in a;
      assert forall x :: x in rest + b <==> x in rest || x in b;
    }
  }

  lemma SameBatched(p: Pipeline, q: Pipeline)
    requires q == Deliver(p)
    ensures Batched(q) == Batched(p) && q.pending == p.pending && q.streaming == p.streaming
  {
    if p.queue != [] {
      var m, rest := p.queue[0], p.queue[1..];
      assert p.delivered + (EventsOf(m) + QueuedEvents(rest)) == (p.delivered + EventsOf(m)) + QueuedEvents(rest);
    }
  }

  lemma EmitBatched(q: Pipeline) returns (send: seq<Event>)
    ensures (send, Emit(q).pending) == Halves(SortByTs(q.pending))
    ensures Batched(Emit(q)) == Batched(q) + send
    ensures Sorted(send) && NotAfter(send, Emit(q).pending)
    ensures forall x :: x in q.pending <==> x in send || x in Emit(q).pending
    ensures q.pending != [] ==> send != [] && forall x :: x in q.pending ==> send[0].ts <= x.ts
  {
    hide Sorted, QueuedEvents, Halves, SortByTs, NotAfter, Emit;
    var keep: seq<Event>;
    send, keep := SortedHalves(q.pending);
    EmitIs(q, send, keep);
    QueuedSnoc(q.queue, Events(q.metadata, send));
    assert q.delivered + (QueuedEvents(q.queue) + send) == (q.delivered + QueuedEvents(q.queue)) + send;
  }

  lemma EmitIs(q: Pipeline, send: seq<Event>, keep: seq<Event>)
    requires (send, keep) == Halves(SortByTs(q.pending))
    ensures Emit(q) == q.(pending := keep, metadata := [], queue := q.queue + [Events(q.metadata, send)])
  {
    hide SortByTs, Halves;
  }

  lemma SortedHalves(pending: seq<Event>) returns (send: seq<Event>, keep: seq<Event>)
    ensures (send, keep) == Halves(SortByTs(pending))
    ensures Sorted(send) && NotAfter(send, keep)
    ensures forall x :: x in pending <==> x in send || x in keep
    ensures pending != [] ==> send != [] && forall x :: x in pending ==> send[0].ts <= x.ts
  {
    var sorted := SortByTs(pending);
    SortByTsSorts(pending);
    send, keep := Halves(sorted).0, Halves(sorted).1;
    hide SortByTs, Halves;
    SortedAppend(send, keep);
    assert forall x :: x in sorted <==> x in send || x in keep;
    if pending != [] {
      assert pending[0] in sorted;
      assert sorted == [sorted[0]] + sorted[1..];
      Sorting.SortedCons(Ts, sorted[0], sorted[1..]);
    }
  }

  /** An increment whose events are not earlier than what has been batched keeps the order. */
  lemma IncrementInOrder(p: Pipeline, events: seq<Event>, names: seq<ThreadName>, cooled: bool)
    requires InOrder(p) && NotAfter(Batched(p), events)
    ensures InOrder(Increment(p, events, names, cooled))
  {
    var q := Receive(p, events, names);
    if cooled {
      var send := EmitBatched(q);
      SortedAppend(Batched(p), send);
      assert forall x :: x in send || x in Emit(q).pending ==> x in p.pending || x in events;
      assert forall x :: x in Batched(Emit(q)) <==> x in Batched(p) || x in send;
    } else {
      QueuedSnoc(p.queue, Status);
      assert QueuedEvents(p.queue) + [] == QueuedEvents(p.queue);
    }
  }

  /** Streaming is on at first and never turned off, and every increment is not earlier than
      what has been batched when it is parsed. */
  ghost predicate Punctual(steps: seq<Step>) {
    steps == [] ||
    var p := Run(Empty(true), Init(steps));
    && Punctual(Init(steps))
    && match Last(steps)
       case Parsed(events, names, cooled) => NotAfter(Batched(p), events)
       case Streaming(on) => on
       case Collected => true
       case Delivered => true
       case ResetAll => true
  }

  /** Main result. With streaming always on and punctual increments, what the frontend got
      since the last reset is in time order, at every moment of every run. */
  lemma {:induction false} DeliveredInOrder(steps: seq<Step>)
    requires Punctual(steps)
    ensures InOrder(Run(Empty(true), steps)) && Sorted(Run(Empty(true), steps).delivered)
    decreases |steps|
  {
    var now := Run(Empty(true), steps);
    if steps != [] {
      DeliveredInOrder(Init(steps));
      var p := Run(Empty(true), Init(steps));
      match Last(steps) {
        case Parsed(events, names, cooled) => IncrementInOrder(p, events, names, cooled);
        case Delivered => SameBatched(p, now);
        case _ =>
      }
    }
    SortedAppend(now.delivered, QueuedEvents(now.queue));
  }

  /** Being punctual is also needed: at a step that sends a batch, the order is kept exactly
      when no new event is earlier than something batched before. */
  lemma OrderKeptIff(p: Pipeline, events: seq<Event>, names: seq<ThreadName>)
    requires InOrder(p)
    ensures Sorted(Batched(Increment(p, events, names, true))) <==> NotAfter(Batched(p), events)
  {
    if NotAfter(Batched(p), events) {
      IncrementInOrder(p, events, names, true);
    } else {
      var q := Receive(p, events, names);
      var send := EmitBatched(q);
      SortedAppend(Batched(p), send);
      var x, y :| x in Batched(p) && y in events && x.ts > y.ts;
      assert y in q.pending;
      assert send[0] in send;
    }
  }

  // ------------------------------------------------------------------ batches

  /** A batch is the earlier half of what was pending, but never empty. */
  lemma BatchIsEarlierHalf(q: Pipeline) returns (send: seq<Event>)
    requires q.pending != []
    ensures Batched(Emit(q)) == Batched(q) + send && |send| == Max(1, |q.pending| / 2)
    ensures Sorted(send) && NotAfter(send, Emit(q).pending)
    ensures |Emit(q).pending| == |q.pending| - |send|
    ensures multiset(q.pending) == multiset(send) + multiset(Emit(q).pending)
  {
    send := EmitBatched(q);
    hide Emit, QueuedEvents, Sorted, NotAfter;
    HalvesOf(q.pending);
  }

  lemma {:induction false} HalvesOf(pending: seq<Event>)
    requires pending != []
    ensures var (send, keep) := Halves(SortByTs(pending));
            && |send| == Max(1, |pending| / 2) && |keep| == |pending| - |send|
            && multiset(pending) == multiset(send) + multiset(keep)
  {
    var sorted := SortByTs(pending);
    SortByTsSorts(pending);
    assert |multiset(sorted)| == |sorted| && |multiset(pending)| == |pending|;
    hide SortByTs;
    assert multiset(sorted) == multiset(Halves(sorted).0) + multiset(Halves(sorted).1);
  }

  /** Every increment queues one message: a batch if streaming is on and the last one was long
      enough ago, otherwise a status, and then all that was received stays pending. */
  lemma OneMessage(p: Pipeline, events: seq<Event>, names: seq<ThreadName>, cooled: bool)
    ensures var q := Next(p, Parsed(events, names, cooled));
            && |q.queue| == |p.queue| + 1 && Init(q.queue) == p.queue
            && (Last(q.queue).Events? <==> cooled && p.streaming)
            && (Last(q.queue).Events? ==> q.metadata == [] && (p.pending + events != [] ==> Last(q.queue).events != []))
            && (Last(q.queue) == Status ==>
                  q.pending == p.pending + events && q.metadata == p.metadata + NewNames(p.threads, names))
  {
    var received := Receive(p, events, names);
    SortByTsSorts(received.pending);
    assert |multiset(SortByTs(received.pending))| == |SortByTs(received.pending)|;
    hide SortByTs, Halves, Renamed, NewNames;
  }

  /** Increments that bring nothing new, each long enough after the last. */
  function Quiet(n: nat): seq<Step> {
    if n == 0 then [] else Quiet(n - 1) + [Parsed([], [], true)]
  }

  lemma QuietStep(p: Pipeline)
    requires p.streaming
    ensures var q := Next(p, Parsed([], [], true));
            q.streaming && (|q.pending| < |p.pending| || q.pending == [])
  {
    var received := Receive(p, [], []);
    assert received.pending == p.pending;
    hide Halves, SortByTs;
    var send := EmitBatched(received);
    if p.pending != [] {
      HalvesOf(p.pending);
    }
  }

  /** Main result. While streaming, nothing stays pending for ever: as many quiet increments
      as there are pending events queue all of them. */
  lemma {:induction false} BatchesDrain(p: Pipeline, n: nat)
    requires p.streaming
    ensures var q := Run(p, Quiet(n));
            q.streaming && (|q.pending| <= |p.pending| - n || q.pending == [])
    decreases n
  {
    hide Next;
    if n > 0 {
      BatchesDrain(p, n - 1);
      assert Init(Quiet(n)) == Quiet(n - 1);
      QuietStep(Run(p, Quiet(n - 1)));
    }
  }

  // ---------------------------------------------------------------- the handler

  datatype Reply = Success | Error(message: string)

  class TraceHandler {
    var traceEvents: seq<Event>
    var traceThreads: map<int, string>
    var pendingEvents: seq<Event>
    var pendingMetadata: seq<ThreadName>
    var emitQueue: seq<Message>
    var continuousStreaming: bool
    ghost var delivered: seq<Event>
    ghost var announced: seq<ThreadName>

    ghost function State(): Pipeline
      reads this
    {
      Pipeline(traceEvents, traceThreads, pendingEvents, pendingMetadata, emitQueue, continuousStreaming,
               delivered, announced)
    }

    constructor ()
      ensures State() == Empty(false)
    {
      traceEvents, traceThreads, pendingEvents, pendingMetadata := [], map[], [], [];
      emitQueue, continuousStreaming, delivered, announced := [], false, [], [];
    }

    method ExtractTraceIncrement(tef: seq<Event>, threadNames: seq<ThreadName>) returns (newMetadata: seq<ThreadName>)
      modifies `traceEvents, `traceThreads
      ensures traceEvents == old(traceEvents) + tef
      ensures traceThreads == Renamed(old(traceThreads), threadNames)
      ensures newMetadata == NewNames(old(traceThreads), threadNames)
    {
      traceEvents := traceEvents + tef;
      newMetadata := [];
      for k := 0 to |threadNames|
        invariant Renamed(traceThreads, threadNames[k..]) == Renamed(old(traceThreads), threadNames)
        invariant newMetadata + NewNames(traceThreads, threadNames[k..]) == NewNames(old(traceThreads), threadNames)
        invariant traceEvents == old(traceEvents) + tef
      {
        var t := threadNames[k];
        assert threadNames[k..][1..] == threadNames[k + 1..];
        if !(t.tid in traceThreads && traceThreads[t.tid] == t.name) {
          ghost var later := NewNames(traceThreads[t.tid := t.name], threadNames[k + 1..]);
          assert newMetadata + ([t] + later) == (newMetadata + [t]) + later;
          newMetadata := newMetadata + [t];
          traceThreads := traceThreads[t.tid := t.name];
        } else {
          assert traceThreads[t.tid := t.name] == traceThreads;
        }
      }
    }

    /** One round of the loop that batches what was parsed. */
    method ParseAndEmitDiff(tef: seq<Event>, threadNames: seq<ThreadName>, cooled: bool)
      modifies this
      ensures State() == Next(old(State()), Parsed(tef, threadNames, cooled))
    {
      hide NewNames, Renamed, SortByTs;
      var newMetadata := ExtractTraceIncrement(tef, threadNames);
      pendingEvents := pendingEvents + tef;
      pendingMetadata := pendingMetadata + newMetadata;
      if cooled && continuousStreaming {
        pendingEvents := SortByTs(pendingEvents);
        var toSend := Max(1, |pendingEvents| / 2);
        var upTo := if toSend <= |pendingEvents| then toSend else |pendingEvents|;
        var batch := Events(pendingMetadata, pendingEvents[..upTo]);
        assert pendingEvents[..|pendingEvents|] == pendingEvents;
        pendingMetadata := [];
        pendingEvents := pendingEvents[upTo..];
        emitQueue := emitQueue + [batch];
      } else {
        emitQueue := emitQueue + [Status];
      }
    }

    /** One round of the loop that performs the emits. */
    method EmitLoop()
      modifies this
      ensures State() == Next(old(State()), Delivered)
    {
      if emitQueue != [] {
        var msg := emitQueue[0];
        emitQueue := emitQueue[1..];
        if msg.Events? {
          delivered := delivered + msg.events;
          announced := announced + msg.metadata;
        } else {
          assert delivered + [] == delivered && announced + [] == announced;
        }
      }
    }

    method Collect() returns (reply: Reply)
      modifies this
      ensures State() == Next(old(State()), Collected)
      ensures reply == Success <==> old(CanCollect(State()))
    {
      if |pendingEvents| == 0 {
        return Error("No trace data available to collect.");
      }
      if continuousStreaming {
        return Error("Can't collect data while streaming.");
      }
      var events, metadata := pendingEvents, pendingMetadata;
      pendingEvents := [];
      pendingMetadata := [];
      delivered := delivered + events;
      announced := announced + metadata;
      reply := Success;
    }

    method SetStreaming(on: bool)
      modifies `continuousStreaming
      ensures State() == Next(old(State()), Streaming(on))
    {
      continuousStreaming := on;
    }

    method ExecuteReset()
      modifies this
      ensures State() == Next(old(State()), ResetAll)
    {
      emitQueue := [];
      traceEvents := [];
      pendingEvents := [];
      pendingMetadata := [];
      traceThreads := map[];
      delivered, announced := [], [];
    }
  }
}
