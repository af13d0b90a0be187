/** From the messages of a device to numbered inferences: while a trace is converted, the
    operators that each thread runs are collected, and the end of an inference gets their
    longest common prefix. */
module InferencePrefixes {
  import opened Sequences
  import opened Options
  import opened CommonPrefix
  import opened ModelNumbers
  import opened InferenceNumbers
  import opened TraceEvents

  datatype Message =
    | OpEnter(tid: int, ts: real, tag: string)
    | OpExit(tid: int, ts: real, tag: string)
    | InferenceEnter(tid: int, ts: real)
    | InferenceExit(tid: int, ts: real)
    | OtherMessage(tid: int, ts: real, ph: Phase)

  /** The operators that a thread entered since its last inference ended. */
  function Ran(msgs: seq<Message>, tid: int): seq<string> {
    if msgs == [] then [] else RanNext(Ran(Init(msgs), tid), Last(msgs), tid)
  }

  function RanNext(ran: seq<string>, m: Message, tid: int): seq<string> {
    if m.tid != tid then ran
    else if m.OpEnter? then ran + [m.tag]
    else if m.InferenceExit? then []
    else ran
  }

  /** The prefix argument: there is none when no operator ran or nothing is common. */
  function PrefixOf(names: seq<string>): Option<string> {
    if names == [] || LcpAll(names) == [] then None else Some(LcpAll(names))
  }

  function Converted(before: seq<Message>, m: Message): TefEvent {
    match m
    case OpEnter(tid, ts, _) => TefEvent(ModelEvent, Begin, tid, ts, None, None)
    case OpExit(tid, ts, _) => TefEvent(ModelEvent, End, tid, ts, None, None)
    case InferenceEnter(tid, ts) => TefEvent(InferenceEvent, Begin, tid, ts, None, None)
    case InferenceExit(tid, ts) => TefEvent(InferenceEvent, End, tid, ts, None, PrefixOf(Ran(before, tid)))
    case OtherMessage(tid, ts, ph) => TefEvent(OtherEvent, ph, tid, ts, None, None)
  }

  function Convert(msgs: seq<Message>): (tef: seq<TefEvent>)
    ensures |tef| == |msgs|
  {
    if msgs == [] then [] else Convert(Init(msgs)) + [Converted(Init(msgs), Last(msgs))]
  }

  /** The messages that yield an event, in order; None is any other one. */
  function Yielding(received: seq<Option<Message>>): seq<Message> {
    if received == [] then []
    else if Last(received) == None then Yielding(Init(received))
    else Yielding(Init(received)) + [Last(received).value]
  }

  // ----------------------------------------------------------- what is collected

  /** `tag` was entered on the thread at `i`, and no inference has ended there since. */
  ghost predicate RanAt(msgs: seq<Message>, tid: int, tag: string, i: nat) {
    && i < |msgs| && msgs[i].OpEnter? && msgs[i].tid == tid && msgs[i].tag == tag
    && forall j :: i < j < |msgs| && msgs[j].tid == tid ==> !msgs[j].InferenceExit?
  }

  lemma RanAtInit(msgs: seq<Message>, tid: int, tag: string, i: nat)
    requires msgs != [] && i < |msgs| - 1
    ensures RanAt(msgs, tid, tag, i) <==>
            RanAt(Init(msgs), tid, tag, i) && !(Last(msgs).tid == tid && Last(msgs).InferenceExit?)
  {
    if RanAt(Init(msgs), tid, tag, i) && !(Last(msgs).tid == tid && Last(msgs).InferenceExit?) {
      forall j | i < j < |msgs| && msgs[j].tid == tid
        ensures !msgs[j].InferenceExit?
      {
        assert j < |msgs| - 1 ==> Init(msgs)[j] == msgs[j];
      }
    }
    if RanAt(msgs, tid, tag, i) {
      forall j | i < j < |msgs| - 1 && Init(msgs)[j].tid == tid
        ensures !Init(msgs)[j].InferenceExit?
      {
        assert Init(msgs)[j] == msgs[j];
      }
    }
  }

  /** What is collected for a thread is exactly what it ran since its last inference ended. */
  lemma {:induction false} RanIff(msgs: seq<Message>, tid: int, tag: string)
    ensures tag in Ran(msgs, tid) <==> exists i: nat :: RanAt(msgs, tid, tag, i)
    decreases |msgs|
  {
    if msgs != [] {
      RanIff(Init(msgs), tid, tag);
      forall i: nat | i < |msgs| - 1
        ensures RanAt(msgs, tid, tag, i) <==>
                RanAt(Init(msgs), tid, tag, i) && !(Last(msgs).tid == tid && Last(msgs).InferenceExit?)
      {
        RanAtInit(msgs, tid, tag, i);
      }
      var m := Last(msgs);
      if m.OpEnter? && m.tid == tid && m.tag == tag {
        assert RanAt(msgs, tid, tag, |msgs| - 1);
      }
      if tag in Ran(Init(msgs), tid) {
        var i: nat :| RanAt(Init(msgs), tid, tag, i);
        assert i < |msgs| - 1;
      }
    }
  }

  lemma {:induction false} ConvertAt(msgs: seq<Message>, i: nat)
    requires i < |msgs|
    ensures Convert(msgs)[i] == Converted(msgs[..i], msgs[i])
    decreases |msgs|
  {
    hide Converted;
    if i < |msgs| - 1 {
      ConvertAt(Init(msgs), i);
      assert Init(msgs)[..i] == msgs[..i];
    }
  }

  /** Conversion keeps thread and time. What is an inference or an operator in the trace is one on
      the device, and begins are the messages of entering; only ends of inferences carry
      prefixes: the longest common prefix of what ran, if there is one that is not empty. */
  lemma ConvertedEvent(msgs: seq<Message>, i: nat)
    requires i < |msgs|
    ensures var m, e := msgs[i], Convert(msgs)[i];
            var ran := Ran(msgs[..i], m.tid);
            && e.tid == m.tid && e.ts == m.ts && e.num == None
            && (e.kind == InferenceEvent <==> m.InferenceEnter? || m.InferenceExit?)
            && (e.kind == ModelEvent <==> m.OpEnter? || m.OpExit?)
            && (e.ph == Begin <==> m.InferenceEnter? || m.OpEnter? || (m.OtherMessage? && m.ph == Begin))
            && (e.ph == End <==> m.InferenceExit? || m.OpExit? || (m.OtherMessage? && m.ph == End))
            && (e.prefix.Some? <==> m.InferenceExit? && ran != [] && LcpAll(ran) != [])
            && (e.prefix.Some? ==> e.prefix.value == LcpAll(ran))
  {
    hide Ran, LcpAll;
    ConvertAt(msgs, i);
  }

  /** An inference of a thread is entered or left. */
  predicate OfInference(m: Message, tid: int) {
    m.tid == tid && (m.InferenceEnter? || m.InferenceExit?)
  }

  /** The thread enters an inference at `i` and leaves it at `j`, and the operators that it entered
      since it left its last one have a common prefix. */
  ghost predicate Ended(msgs: seq<Message>, i: nat, j: nat) {
    && i < j < |msgs| && msgs[i].tid == msgs[j].tid && msgs[i].InferenceEnter? && msgs[j].InferenceExit?
    && Ran(msgs[..j], msgs[j].tid) != [] && LcpAll(Ran(msgs[..j], msgs[j].tid)) != []
    && forall k :: i < k < j ==> !OfInference(msgs[k], msgs[j].tid)
  }

  /** Main result. These are exactly the inferences that the renumbering finds finished. */
  lemma {:induction false} FinishedIff(msgs: seq<Message>, i: nat, j: nat)
    ensures Run(i, j) in Runs(Convert(msgs)) <==> Ended(msgs, i, j)
  {
    var trace := Convert(msgs);
    hide Ran, Runs, LcpAll, Convert;
    RunsIff(trace, i, j);
    if i < j < |msgs| {
      ConvertedEvent(msgs, i);
      ConvertedEvent(msgs, j);
      forall k | i < k < j
        ensures InferenceOn(trace[k], msgs[j].tid) <==> OfInference(msgs[k], msgs[j].tid)
      {
        ConvertedEvent(msgs, k);
      }
    }
  }

  lemma YieldingSnoc(before: seq<Option<Message>>, m: Option<Message>)
    ensures Yielding(before + [m]) == Yielding(before) + if m == None then [] else [m.value]
  {
    assert Init(before + [m]) == before;
  }

  /** The messages with some others that yield nothing before, between and behind them. */
  function Interleaved(msgs: seq<Message>, silent: seq<nat>): seq<Option<Message>>
    requires |silent| == |msgs| + 1
  {
    (if msgs == [] then [] else Interleaved(Init(msgs), Init(silent)) + [Some(Last(msgs))])
      + seq(Last(silent), _ => None)
  }

  /** No message that yields an event is lost, doubled or moved. */
  lemma {:induction false} YieldingAll(msgs: seq<Message>, silent: seq<nat>)
    requires |silent| == |msgs| + 1
    ensures Yielding(Interleaved(msgs, silent)) == msgs
    decreases |msgs|
  {
    if msgs == [] {
      YieldingSilent([], Last(silent));
    } else {
      var before := Interleaved(Init(msgs), Init(silent));
      YieldingAll(Init(msgs), Init(silent));
      YieldingSnoc(before, Some(Last(msgs)));
      YieldingSilent(before + [Some(Last(msgs))], Last(silent));
    }
  }

  lemma {:induction false} YieldingSilent(before: seq<Option<Message>>, n: nat)
    ensures Yielding(before + seq(n, _ => None)) == Yielding(before)
    decreases n
  {
    var none: seq<Option<Message>> := seq(n, _ => None);
    if n == 0 {
      assert before + none == before;
    } else {
      assert before + none == (before + seq(n - 1, _ => None)) + [None];
      YieldingSnoc(before + seq(n - 1, _ => None), None);
      YieldingSilent(before, n - 1);
    }
  }

  // ------------------------------------------------------------------- models

  /** What a finished inference ran. */
  function RanBy(msgs: seq<Message>, r: Run): seq<string> {
    if r.exit < |msgs| then Ran(msgs[..r.exit], msgs[r.exit].tid) else []
  }

  /** The finished inferences ran `models`: only functions of the model, and the first
      inference of every model all of them. */
  ghost predicate RanModels(msgs: seq<Message>, models: seq<int>, functions: map<int, seq<string>>) {
    var runs := Runs(Convert(msgs));
    && |models| == |runs|
    && forall k :: 0 <= k < |runs| ==>
         && models[k] in functions
         && (forall f :: f in RanBy(msgs, runs[k]) ==> f in functions[models[k]])
         && (models[k] !in models[..k] ==> forall f :: f in functions[models[k]] ==> f in RanBy(msgs, runs[k]))
  }

  /** The prefix of each model. */
  function FullPrefixes(functions: map<int, seq<string>>): map<int, string> {
    map m | m in functions && functions[m] != [] :: LcpAll(functions[m])
  }

  lemma ShownIsCommonPrefix(msgs: seq<Message>, r: Run)
    requires RunValid(Convert(msgs), r)
    ensures RanBy(msgs, r) != [] && ShownBy(Convert(msgs), r) == LcpAll(RanBy(msgs, r))
  {
    ConvertAt(msgs, r.exit);
  }

  lemma RunsShow(msgs: seq<Message>, models: seq<int>, functions: map<int, seq<string>>)
    requires RanModels(msgs, models, functions)
    ensures Observed(Shown(Convert(msgs), Runs(Convert(msgs))), models, FullPrefixes(functions))
  {
    var trace := Convert(msgs);
    var runs := Runs(trace);
    ScanIsValid(trace, |trace|);
    hide Runs, Convert, ShownBy, RunValid, RanBy, LcpAll;
    forall k | 0 <= k < |runs|
      ensures models[k] in FullPrefixes(functions)
      ensures FullPrefixes(functions)[models[k]] <= ShownBy(trace, runs[k])
      ensures models[k] !in models[..k] ==> ShownBy(trace, runs[k]) == FullPrefixes(functions)[models[k]]
    {
      var ran, all := RanBy(msgs, runs[k]), functions[models[k]];
      assert RunValid(trace, runs[k]);
      ShownIsCommonPrefix(msgs, runs[k]);
      assert ran[0] in all;
      InterruptedIsLonger(ran, all);
    }
  }

  /** Main result. From messages to numbers: if no model's prefix is a prefix of another's,
      then after conversion and renumbering all finished inferences carry numbers, those of
      the same model the same, and those of different models different ones. */
  lemma {:induction false} NumbersTellModels(msgs: seq<Message>, models: seq<int>, functions: map<int, seq<string>>,
                                             first: int, j: nat, k: nat)
    requires PrefixFree(FullPrefixes(functions)) && RanModels(msgs, models, functions)
    requires j < |models| && k < |models|
    ensures |models| == |Runs(Convert(msgs))|
    ensures var trace := Convert(msgs);
            var runs := Runs(trace);
            var u := ApplyRuns(trace, runs, first);
            var a, b := Number(Shown(trace, runs), j, first), Number(Shown(trace, runs), k, first);
            && Numbered(u, trace, runs[j], a) && Numbered(u, trace, runs[k], b)
            && (a == b <==> models[j] == models[k])
  {
    RunsShow(msgs, models, functions);
    hide Runs, Convert, Observed, PrefixFree, Numbered, Number, ApplyRuns, Shown, FullPrefixes;
    SameNumberInTrace(Convert(msgs), models, FullPrefixes(functions), first, j, k);
  }

  // ------------------------------------------------------------- the conversion

  class TvmEvents {
    var currentTvmInference: map<int, seq<string>>

    /** What is collected is what the messages `seen` so far call for. */
    ghost predicate Collected(seen: seq<Message>)
      reads this
    {
      forall tid :: Names(tid) == Ran(seen, tid)
    }

    ghost function Names(tid: int): seq<string>
      reads this
    {
      if tid in currentTvmInference then currentTvmInference[tid] else []
    }

    lemma OtherLeavesAlone(msg: Message, seen: seq<Message>)
      requires Collected(seen) && msg.OtherMessage?
      ensures Collected(seen + [msg])
    {
      assert Init(seen + [msg]) == seen;
    }

    constructor ()
      ensures Collected([])
    {
      currentTvmInference := map[];
    }

    /** `shorten` stands for the removal of the pattern in front of operator names. */
    method TvmOpName(msg: Message, shorten: string -> string, ghost seen: seq<Message>) returns (name: string)
      requires Collected(seen) && (msg.OpEnter? || msg.OpExit?)
      modifies this
      ensures Collected(seen + [msg])
      ensures name == shorten(msg.tag)
    {
      assert Init(seen + [msg]) == seen;
      name := msg.tag;
      if msg.OpEnter? {
        var threadId := msg.tid;
        if threadId !in currentTvmInference {
          currentTvmInference := currentTvmInference[threadId := []];
        }
        currentTvmInference := currentTvmInference[threadId := currentTvmInference[threadId] + [name]];
      }
      name := shorten(name);
    }

    method InferenceAdditionalArgs(msg: Message, ghost seen: seq<Message>) returns (prefix: Option<string>)
      requires Collected(seen) && (msg.InferenceEnter? || msg.InferenceExit?)
      modifies this
      ensures Collected(seen + [msg])
      ensures prefix == if msg.InferenceExit? then PrefixOf(Ran(seen, msg.tid)) else None
    {
      assert Init(seen + [msg]) == seen;
      prefix := None;
      if msg.InferenceEnter? {
        return;
      }
      var threadId := msg.tid;
      assert Names(threadId) == Ran(seen, threadId);
      if threadId in currentTvmInference && currentTvmInference[threadId] != [] {
        var commonPrefix := GetCommonPrefix(currentTvmInference[threadId]);
        currentTvmInference := currentTvmInference[threadId := []];
        if commonPrefix.Some? && commonPrefix.value != [] {
          prefix := commonPrefix;
        }
      }
    }
  }

  /** The conversion loop. Of the events, only what the renumbering looks at is kept. */
  method CtfToTef(received: seq<Option<Message>>, shorten: string -> string) returns (converted: seq<TefEvent>)
    ensures converted == Convert(Yielding(received))
  {
    hide Ran, PrefixOf;
    var events := new TvmEvents();
    converted := [];
    assert received[..0] == [];
    for i := 0 to |received|
      invariant converted == Convert(Yielding(received[..i]))
      invariant fresh(events) && events.Collected(Yielding(received[..i]))
    {
      TakeNext(received, i);
      assert Init(received[..i + 1]) == received[..i];
      ghost var seen := Yielding(received[..i]);
      if received[i] == None {
        continue;
      }
      var m := received[i].value;
      assert Init(seen + [m]) == seen;
      var kind, ph, prefix := OtherEvent, if m.OpEnter? || m.InferenceEnter? then Begin else End, None;
      if m.OpEnter? || m.OpExit? {
        kind := ModelEvent;
        var _ := events.TvmOpName(m, shorten, seen);
      } else if m.OtherMessage? {
        ph := m.ph;
        events.OtherLeavesAlone(m, seen);
      } else {
        kind := InferenceEvent;
        prefix := events.InferenceAdditionalArgs(m, seen);
      }
      converted := converted + [TefEvent(kind, ph, m.tid, m.ts, None, prefix)];
    }
    TakeAll(received);
  }
}
