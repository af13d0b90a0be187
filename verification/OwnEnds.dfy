/** Which end closes which begin, and when the timestamp repair finds it: it looks for the first
    later end of equal name, thread and process, which for a recursive function is another's. */
module OwnEnds {
  import opened Sequences
  import opened Options
  import opened TraceEvents
  import opened TraceRepair
  import opened TraceNesting
  import opened FixTimestamps

  predicate Begins(e: Event, th: Thread) {
    Of(e, th) && e.ph == Begin
  }

  predicate EndsOn(e: Event, th: Thread) {
    Of(e, th) && e.ph == End
  }

  /** `own` gives every begin of a thread the end that closes it: of equal name, and the begins
      and ends nest. */
  ghost predicate Paired(trace: seq<Event>, own: map<nat, nat>, th: Thread) {
    PartlyPaired(trace, own, [], th)
  }

  /** ... but for the begins at `open`, the latest first, which are not closed yet. */
  ghost predicate PartlyPaired(trace: seq<Event>, own: map<nat, nat>, open: seq<nat>, th: Thread) {
    AllListed(trace, own, open, th) && OwnNest(trace, own, th) && OpenNest(trace, own, open, th)
  }

  /** Every begin is closed or open, every end closes a begin. */
  ghost predicate AllListed(trace: seq<Event>, own: map<nat, nat>, open: seq<nat>, th: Thread) {
    && (forall k: nat :: k < |trace| && Begins(trace[k], th) ==> k in own || k in open)
    && (forall m: nat :: m < |trace| && EndsOn(trace[m], th) ==> exists k :: k in own && own[k] == m)
  }

  /** `own` gives begins of a thread, maybe not all of them, an end of equal name behind them. */
  ghost predicate Ended(trace: seq<Event>, own: map<nat, nat>, th: Thread) {
    forall k :: k in own ==> k < own[k] < |trace| && Begins(trace[k], th) && IsEndOf(trace[own[k]], trace[k])
  }

  ghost predicate OwnNest(trace: seq<Event>, own: map<nat, nat>, th: Thread) {
    && Ended(trace, own, th)
    && (forall k, l :: k in own && l in own && k < l ==> own[k] < l || own[l] < own[k])
  }

  /** No closed event overlaps an open begin. */
  ghost predicate OpenNest(trace: seq<Event>, own: map<nat, nat>, open: seq<nat>, th: Thread) {
    && (forall i :: 0 <= i < |open| ==> open[i] < |trace| && Begins(trace[open[i]], th) && open[i] !in own)
    && (forall i, j :: 0 <= i < j < |open| ==> open[j] < open[i])
    && (forall i, k :: 0 <= i < |open| && k in own && k < open[i] ==> own[k] < open[i])
  }

  function OpenNames(trace: seq<Event>, open: seq<nat>): seq<string> {
    seq(|open|, i requires 0 <= i < |open| => if open[i] < |trace| then trace[open[i]].name else [])
  }

  lemma OwnNestSnoc(trace: seq<Event>, own: map<nat, nat>, th: Thread, e: Event)
    requires OwnNest(trace, own, th)
    ensures OwnNest(trace + [e], own, th)
  {
  }

  lemma OwnNestClose(trace: seq<Event>, own: map<nat, nat>, th: Thread, e: Event, o: nat)
    requires OwnNest(trace, own, th) && o < |trace| && Begins(trace[o], th) && IsEndOf(e, trace[o])
    requires forall k :: k in own && k < o ==> own[k] < o
    ensures OwnNest(trace + [e], own[o := |trace|], th)
  {
  }

  lemma OpenNestSnoc(trace: seq<Event>, own: map<nat, nat>, open: seq<nat>, th: Thread, e: Event)
    requires OpenNest(trace, own, open, th)
    ensures OpenNest(trace + [e], own, open, th)
    ensures OpenNames(trace + [e], open) == OpenNames(trace, open)
  {
  }

  lemma OpenNestPush(trace: seq<Event>, own: map<nat, nat>, open: seq<nat>, th: Thread, e: Event)
    requires OpenNest(trace, own, open, th) && OwnNest(trace, own, th) && Begins(e, th)
    ensures OpenNest(trace + [e], own, [|trace|] + open, th)
    ensures OpenNames(trace + [e], [|trace|] + open) == [e.name] + OpenNames(trace, open)
  {
  }

  lemma OpenNestPop(trace: seq<Event>, own: map<nat, nat>, open: seq<nat>, th: Thread, n: nat)
    requires OpenNest(trace, own, open, th) && open != []
    ensures OpenNest(trace, own[open[0] := n], open[1..], th)
    ensures OpenNames(trace, open[1..]) == OpenNames(trace, open)[1..]
  {
    assert forall i :: 0 <= i < |open| - 1 ==> open[1..][i] == open[i + 1];
  }

  lemma ListedSnoc(trace: seq<Event>, own: map<nat, nat>, open: seq<nat>, th: Thread, e: Event,
                   now: map<nat, nat>, open': seq<nat>)
    requires AllListed(trace, own, open, th)
    requires forall k :: k in own ==> k in now && now[k] == own[k]
    requires forall k: nat :: k in open ==> k in now || k in open'
    requires Begins(e, th) ==> |trace| in open'
    requires EndsOn(e, th) ==> exists k :: k in now && now[k] == |trace|
    ensures AllListed(trace + [e], now, open', th)
  {
    var t := trace + [e];
    forall m: nat | m < |t| && EndsOn(t[m], th)
      ensures exists k :: k in now && now[k] == m
    {
      if m < |trace| {
        assert EndsOn(trace[m], th);
        var k :| k in own && own[k] == m;
        assert k in now && now[k] == m;
      }
    }
  }

  lemma PairBegin(trace: seq<Event>, own: map<nat, nat>, open: seq<nat>, th: Thread, e: Event)
    requires PartlyPaired(trace, own, open, th) && Begins(e, th)
    ensures PartlyPaired(trace + [e], own, [|trace|] + open, th)
    ensures OpenNames(trace + [e], [|trace|] + open) == [e.name] + OpenNames(trace, open)
  {
    hide AllListed, OwnNest, OpenNest, OpenNames;
    ListedSnoc(trace, own, open, th, e, own, [|trace|] + open);
    OwnNestSnoc(trace, own, th, e);
    OpenNestPush(trace, own, open, th, e);
  }

  lemma PairEnd(trace: seq<Event>, own: map<nat, nat>, open: seq<nat>, th: Thread, e: Event)
    requires PartlyPaired(trace, own, open, th) && EndsOn(e, th)
    requires open != [] && OpenNames(trace, open)[0] == e.name
    ensures PartlyPaired(trace + [e], own[open[0] := |trace|], open[1..], th)
    ensures OpenNames(trace + [e], open[1..]) == OpenNames(trace, open)[1..]
  {
    var o, now := open[0], own[open[0] := |trace|];
    TopIsOpen(trace, own, open, th);
    hide AllListed, OwnNest, OpenNest, OpenNames;
    assert now[o] == |trace|;
    assert forall k: nat :: k in open ==> k == o || k in open[1..];
    ListedSnoc(trace, own, open, th, e, now, open[1..]);
    OwnNestClose(trace, own, th, e, o);
    OpenNestPop(trace, own, open, th, |trace|);
    OpenNestSnoc(trace, now, open[1..], th, e);
  }

  lemma TopIsOpen(trace: seq<Event>, own: map<nat, nat>, open: seq<nat>, th: Thread)
    requires OpenNest(trace, own, open, th) && open != []
    ensures open[0] < |trace| && Begins(trace[open[0]], th) && open[0] !in own
    ensures forall k :: k in own && k < open[0] ==> own[k] < open[0]
    ensures OpenNames(trace, open)[0] == trace[open[0]].name
  {
  }

  lemma PairOther(trace: seq<Event>, own: map<nat, nat>, open: seq<nat>, th: Thread, e: Event)
    requires PartlyPaired(trace, own, open, th) && !Of(e, th)
    ensures PartlyPaired(trace + [e], own, open, th)
    ensures OpenNames(trace + [e], open) == OpenNames(trace, open)
  {
    hide AllListed, OwnNest, OpenNest, OpenNames;
    ListedSnoc(trace, own, open, th, e, own, open);
    OwnNestSnoc(trace, own, th, e);
    OpenNestSnoc(trace, own, open, th, e);
  }

  lemma NothingPaired(th: Thread)
    ensures PartlyPaired([], map[], [], th) && Nest([], On([], th)) == Some(OpenNames([], []))
  {
    assert OpenNames([], []) == [];
  }

  lemma {:induction false} PairPrefix(trace: seq<Event>, th: Thread) returns (own: map<nat, nat>, open: seq<nat>)
    requires Nest([], On(trace, th)) != None
    ensures PartlyPaired(trace, own, open, th) && Nest([], On(trace, th)) == Some(OpenNames(trace, open))
    decreases |trace|
  {
    hide Nest, On, PartlyPaired, OpenNames;
    own, open := map[], [];
    if trace == [] {
      NothingPaired(th);
    } else {
      var before, e := Init(trace), Last(trace);
      assert trace == before + [e];
      OnSnoc(before, e, th);
      NestSnoc([], On(before, th), e);
      own, open := PairPrefix(before, th);
      if !Of(e, th) {
        PairOther(before, own, open, th, e);
      } else if e.ph == Begin {
        PairBegin(before, own, open, th, e);
        open := [|before|] + open;
      } else {
        NamesOfNone(before, open);
        PairEnd(before, own, open, th, e);
        own, open := own[open[0] := |before|], open[1..];
      }
    }
  }

  lemma NamesOfNone(trace: seq<Event>, open: seq<nat>)
    ensures |OpenNames(trace, open)| == |open|
  {
  }

  /** In a well-nested thread every begin has its own end. */
  lemma NestedIsPaired(trace: seq<Event>, th: Thread) returns (own: map<nat, nat>)
    requires WellNested(On(trace, th))
    ensures Paired(trace, own, th)
  {
    var open: seq<nat>;
    own, open := PairPrefix(trace, th);
    NamesOfNone(trace, open);
  }

  // ----------------------------------------------------- the end that is looked up

  /** The event that begins at `k` encloses another of equal name, thread and process. */
  ghost predicate EnclosesNamesake(trace: seq<Event>, own: map<nat, nat>, k: nat)
    requires k in own
  {
    exists l :: l in own && l < |trace| && k < l < own[k] && k < |trace| && Hash(trace[l]) == Hash(trace[k])
  }

  lemma PairedAt(trace: seq<Event>, own: map<nat, nat>, th: Thread, k: nat)
    requires Paired(trace, own, th) && k in own
    ensures k < own[k] < |trace| && Begins(trace[k], th) && IsEndOf(trace[own[k]], trace[k])
  {
  }

  /** Ends of equal name between a begin and its own end belong to events enclosed. */
  lemma NamesakeEnds(trace: seq<Event>, own: map<nat, nat>, th: Thread, k: nat, m: nat)
    requires Paired(trace, own, th) && k in own && k < m < own[k] && IsEndOf(trace[m], trace[k])
    ensures EnclosesNamesake(trace, own, k)
  {
    assert EndsOn(trace[m], th);
    var l :| l in own && own[l] == m;
    NestAt(trace, own, th, k, l);
    hide Paired;
    assert Hash(trace[l]) == Hash(trace[k]);
  }

  lemma NestAt(trace: seq<Event>, own: map<nat, nat>, th: Thread, k: nat, l: nat)
    requires Paired(trace, own, th) && k in own && l in own
    ensures l < own[l] < |trace| && IsEndOf(trace[own[l]], trace[l])
    ensures k < l ==> own[k] < l || own[l] < own[k]
    ensures l < k ==> own[l] < k || own[k] < own[l]
  {
    PairedAt(trace, own, th, l);
  }

  /** Main result. The first later end of equal name is the event's own end if and only if the
      event encloses none of its own name. */
  lemma FirstEndIsOwnIff(trace: seq<Event>, own: map<nat, nat>, th: Thread, k: nat)
    requires Paired(trace, own, th) && k in own && k < |trace|
    ensures FirstEnd(trace, trace[k], k + 1) == own[k] <==> !EnclosesNamesake(trace, own, k)
  {
    PairedAt(trace, own, th, k);
    var j := FirstEnd(trace, trace[k], k + 1);
    if EnclosesNamesake(trace, own, k) {
      var l :| l in own && l < |trace| && k < l < own[k] && Hash(trace[l]) == Hash(trace[k]);
      PairedAt(trace, own, th, l);
      assert own[l] < own[k];
      assert IsEndOf(trace[own[l]], trace[k]);
    } else if j < own[k] {
      NamesakeEnds(trace, own, th, k, j);
    }
  }

  /** Between a begin of the same name and the own end of an event that encloses a namesake
      there is another end. */
  lemma EndBetween(trace: seq<Event>, own: map<nat, nat>, th: Thread, k: nat, m: nat) returns (x: nat)
    requires Paired(trace, own, th) && k in own && k < |trace| && EnclosesNamesake(trace, own, k)
    requires m < own[k] && m < |trace| && trace[m].ph == Begin && Hash(trace[m]) == Hash(trace[k])
    ensures m < x < own[k] && x < |trace| && IsEndOf(trace[x], trace[m])
  {
    PairedAt(trace, own, th, k);
    assert Begins(trace[m], th);
    PairedAt(trace, own, th, m);
    if m > k {
      x := own[m];
    } else {
      var l :| l in own && l < |trace| && k < l < own[k] && Hash(trace[l]) == Hash(trace[k]);
      PairedAt(trace, own, th, l);
      x := own[l];
    }
  }

  /** The own end of an event that encloses a namesake is nobody's first later end. */
  lemma NobodysFirstEnd(trace: seq<Event>, own: map<nat, nat>, th: Thread, k: nat, m: nat)
    requires Paired(trace, own, th) && k in own && k < |trace| && EnclosesNamesake(trace, own, k)
    requires m < |trace| && trace[m].ph == Begin
    ensures FirstEnd(trace, trace[m], m + 1) != own[k]
  {
    PairedAt(trace, own, th, k);
    hide Paired, EnclosesNamesake;
    if Hash(trace[m]) == Hash(trace[k]) && m < own[k] {
      var x := EndBetween(trace, own, th, k, m);
    }
  }

  lemma {:induction false} NeverMoved(instr: seq<Event>, own: map<nat, nat>, th: Thread, zpl: seq<Event>,
                                      k: nat, n: nat)
    requires Paired(instr, own, th) && k in own && EnclosesNamesake(instr, own, k) && n <= |instr|
    requires k < |instr| && own[k] < |instr|
    ensures EndTime(instr, zpl, own[k], n) == instr[own[k]].ts
    decreases n
  {
    hide Paired, EnclosesNamesake, Extend;
    if n > 0 {
      NeverMoved(instr, own, th, zpl, k, n - 1);
      if instr[n - 1].ph == Begin {
        NobodysFirstEnd(instr, own, th, k, n - 1);
      }
    }
  }

  // ------------------------------------------- the end that is looked up by its time

  /** No unpaired end on the thread comes between a begin and its own end. */
  ghost predicate EndsListed(trace: seq<Event>, own: map<nat, nat>, th: Thread) {
    forall m: nat, k :: m < |trace| && EndsOn(trace[m], th) && k in own && k < m < own[k] ==>
      exists l :: l in own && own[l] == m
  }

  /** The event that begins at `k` encloses another of its name that ends later than it begins. */
  ghost predicate EnclosesLater(trace: seq<Event>, own: map<nat, nat>, k: nat)
    requires k in own && k < |trace|
  {
    exists l :: l in own && k < l < own[l] < own[k] && own[l] < |trace| && IsLaterEndOf(trace[own[l]], trace[k])
  }

  /** What ends later than it begins, and before its own end, belongs to an event enclosed. */
  lemma LaterEndIsEnclosed(trace: seq<Event>, own: map<nat, nat>, th: Thread, k: nat, m: nat)
    requires OwnNest(trace, own, th) && EndsListed(trace, own, th)
    requires k in own && k < m < own[k] && m < |trace| && k < |trace| && IsLaterEndOf(trace[m], trace[k])
    ensures EnclosesLater(trace, own, k)
  {
    assert Begins(trace[k], th);
    assert EndsOn(trace[m], th);
    var l :| l in own && own[l] == m;
    assert l != k;
  }

  /** An end later than a begin of its thread comes behind it. */
  lemma LaterIsBehind(trace: seq<Event>, th: Thread, k: nat, m: nat)
    requires EventsInOrder(trace, th.tid) && k < |trace| && m < |trace| && Begins(trace[k], th)
    requires IsLaterEndOf(trace[m], trace[k])
    ensures k < m
  {
    assert OfThread(trace[k], th.tid) && OfThread(trace[m], th.tid);
  }

  /** Main result. In a thread in time order, which may lack begins and ends, the first end of
      equal name with a later time is the event's own end if and only if the event has positive
      length and encloses none of its own name that ends later than it begins. */
  lemma LaterEndIsOwnIff(trace: seq<Event>, own: map<nat, nat>, th: Thread, k: nat)
    requires EventsInOrder(trace, th.tid) && OwnNest(trace, own, th) && EndsListed(trace, own, th)
    requires k in own && k < |trace| && own[k] < |trace|
    ensures FirstLaterEnd(trace, trace[k], 0) == own[k] <==>
            trace[own[k]].ts > trace[k].ts && !EnclosesLater(trace, own, k)
  {
    assert Ended(trace, own, th);
    assert Begins(trace[k], th) && IsEndOf(trace[own[k]], trace[k]);
    hide OwnNest, Ended, EndsListed, EventsInOrder;
    var m := FirstLaterEnd(trace, trace[k], 0);
    if trace[own[k]].ts > trace[k].ts && m < own[k] {
      LaterIsBehind(trace, th, k, m);
      LaterEndIsEnclosed(trace, own, th, k, m);
    }
  }
}
