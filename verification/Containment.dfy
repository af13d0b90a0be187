/** When the timestamp repair does what it is for: Zephelin intervals that begin inside an
    instrumentation event end inside it. The Zephelin trace may be cut short anywhere. */
module Containment {
  import opened Sequences
  import opened Options
  import opened TraceEvents
  import opened TraceRepair
  import opened TraceNesting
  import opened FixTimestamps
  import opened OwnEnds

  function ThreadOf(b: Event): Thread {
    Thread(b.tid, b.pid)
  }

  /** The Zephelin trace is in time order on the thread, and `close` gives begins of it an end of
      equal name: not all of them need to have one. */
  ghost predicate Closes(zpl: seq<Event>, close: map<nat, nat>, th: Thread) {
    EventsInOrder(zpl, th.tid) && Ended(zpl, close, th)
  }

  /** All Zephelin intervals of the thread of `b` that begin in `[lo, hi)` end by `end`. */
  ghost predicate Contained(zpl: seq<Event>, close: map<nat, nat>, b: Event, lo: real, hi: real, end: real) {
    forall k :: k in close && k < |zpl| && IsChild(zpl[k], b, lo, hi) ==>
      close[k] < |zpl| && zpl[close[k]].ts <= end
  }

  // ------------------------------------------------------- what a lookup can miss

  /** A begin that the search for children can find: no other of its thread comes before it at
      the same time. */
  ghost predicate FirstAtTime(zpl: seq<Event>, x: nat)
    requires x < |zpl|
  {
    forall y :: 0 <= y < x && OnThread(zpl[y], zpl[x]) && zpl[y].ph == Begin ==> zpl[y].ts != zpl[x].ts
  }

  /** The interval that begins at `k`, not before the begin at `x`, is passed over once the end of
      `x` has been looked up: there is none, or `k` begins before it and ends behind it. */
  predicate Hides(zpl: seq<Event>, close: map<nat, nat>, x: nat, k: nat)
    requires x < |zpl| && k in close && k < |zpl| && close[k] < |zpl|
  {
    var m := FirstLaterEnd(zpl, zpl[x], 0);
    && zpl[x].ts <= zpl[k].ts < zpl[close[k]].ts
    && (m == -1 || zpl[k].ts < zpl[m].ts < zpl[close[k]].ts)
  }

  /** No lookup inside the span `[lo, hi)` hides an interval that ends behind it. */
  ghost predicate NothingHidden(zpl: seq<Event>, close: map<nat, nat>, b: Event, lo: real, hi: real) {
    forall x: nat, k ::
      x < |zpl| && IsChild(zpl[x], b, lo, hi) && FirstAtTime(zpl, x) &&
      k in close && k < |zpl| && IsChild(zpl[k], b, lo, hi) && close[k] < |zpl| && zpl[close[k]].ts > hi ==>
        !Hides(zpl, close, x, k)
  }

  /** No lookup on the thread hides any interval. */
  ghost predicate NeverHidden(zpl: seq<Event>, close: map<nat, nat>, th: Thread) {
    forall x: nat, k ::
      x < |zpl| && Begins(zpl[x], th) && FirstAtTime(zpl, x) &&
      k in close && k < |zpl| && Begins(zpl[k], th) && close[k] < |zpl| ==>
        !Hides(zpl, close, x, k)
  }

  lemma NeverHiddenInSpan(zpl: seq<Event>, close: map<nat, nat>, b: Event, lo: real, hi: real)
    requires NeverHidden(zpl, close, ThreadOf(b))
    ensures NothingHidden(zpl, close, b, lo, hi)
  {
    hide Hides, FirstAtTime;
  }

  /** Every begin in the span is ended, and the end that is looked up for it is its own. */
  ghost predicate OwnFound(zpl: seq<Event>, close: map<nat, nat>, b: Event, lo: real, hi: real) {
    forall x: nat :: x < |zpl| && IsChild(zpl[x], b, lo, hi) ==>
      x in close && FirstLaterEnd(zpl, zpl[x], 0) == close[x]
  }

  /** Then nothing is hidden. `LaterEndIsOwnIff` says which events find their own end: those of
      positive length that enclose none of their name that ends later than they begin. */
  lemma OwnFoundHidesNothing(zpl: seq<Event>, close: map<nat, nat>, b: Event, lo: real, hi: real)
    requires Closes(zpl, close, ThreadOf(b)) && OwnNest(zpl, close, ThreadOf(b))
    requires OwnFound(zpl, close, b, lo, hi)
    ensures NothingHidden(zpl, close, b, lo, hi)
  {
    forall x: nat, k | x < |zpl| && IsChild(zpl[x], b, lo, hi) && FirstAtTime(zpl, x) &&
                       k in close && k < |zpl| && IsChild(zpl[k], b, lo, hi) && close[k] < |zpl|
      ensures !Hides(zpl, close, x, k)
    {
      if Hides(zpl, close, x, k) {
        InsideOwn(zpl, close, ThreadOf(b), x, k);
      }
    }
  }

  /** What begins inside an interval and not before it ends inside it. */
  lemma InsideOwn(zpl: seq<Event>, close: map<nat, nat>, th: Thread, x: nat, k: nat)
    requires Closes(zpl, close, th) && OwnNest(zpl, close, th)
    requires x in close && k in close && x < |zpl| && k < |zpl| && close[x] < |zpl| && close[k] < |zpl|
    requires FirstAtTime(zpl, x) && zpl[x].ts <= zpl[k].ts < zpl[close[x]].ts
    ensures zpl[close[k]].ts <= zpl[close[x]].ts
  {
    InOrderAt(zpl, close, th, x, k);
    if x < k {
      assert close[x] < k || close[k] < close[x];
    }
  }

  lemma InOrderAt(zpl: seq<Event>, close: map<nat, nat>, th: Thread, x: nat, k: nat)
    requires Closes(zpl, close, th) && x in close && k in close
    ensures x < close[x] < |zpl| && k < close[k] < |zpl|
    ensures FirstAtTime(zpl, x) && zpl[x].ts <= zpl[k].ts ==> x <= k
    ensures close[x] < k ==> zpl[close[x]].ts <= zpl[k].ts
    ensures close[k] < close[x] ==> zpl[close[k]].ts <= zpl[close[x]].ts
  {
    assert Begins(zpl[x], th) && Begins(zpl[k], th);
    assert IsEndOf(zpl[close[x]], zpl[x]) && IsEndOf(zpl[close[k]], zpl[k]);
    assert OfThread(zpl[x], th.tid) && OfThread(zpl[k], th.tid);
    assert OfThread(zpl[close[x]], th.tid) && OfThread(zpl[close[k]], th.tid);
  }

  // ------------------------------------------------------------ the extended end

  function Min(a: real, b: real): real {
    if a <= b then a else b
  }

  /** The child found first comes first in time. */
  lemma FirstChildIsFirst(zpl: seq<Event>, b: Event, hi: real, cursor: real, k: nat)
    requires EventsInOrder(zpl, b.tid) && FirstChild(zpl, b, cursor, hi, 0) == k
    ensures FirstAtTime(zpl, k)
    ensures forall y: nat :: y < |zpl| && IsChild(zpl[y], b, cursor, hi) ==> zpl[k].ts <= zpl[y].ts
  {
    assert IsChild(zpl[k], b, cursor, hi);
    forall y: nat | y < |zpl| && IsChild(zpl[y], b, cursor, hi)
      ensures zpl[k].ts <= zpl[y].ts
    {
      assert k <= y && OfThread(zpl[k], b.tid) && OfThread(zpl[y], b.tid);
    }
    forall y: nat | y < k && OnThread(zpl[y], zpl[k]) && zpl[y].ph == Begin
      ensures zpl[y].ts != zpl[k].ts
    {
      assert !IsChild(zpl[y], b, cursor, hi);
    }
  }

  /** A visited child accounts for a child that begins before its end. */
  lemma VisitedCoversOne(zpl: seq<Event>, close: map<nat, nat>, b: Event, end: real, cursor: real, lo: real,
                         hi: real, k: nat, y: nat)
    requires Closes(zpl, close, ThreadOf(b)) && NothingHidden(zpl, close, b, lo, hi) && lo <= cursor && hi <= end
    requires FirstChild(zpl, b, cursor, end, 0) == k
    requires y in close && y < |zpl| && IsChild(zpl[y], b, cursor, hi)
    requires var m := FirstLaterEnd(zpl, zpl[k], 0); m == -1 || zpl[y].ts < zpl[m].ts
    ensures close[y] < |zpl|
    ensures var m := FirstLaterEnd(zpl, zpl[k], 0);
            zpl[close[y]].ts <= hi || (m != -1 && zpl[close[y]].ts <= zpl[m].ts)
  {
    FirstChildIsFirst(zpl, b, end, cursor, k);
    InOrderAt(zpl, close, ThreadOf(b), y, y);
    hide Closes, FirstAtTime, FirstChild, FirstLaterEnd;
    assert IsChild(zpl[y], b, cursor, end) && IsChild(zpl[y], b, lo, hi);
    assert IsChild(zpl[k], b, lo, hi);
    assert zpl[close[y]].ts > hi ==> !Hides(zpl, close, k, y);
  }

  /** ... and so for all children up to its end. */
  lemma VisitedCovers(zpl: seq<Event>, close: map<nat, nat>, b: Event, end: real, cursor: real, lo: real,
                      hi: real, to: real, bound: real)
    requires Closes(zpl, close, ThreadOf(b)) && NothingHidden(zpl, close, b, lo, hi)
    requires lo <= cursor && hi <= end <= bound && Contained(zpl, close, b, lo, Min(cursor, hi), end)
    requires var k := FirstChild(zpl, b, cursor, end, 0);
             && k != -1
             && var m := FirstLaterEnd(zpl, zpl[k], 0);
                if m == -1 then to == hi else to == Min(zpl[m].ts, hi) && bound >= zpl[m].ts
    ensures Contained(zpl, close, b, lo, to, bound)
  {
    var k := FirstChild(zpl, b, cursor, end, 0);
    hide Closes, NothingHidden, FirstChild, FirstLaterEnd;
    forall y | y in close && y < |zpl| && IsChild(zpl[y], b, lo, to)
      ensures close[y] < |zpl| && zpl[close[y]].ts <= bound
    {
      if zpl[y].ts < cursor {
        assert IsChild(zpl[y], b, lo, Min(cursor, hi));
      } else {
        VisitedCoversOne(zpl, close, b, end, cursor, lo, hi, k, y);
      }
    }
  }

  lemma NoChildLeft(zpl: seq<Event>, close: map<nat, nat>, b: Event, end: real, cursor: real, lo: real, hi: real)
    requires Contained(zpl, close, b, lo, Min(cursor, hi), end) && hi <= end
    requires FirstChild(zpl, b, cursor, end, 0) == -1
    ensures Contained(zpl, close, b, lo, hi, end)
  {
    forall x | x in close && x < |zpl| && IsChild(zpl[x], b, lo, hi)
      ensures close[x] < |zpl| && zpl[close[x]].ts <= end
    {
      assert !IsChild(zpl[x], b, cursor, end);
      assert IsChild(zpl[x], b, lo, Min(cursor, hi));
    }
  }

  /** Visiting only some children is enough if nothing is hidden: for the span `[lo, hi)`, also
      when the end has been moved beyond it before. */
  lemma {:induction false} ExtendContains(zpl: seq<Event>, close: map<nat, nat>, b: Event, end: real, cursor: real,
                                          lo: real, hi: real)
    requires Closes(zpl, close, ThreadOf(b)) && NothingHidden(zpl, close, b, lo, hi)
    requires lo <= cursor && hi <= end && Contained(zpl, close, b, lo, Min(cursor, hi), end)
    ensures Contained(zpl, close, b, lo, hi, Extend(zpl, b, end, cursor))
    decreases Later(zpl, cursor)
  {
    hide Closes, NothingHidden, Contained;
    var k := FirstChild(zpl, b, cursor, end, 0);
    if k == -1 {
      NoChildLeft(zpl, close, b, end, cursor, lo, hi);
    } else {
      var m := FirstLaterEnd(zpl, zpl[k], 0);
      if m == -1 {
        VisitedCovers(zpl, close, b, end, cursor, lo, hi, hi, end);
      } else if zpl[m].ts <= end {
        LaterLess(zpl, cursor, zpl[m].ts, m);
        VisitedCovers(zpl, close, b, end, cursor, lo, hi, Min(zpl[m].ts, hi), end);
        ExtendContains(zpl, close, b, end, zpl[m].ts, lo, hi);
      } else {
        VisitedCovers(zpl, close, b, end, cursor, lo, hi, Min(zpl[m].ts, hi), zpl[m].ts);
      }
    }
  }

  lemma NothingYet(zpl: seq<Event>, close: map<nat, nat>, b: Event, hi: real, end: real)
    ensures Contained(zpl, close, b, b.ts, Min(b.ts, hi), end)
  {
  }

  lemma {:induction false} ExtendIsEnough(zpl: seq<Event>, close: map<nat, nat>, b: Event, end: real, cursor: real,
                                          bound: real)
    requires OwnFound(zpl, close, b, b.ts, end) && b.ts <= cursor && end <= bound
    requires Contained(zpl, close, b, b.ts, end, bound)
    ensures Extend(zpl, b, end, cursor) <= bound
    decreases Later(zpl, cursor)
  {
    var k := FirstChild(zpl, b, cursor, end, 0);
    if k != -1 {
      var m := FirstLaterEnd(zpl, zpl[k], 0);
      assert IsChild(zpl[k], b, b.ts, end);
      if m != -1 && zpl[m].ts <= end {
        LaterLess(zpl, cursor, zpl[m].ts, m);
        ExtendIsEnough(zpl, close, b, end, zpl[m].ts, bound);
      }
    }
  }

  /** Main result. If every Zephelin begin inside an event finds its own end, the event's end is
      moved to exactly the least time that is not earlier and by which all of them have ended. */
  lemma {:induction false} ExtendIsLeast(zpl: seq<Event>, close: map<nat, nat>, b: Event, end: real)
    requires Closes(zpl, close, ThreadOf(b)) && OwnNest(zpl, close, ThreadOf(b))
    requires OwnFound(zpl, close, b, b.ts, end)
    ensures var r := Extend(zpl, b, end, b.ts);
            && r >= end && Contained(zpl, close, b, b.ts, end, r)
            && forall bound: real :: bound >= end && Contained(zpl, close, b, b.ts, end, bound) ==> r <= bound
  {
    hide Extend;
    OwnFoundHidesNothing(zpl, close, b, b.ts, end);
    hide Closes, OwnNest, OwnFound, Contained, NothingHidden;
    ExtendGrows(zpl, b, end, b.ts);
    NothingYet(zpl, close, b, end, end);
    ExtendContains(zpl, close, b, end, b.ts, b.ts, end);
    forall bound: real | bound >= end && Contained(zpl, close, b, b.ts, end, bound)
      ensures Extend(zpl, b, end, b.ts) <= bound
    {
      ExtendIsEnough(zpl, close, b, end, b.ts, bound);
    }
  }

  /** Once a begin has been looked at, what begins inside the original span ends by the end that
      has then been reached. */
  lemma {:induction false} ContainedAt(instr: seq<Event>, zpl: seq<Event>, close: map<nat, nat>, i: nat, n: nat)
    requires i < n <= |instr| && instr[i].ph == Begin && FirstEnd(instr, instr[i], i + 1) != -1
    requires Closes(zpl, close, ThreadOf(instr[i]))
    requires NothingHidden(zpl, close, instr[i], instr[i].ts, instr[FirstEnd(instr, instr[i], i + 1)].ts)
    ensures var j := FirstEnd(instr, instr[i], i + 1);
            Contained(zpl, close, instr[i], instr[i].ts, instr[j].ts, EndTime(instr, zpl, j, n))
  {
    var j := FirstEnd(instr, instr[i], i + 1);
    var b, e, final := instr[i], EndTime(instr, zpl, j, i), EndTime(instr, zpl, j, n);
    EndTimeGrows(instr, zpl, j, 0, i);
    EndTimeGrows(instr, zpl, j, i + 1, n);
    hide Closes, NothingHidden, Extend;
    if b.ts <= instr[j].ts {
      NothingYet(zpl, close, b, instr[j].ts, e);
      ExtendContains(zpl, close, b, e, b.ts, b.ts, instr[j].ts);
      assert final >= Extend(zpl, b, e, b.ts);
    }
  }

  /** Main result. Every Zephelin interval that begins inside the original span of an
      instrumentation event ends by the end that event finally has, if nothing is hidden there. */
  lemma {:induction false} ChildrenContained(instr: seq<Event>, zpl: seq<Event>, close: map<nat, nat>, i: nat)
    requires i < |instr| && instr[i].ph == Begin && FirstEnd(instr, instr[i], i + 1) != -1
    requires Closes(zpl, close, ThreadOf(instr[i]))
    requires NothingHidden(zpl, close, instr[i], instr[i].ts, instr[FirstEnd(instr, instr[i], i + 1)].ts)
    ensures var j := FirstEnd(instr, instr[i], i + 1);
            Contained(zpl, close, instr[i], instr[i].ts, instr[j].ts, FixAll(instr, zpl).trace[j].ts)
  {
    EndTimeIs(instr, zpl, FirstEnd(instr, instr[i], i + 1), |instr|);
    ContainedAt(instr, zpl, close, i, |instr|);
  }

  /** Main result. A begin does not find its first later end too early, although it is, if an
      earlier begin with the same first later end has moved it for an interval that lasts long
      enough: what has been moved is looked at, not what was there at first. */
  lemma {:induction false} MovedInTime(instr: seq<Event>, zpl: seq<Event>, close: map<nat, nat>, i: nat, k: nat, x: nat)
    requires i < k < |instr| && instr[i].ph == Begin && instr[k].ph == Begin
    requires FirstEnd(instr, instr[i], i + 1) == FirstEnd(instr, instr[k], k + 1) != -1
    requires Closes(zpl, close, ThreadOf(instr[i]))
    requires NothingHidden(zpl, close, instr[i], instr[i].ts, instr[FirstEnd(instr, instr[i], i + 1)].ts)
    requires x in close && x < |zpl| && close[x] < |zpl| && zpl[close[x]].ts >= instr[k].ts
    requires IsChild(zpl[x], instr[i], instr[i].ts, instr[FirstEnd(instr, instr[i], i + 1)].ts)
    ensures !Marks(instr, zpl, k, FirstEnd(instr, instr[k], k + 1))
  {
    var j := FirstEnd(instr, instr[i], i + 1);
    ContainedAt(instr, zpl, close, i, k);
    hide Closes, NothingHidden, Extend, EndTime;
  }

  // ------------------------------------------------- exactly when nothing is missed

  /** The time at which an event must end for the interval at `k` to be missed behind `x`. */
  function MissingEnd(zpl: seq<Event>, close: map<nat, nat>, x: nat, k: nat): real
    requires x < |zpl| && k in close && k < |zpl| && close[k] < |zpl|
  {
    var m := FirstLaterEnd(zpl, zpl[x], 0);
    if m == -1 then (zpl[k].ts + zpl[close[k]].ts) / 2.0 else zpl[m].ts
  }

  /** An event that begins with a begin that hides an interval, and ends inside that. */
  lemma {:induction false} HiddenIsMissed(zpl: seq<Event>, close: map<nat, nat>, b: Event, x: nat, k: nat)
    requires EventsInOrder(zpl, b.tid) && x < |zpl| && k in close && k < |zpl| && close[k] < |zpl|
    requires Begins(zpl[x], ThreadOf(b)) && Begins(zpl[k], ThreadOf(b)) && FirstAtTime(zpl, x)
    requires Hides(zpl, close, x, k) && b.ts == zpl[x].ts
    ensures var end := MissingEnd(zpl, close, x, k);
            b.ts <= end && Extend(zpl, b, end, b.ts) == end && !Contained(zpl, close, b, b.ts, end, end)
  {
    var end := MissingEnd(zpl, close, x, k);
    var m := FirstLaterEnd(zpl, zpl[x], 0);
    assert b.ts < end && IsChild(zpl[x], b, b.ts, end) && IsChild(zpl[k], b, b.ts, end);
    var first := FirstChild(zpl, b, b.ts, end, 0);
    assert first <= x;
    FirstChildIsFirst(zpl, b, end, b.ts, first);
    assert zpl[first].ts == zpl[x].ts;
    assert first == x;
    if m != -1 {
      assert FirstChild(zpl, b, zpl[m].ts, end, 0) == -1;
      LaterLess(zpl, b.ts, zpl[m].ts, m);
      assert Extend(zpl, b, end, zpl[m].ts) == end;
    }
  }

  /** Main result. Every event of a thread, whenever it begins and ends, is extended over all
      intervals that begin inside it if and only if no lookup hides an interval. */
  lemma {:induction false} AllSpansIff(zpl: seq<Event>, close: map<nat, nat>, th: Thread)
    requires Closes(zpl, close, th)
    ensures (forall b: Event, end: real :: ThreadOf(b) == th ==>
               Contained(zpl, close, b, b.ts, end, Extend(zpl, b, end, b.ts))) <==>
            NeverHidden(zpl, close, th)
  {
    hide Contained, Extend, Hides, FirstAtTime, EventsInOrder, OwnEnds.Ended;
    if NeverHidden(zpl, close, th) {
      forall b: Event, end: real | ThreadOf(b) == th
        ensures Contained(zpl, close, b, b.ts, end, Extend(zpl, b, end, b.ts))
      {
        NeverHiddenInSpan(zpl, close, b, b.ts, end);
        NothingYet(zpl, close, b, end, end);
        ExtendContains(zpl, close, b, end, b.ts, b.ts, end);
      }
    } else {
      var x: nat, k :| x < |zpl| && Begins(zpl[x], th) && FirstAtTime(zpl, x) && k in close && k < |zpl| &&
                       Begins(zpl[k], th) && close[k] < |zpl| && Hides(zpl, close, x, k);
      HiddenIsMissed(zpl, close, zpl[x], x, k);
    }
  }

  // -------------------------------------------------------- events and their own ends

  /** After the pass, Zephelin intervals that begin inside the event end inside it. */
  ghost predicate OwnContained(instr: seq<Event>, own: map<nat, nat>, k: nat, zpl: seq<Event>, close: map<nat, nat>)
    requires k in own && k < |instr| && own[k] < |instr|
  {
    Contained(zpl, close, instr[k], instr[k].ts, instr[own[k]].ts, FixAll(instr, zpl).trace[own[k]].ts)
  }

  /** No lookup inside the event hides an interval that ends behind it. */
  ghost predicate NothingHiddenIn(instr: seq<Event>, own: map<nat, nat>, k: nat, zpl: seq<Event>,
                                  close: map<nat, nat>)
    requires k in own && k < |instr| && own[k] < |instr|
  {
    NothingHidden(zpl, close, instr[k], instr[k].ts, instr[own[k]].ts)
  }

  lemma OwnChildrenContained(instr: seq<Event>, own: map<nat, nat>, th: Thread, k: nat, zpl: seq<Event>,
                             close: map<nat, nat>)
    requires Paired(instr, own, th) && k in own && k < |instr| && own[k] < |instr|
    requires Closes(zpl, close, th) && NothingHiddenIn(instr, own, k, zpl, close)
    requires !EnclosesNamesake(instr, own, k)
    ensures OwnContained(instr, own, k, zpl, close)
  {
    PairedAt(instr, own, th, k);
    assert ThreadOf(instr[k]) == th;
    hide Paired, EnclosesNamesake, Closes, NothingHidden, Contained;
    FirstEndIsOwnIff(instr, own, th, k);
    ChildrenContained(instr, zpl, close, k);
  }

  /** No event of the thread encloses one of its own name. */
  ghost predicate NoNamesakes(instr: seq<Event>, own: map<nat, nat>) {
    forall k :: k in own ==> !EnclosesNamesake(instr, own, k)
  }

  /** The own end of an event is then the first later end of that event and of no other. */
  lemma OnlyOwnEnd(instr: seq<Event>, own: map<nat, nat>, th: Thread, k: nat, i: nat)
    requires Paired(instr, own, th) && NoNamesakes(instr, own) && k in own && k < |instr| && own[k] < |instr|
    requires i < |instr| && instr[i].ph == Begin
    ensures FirstEnd(instr, instr[i], i + 1) == own[k] <==> i == k
  {
    PairedAt(instr, own, th, k);
    if i == k {
      FirstEndIsOwnIff(instr, own, th, k);
    } else if FirstEnd(instr, instr[i], i + 1) == own[k] {
      assert Begins(instr[i], th) && i in own;
      FirstEndIsOwnIff(instr, own, th, i);
      NestAt(instr, own, th, k, i);
    }
  }

  lemma {:induction false} OwnEndTime(instr: seq<Event>, own: map<nat, nat>, th: Thread, k: nat, zpl: seq<Event>,
                                      n: nat)
    requires Paired(instr, own, th) && NoNamesakes(instr, own) && k in own && k < |instr| && own[k] < |instr|
    requires instr[k].ph == Begin && instr[k].ts <= instr[own[k]].ts && n <= |instr|
    ensures EndTime(instr, zpl, own[k], n)
         == if n <= k then instr[own[k]].ts else Extend(zpl, instr[k], instr[own[k]].ts, instr[k].ts)
    decreases n
  {
    hide Paired, NoNamesakes, Extend, FirstEnd;
    if n > 0 {
      OwnEndTime(instr, own, th, k, zpl, n - 1);
      if instr[n - 1].ph == Begin {
        OnlyOwnEnd(instr, own, th, k, n - 1);
      }
    }
  }

  /** `k` begins on the thread between two times, the first included. */
  predicate BeginsWithin(zpl: seq<Event>, th: Thread, k: nat, from: real, to: real) {
    k < |zpl| && Begins(zpl[k], th) && from <= zpl[k].ts < to
  }

  /** Main result. On a well-nested thread without recursion, if every Zephelin begin inside an
      event finds its own end, the event's final end is its original one or the end of an
      interval that begins inside it, whichever is the latest. */
  lemma {:induction false} OwnEndIsLatest(instr: seq<Event>, own: map<nat, nat>, th: Thread, k: nat, zpl: seq<Event>,
                                          close: map<nat, nat>)
    requires Paired(instr, own, th) && NoNamesakes(instr, own) && k in own && k < |instr| && own[k] < |instr|
    requires instr[k].ts <= instr[own[k]].ts
    requires Closes(zpl, close, th) && OwnNest(zpl, close, th)
    requires OwnFound(zpl, close, instr[k], instr[k].ts, instr[own[k]].ts)
    ensures var from, to, r := instr[k].ts, instr[own[k]].ts, FixAll(instr, zpl).trace[own[k]].ts;
            && r >= to
            && (forall x :: x in close && BeginsWithin(zpl, th, x, from, to) ==>
                  close[x] < |zpl| && zpl[close[x]].ts <= r)
            && (r != to ==> exists x ::
                  x in close && BeginsWithin(zpl, th, x, from, to) && close[x] < |zpl| && zpl[close[x]].ts == r)
  {
    var b, end := instr[k], instr[own[k]].ts;
    PairedAt(instr, own, th, k);
    assert ThreadOf(b) == th;
    EndTimeIs(instr, zpl, own[k], |instr|);
    OwnEndTime(instr, own, th, k, zpl, |instr|);
    ExtendIsLeast(zpl, close, b, end);
    hide Extend, EndTime, Paired, NoNamesakes, Closes, OwnNest, FixUpTo;
    var r := FixAll(instr, zpl).trace[own[k]].ts;
    assert r == Extend(zpl, b, end, b.ts);
    forall x | x in close && BeginsWithin(zpl, th, x, b.ts, end)
      ensures close[x] < |zpl| && zpl[close[x]].ts <= r
    {
      assert IsChild(zpl[x], b, b.ts, end);
    }
    if r != end {
      var x := LatestChild(zpl, close, b, end, b.ts);
    }
  }

  /** A moved end is the end of an interval that begins inside the event. */
  lemma {:induction false} LatestChild(zpl: seq<Event>, close: map<nat, nat>, b: Event, end: real, cursor: real)
      returns (x: nat)
    requires OwnFound(zpl, close, b, b.ts, end) && b.ts <= cursor && Extend(zpl, b, end, cursor) != end
    ensures x in close && BeginsWithin(zpl, ThreadOf(b), x, b.ts, end)
    ensures close[x] < |zpl| && zpl[close[x]].ts == Extend(zpl, b, end, cursor)
    decreases Later(zpl, cursor)
  {
    x := FirstChild(zpl, b, cursor, end, 0);
    var m := FirstLaterEnd(zpl, zpl[x], 0);
    assert IsChild(zpl[x], b, b.ts, end);
    if zpl[m].ts <= end {
      LaterLess(zpl, cursor, zpl[m].ts, m);
      x := LatestChild(zpl, close, b, end, zpl[m].ts);
    }
  }

  /** A Zephelin interval that begins with the event and ends after it. */
  function Longer(b: Event, end: real): seq<Event> {
    [b, b.(ph := End, ts := end + 1.0)]
  }

  lemma LongerIsInterval(b: Event, end: real)
    requires b.ph == Begin && b.ts < end
    ensures Closes(Longer(b, end), map[0 := 1], ThreadOf(b)) && NeverHidden(Longer(b, end), map[0 := 1], ThreadOf(b))
  {
    var zpl, close: map<nat, nat> := Longer(b, end), map[0 := 1];
    assert 0 in close && close[0] == 1;
    assert FirstLaterEnd(zpl, zpl[0], 0) == 1;
  }

  lemma NotContained(instr: seq<Event>, own: map<nat, nat>, th: Thread, k: nat)
    requires Paired(instr, own, th) && k in own && k < |instr| && own[k] < |instr|
    requires EnclosesNamesake(instr, own, k) && instr[k].ts < instr[own[k]].ts
    ensures !OwnContained(instr, own, k, Longer(instr[k], instr[own[k]].ts), map[0 := 1])
  {
    var b, end := instr[k], instr[own[k]].ts;
    var zpl := Longer(b, end);
    PairedAt(instr, own, th, k);
    EndTimeIs(instr, zpl, own[k], |instr|);
    NeverMoved(instr, own, th, zpl, k, |instr|);
    hide FixUpTo, EndTime;
    var close: map<nat, nat> := map[0 := 1];
    assert 0 in close && IsChild(zpl[0], b, b.ts, end) && close[0] == 1 && zpl[1].ts > end;
  }

  /** Main result. For an event of a well-nested thread, the intervals that begin inside it end
      inside it after the pass, for all Zephelin traces that hide nothing in it, if and only if
      it encloses no event of its own name (or has no positive length). */
  lemma {:induction false} OwnContainedIff(instr: seq<Event>, own: map<nat, nat>, th: Thread, k: nat)
    requires Paired(instr, own, th) && k in own && k < |instr| && own[k] < |instr|
    ensures (forall zpl, close :: Closes(zpl, close, th) && NothingHiddenIn(instr, own, k, zpl, close) ==>
               OwnContained(instr, own, k, zpl, close)) <==>
            (!EnclosesNamesake(instr, own, k) || instr[own[k]].ts <= instr[k].ts)
  {
    PairedAt(instr, own, th, k);
    var b, end := instr[k], instr[own[k]].ts;
    assert ThreadOf(b) == th;
    if !EnclosesNamesake(instr, own, k) || end <= b.ts {
      hide Closes, NothingHidden;
      forall zpl, close | Closes(zpl, close, th) && NothingHiddenIn(instr, own, k, zpl, close)
        ensures OwnContained(instr, own, k, zpl, close)
      {
        if end > b.ts {
          OwnChildrenContained(instr, own, th, k, zpl, close);
        }
      }
    } else {
      hide Closes, NothingHidden, NeverHidden, Contained, EnclosesNamesake;
      NotContained(instr, own, th, k);
      LongerIsInterval(b, end);
      NeverHiddenInSpan(Longer(b, end), map[0 := 1], b, b.ts, end);
      assert NothingHiddenIn(instr, own, k, Longer(b, end), map[0 := 1]);
    }
  }

  // ------------------------------------------------------------------- one call

  /** One function that is called once. */
  function Call(f: string, th: Thread, from: real, to: real): seq<Event> {
    [Event(f, th.tid, th.pid, Begin, from), Event(f, th.tid, th.pid, End, to)]
  }

  lemma CallFixed(f: string, th: Thread, from: real, to: real, zpl: seq<Event>)
    requires from <= to
    ensures var b := Call(f, th, from, to)[0];
            FixAll(Call(f, th, from, to), zpl) == Fixed(Call(f, th, from, Extend(zpl, b, to, from)), [])
  {
    hide Extend;
    var instr := Call(f, th, from, to);
    var fixed := Call(f, th, from, Extend(zpl, instr[0], to, from));
    assert FirstEnd(instr, instr[0], 1) == 1;
    assert FixUpTo(instr, zpl, 0) == Fixed(instr, []);
    assert instr[1 := instr[1].(ts := fixed[1].ts)] == fixed;
    assert FixUpTo(instr, zpl, 1) == Fixed(fixed, []);
    assert FixUpTo(instr, zpl, 2) == Fixed(fixed, []);
  }

  lemma CallPaired(f: string, th: Thread, from: real, to: real)
    ensures Paired(Call(f, th, from, to), map[0 := 1], th)
    ensures !EnclosesNamesake(Call(f, th, from, to), map[0 := 1], 0)
  {
    var own: map<nat, nat> := map[0 := 1];
    assert 0 in own && own[0] == 1;
  }

  lemma CallMisses(f: string, zpl: seq<Event>, close: map<nat, nat>, th: Thread, x: nat, k: nat)
    requires Closes(zpl, close, th) && x < |zpl| && k in close && k < |zpl| && close[k] < |zpl|
    requires Begins(zpl[x], th) && Begins(zpl[k], th) && FirstAtTime(zpl, x) && Hides(zpl, close, x, k)
    ensures var instr := Call(f, th, zpl[x].ts, MissingEnd(zpl, close, x, k));
            !OwnContained(instr, map[0 := 1], 0, zpl, close)
  {
    var end := MissingEnd(zpl, close, x, k);
    var instr := Call(f, th, zpl[x].ts, end);
    HiddenIsMissed(zpl, close, instr[0], x, k);
    hide Hides, Extend, Contained, MissingEnd;
    CallFixed(f, th, zpl[x].ts, end, zpl);
  }

  /** Main result. For a Zephelin trace, every event of any well-nested instrumentation thread
      that encloses no namesake contains what begins inside it after the pass if and only if no
      lookup hides an interval. */
  lemma {:induction false} ZephelinTraceIff(zpl: seq<Event>, close: map<nat, nat>, th: Thread)
    requires Closes(zpl, close, th)
    ensures (forall instr: seq<Event>, own: map<nat, nat>, k: nat ::
               Paired(instr, own, th) && k in own && k < |instr| && own[k] < |instr| &&
               !EnclosesNamesake(instr, own, k) ==>
                 OwnContained(instr, own, k, zpl, close)) <==>
            NeverHidden(zpl, close, th)
  {
    hide Paired, EnclosesNamesake, Hides, FirstAtTime, Closes, Contained;
    if NeverHidden(zpl, close, th) {
      forall instr: seq<Event>, own: map<nat, nat>, k: nat
        | Paired(instr, own, th) && k in own && k < |instr| && own[k] < |instr| && !EnclosesNamesake(instr, own, k)
        ensures OwnContained(instr, own, k, zpl, close)
      {
        PairedAt(instr, own, th, k);
        NeverHiddenInSpan(zpl, close, instr[k], instr[k].ts, instr[own[k]].ts);
        OwnChildrenContained(instr, own, th, k, zpl, close);
      }
    } else {
      var x: nat, k :| x < |zpl| && Begins(zpl[x], th) && FirstAtTime(zpl, x) && k in close && k < |zpl| &&
                       Begins(zpl[k], th) && close[k] < |zpl| && Hides(zpl, close, x, k);
      var f := zpl[x].name;
      CallPaired(f, th, zpl[x].ts, MissingEnd(zpl, close, x, k));
      CallMisses(f, zpl, close, th, x, k);
    }
  }

  /** After both repairs: on a thread whose events were a window of something well nested every
      begin has its own end, and contains what begins inside it unless it encloses a namesake
      or a lookup inside it hides something. */
  lemma {:induction false} AdjustedContained(instr: seq<Event>, th: Thread, zpl: seq<Event>, close: map<nat, nat>)
      returns (own: map<nat, nat>)
    requires IsWindow(On(instr, th)) && Closes(zpl, close, th)
    ensures Paired(Repaired(instr), own, th)
    ensures forall k :: k in own ==> k < |Repaired(instr)| && own[k] < |Repaired(instr)|
    ensures forall k :: k in own && !EnclosesNamesake(Repaired(instr), own, k) &&
                        NothingHiddenIn(Repaired(instr), own, k, zpl, close) ==>
              OwnContained(Repaired(instr), own, k, zpl, close)
  {
    var repaired := Repaired(instr);
    var _, _ := RepairedWindow(instr, th);
    own := NestedIsPaired(repaired, th);
    hide IsWindow, Closes, EnclosesNamesake, OwnContained, NothingHiddenIn, Repaired, On, Paired;
    forall k | k in own
      ensures k < |repaired| && own[k] < |repaired|
      ensures !EnclosesNamesake(repaired, own, k) && NothingHiddenIn(repaired, own, k, zpl, close) ==>
                OwnContained(repaired, own, k, zpl, close)
    {
      PairedAt(repaired, own, th, k);
      if !EnclosesNamesake(repaired, own, k) && NothingHiddenIn(repaired, own, k, zpl, close) {
        OwnChildrenContained(repaired, own, th, k, zpl, close);
      }
    }
  }

  // ------------------------------------------------ what a Zephelin trace can hide

  /** The event from 0 to 10 keeps its end although an interval of the nested Zephelin trace
      begins inside it and ends at 20. */
  ghost predicate MissedAt(f: string, zpl: seq<Event>, close: map<nat, nat>, k: nat) {
    var th := Thread(1, 0);
    var instr := Call(f, th, 0.0, 10.0);
    && Closes(zpl, close, th) && OwnNest(zpl, close, th) && EndsListed(zpl, close, th)
    && FixAll(instr, zpl) == Fixed(instr, [])
    && k in close && k < |zpl| && close[k] < |zpl|
    && IsChild(zpl[k], instr[0], 0.0, 10.0) && zpl[close[k]].ts == 20.0
  }

  /** A begin without an end, as truncated traces have them, ends the search for children. */
  lemma UnfinishedScopeHidesChild(f: string, z: string, y: string)
    requires z != y
    ensures MissedAt(f, [Event(z, 1, 0, Begin, 1.0), Event(y, 1, 0, Begin, 6.0), Event(y, 1, 0, End, 20.0)],
                     map[1 := 2], 1)
  {
    var zpl := [Event(z, 1, 0, Begin, 1.0), Event(y, 1, 0, Begin, 6.0), Event(y, 1, 0, End, 20.0)];
    var close: map<nat, nat> := map[1 := 2];
    assert 1 in close && close[1] == 2;
    var b := Call(f, Thread(1, 0), 0.0, 10.0)[0];
    assert FirstChild(zpl, b, 0.0, 10.0, 0) == 0 && FirstLaterEnd(zpl, zpl[0], 0) == -1;
    CallFixed(f, Thread(1, 0), 0.0, 10.0, zpl);
  }

  /** So does an interval of no length, whose end is not later than its begin. */
  lemma EmptyScopeHidesChild(f: string, z: string, y: string)
    requires z != y
    ensures MissedAt(f, [Event(z, 1, 0, Begin, 5.0), Event(z, 1, 0, End, 5.0),
                         Event(y, 1, 0, Begin, 6.0), Event(y, 1, 0, End, 20.0)], map[0 := 1, 2 := 3], 2)
  {
    var zpl := [Event(z, 1, 0, Begin, 5.0), Event(z, 1, 0, End, 5.0),
                Event(y, 1, 0, Begin, 6.0), Event(y, 1, 0, End, 20.0)];
    var close: map<nat, nat> := map[0 := 1, 2 := 3];
    assert 0 in close && close[0] == 1 && 2 in close && close[2] == 3;
    var b := Call(f, Thread(1, 0), 0.0, 10.0)[0];
    assert FirstChild(zpl, b, 0.0, 10.0, 0) == 0 && FirstLaterEnd(zpl, zpl[0], 0) == -1;
    CallFixed(f, Thread(1, 0), 0.0, 10.0, zpl);
  }

  /** For an interval that encloses one of its name the end of that is looked up. */
  lemma ReenteredScopeHidesItself(f: string, z: string)
    ensures MissedAt(f, [Event(z, 1, 0, Begin, 1.0), Event(z, 1, 0, Begin, 2.0),
                         Event(z, 1, 0, End, 3.0), Event(z, 1, 0, End, 20.0)], map[0 := 3, 1 := 2], 0)
  {
    var zpl := [Event(z, 1, 0, Begin, 1.0), Event(z, 1, 0, Begin, 2.0),
                Event(z, 1, 0, End, 3.0), Event(z, 1, 0, End, 20.0)];
    var close: map<nat, nat> := map[0 := 3, 1 := 2];
    assert 0 in close && close[0] == 3 && 1 in close && close[1] == 2;
    var b := Call(f, Thread(1, 0), 0.0, 10.0)[0];
    assert IsLaterEndOf(zpl[2], zpl[0]);
    assert FirstChild(zpl, b, 0.0, 10.0, 0) == 0 && FirstLaterEnd(zpl, zpl[0], 0) == 2;
    LaterLess(zpl, 0.0, 3.0, 2);
    assert FirstChild(zpl, b, 3.0, 10.0, 0) == -1;
    CallFixed(f, Thread(1, 0), 0.0, 10.0, zpl);
  }

  // --------------------------------------------------------------- a recursive call

  /** A function that calls itself, and a Zephelin interval that begins inside the outer call
      and ends behind it: in time order and well nested, yet nothing is moved. */
  lemma RecursionNotContained(f: string, z: string)
    ensures var b := Event(f, 1, 0, Begin, 0.0);
            var instr := [b, b.(ts := 1.0), b.(ph := End, ts := 2.0), b.(ph := End, ts := 10.0)];
            var zpl := [Event(z, 1, 0, Begin, 5.0), Event(z, 1, 0, End, 12.0)];
            && AllEventsInOrder(instr) && WellNested(On(instr, Thread(1, 0)))
            && Closes(zpl, map[0 := 1], Thread(1, 0)) && NeverHidden(zpl, map[0 := 1], Thread(1, 0))
            && FixAll(instr, zpl) == Fixed(instr, [])
            && IsChild(zpl[0], instr[0], instr[0].ts, instr[3].ts) && zpl[1].ts > instr[3].ts
  {
    var b := Event(f, 1, 0, Begin, 0.0);
    var instr := [b, b.(ts := 1.0), b.(ph := End, ts := 2.0), b.(ph := End, ts := 10.0)];
    var zpl := [Event(z, 1, 0, Begin, 5.0), Event(z, 1, 0, End, 12.0)];
    RecursionNested(f);
    var close: map<nat, nat> := map[0 := 1];
    assert 0 in close && close[0] == 1 && FirstLaterEnd(zpl, zpl[0], 0) == 1;
    assert FirstEnd(instr, instr[0], 2) == 2 && FirstEnd(instr, instr[0], 1) == 2 && FirstEnd(instr, instr[1], 2) == 2;
    NoChildBefore(zpl, instr[0], 0.0);
    NoChildBefore(zpl, instr[1], 1.0);
    assert instr[2 := instr[2].(ts := 2.0)] == instr;
    assert FixUpTo(instr, zpl, 0) == Fixed(instr, []);
    assert FixUpTo(instr, zpl, 1) == Fixed(instr, []);
    assert FixUpTo(instr, zpl, 2) == Fixed(instr, []);
    assert FixUpTo(instr, zpl, 3) == Fixed(instr, []);
    assert FixUpTo(instr, zpl, 4) == Fixed(instr, []);
  }

  lemma NoChildBefore(zpl: seq<Event>, b: Event, cursor: real)
    requires forall k :: 0 <= k < |zpl| ==> zpl[k].ts >= 2.0
    ensures Extend(zpl, b, 2.0, cursor) == 2.0
  {
  }

  lemma RecursionNested(f: string)
    ensures var b := Event(f, 1, 0, Begin, 0.0);
            WellNested(On([b, b.(ts := 1.0), b.(ph := End, ts := 2.0), b.(ph := End, ts := 10.0)], Thread(1, 0)))
  {
    var th, n, b := Thread(1, 0), f, Event(f, 1, 0, Begin, 0.0);
    var inner, e1, e2 := b.(ts := 1.0), b.(ph := End, ts := 2.0), b.(ph := End, ts := 10.0);
    var t1, t2, t3 := [b], [b, inner], [b, inner, e1];
    hide On, Nest;
    NothingOn(th);
    assert [] + [b] == t1 && t1 + [inner] == t2 && t2 + [e1] == t3 && t3 + [e2] == [b, inner, e1, e2];
    OnSnoc([], b, th);
    NestSnoc([], [], b);
    assert On(t1, th) == t1 && Nest([], t1) == Some([n] + []);
    OnSnoc(t1, inner, th);
    NestSnoc([], t1, inner);
    assert On(t2, th) == t2 && Nest([], t2) == Some([n] + ([n] + []));
    OnSnoc(t2, e1, th);
    NestSnoc([], t2, e1);
    Popped(n, [n] + []);
    assert On(t3, th) == t3 && Nest([], t3) == Some([n] + []);
    OnSnoc(t3, e2, th);
    NestSnoc([], t3, e2);
    Popped(n, []);
  }

  lemma Popped(n: string, rest: seq<string>)
    ensures ([n] + rest)[0] == n && ([n] + rest)[1..] == rest
  {
  }

  lemma NothingOn(th: Thread)
    ensures On([], th) == [] && Nest([], []) == Some([])
  {
  }
}
