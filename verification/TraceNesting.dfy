/** Repairing a window of a well-nested trace gives a well-nested trace again. */
module TraceNesting {
  import opened Sequences
  import opened Options
  import opened TraceEvents
  import opened TraceRepair

  datatype Thread = Thread(tid: int, pid: int)

  predicate Of(e: Event, th: Thread) {
    e.tid == th.tid && e.pid == th.pid && e.ph != Metadata
  }

  /** The begins and ends of one thread. */
  function On(trace: seq<Event>, th: Thread): seq<Event> {
    if trace == [] then []
    else if Of(Last(trace), th) then On(Init(trace), th) + [Last(trace)]
    else On(Init(trace), th)
  }

  /** Names of the open begins of one thread, the latest first. */
  function Names(open: seq<EventHash>, th: Thread): seq<string> {
    if open == [] then []
    else if open[0].tid == th.tid && open[0].pid == th.pid then [open[0].name] + Names(open[1..], th)
    else Names(open[1..], th)
  }

  function Push(stack: seq<string>, e: Event): Option<seq<string>> {
    if e.ph == Begin then Some([e.name] + stack)
    else if stack != [] && stack[0] == e.name then Some(stack[1..])
    else None
  }

  /** Runs begins and ends against a stack of names: every end must close the latest begin. */
  function Nest(stack: seq<string>, w: seq<Event>): Option<seq<string>> {
    if w == [] then Some(stack)
    else
      var s := Nest(stack, Init(w));
      if s == None then None else Push(s.value, Last(w))
  }

  ghost predicate WellNested(w: seq<Event>) {
    Nest([], w) == Some([])
  }

  /** Part of some longer, well-nested trace. */
  ghost predicate IsWindow(w: seq<Event>) {
    exists pre: seq<Event>, post: seq<Event> :: WellNested(pre + w + post)
  }

  lemma {:induction false} NestAppend(stack: seq<string>, a: seq<Event>, b: seq<Event>)
    ensures Nest(stack, a + b) == if Nest(stack, a) == None then None else Nest(Nest(stack, a).value, b)
    decreases |b|
  {
    if b == [] {
      assert a + b == a;
    } else {
      assert Init(a + b) == a + Init(b);
      NestAppend(stack, a, Init(b));
    }
  }

  /** A window starts with some begins already open. */
  lemma WindowStack(w: seq<Event>) returns (stack: seq<string>)
    requires IsWindow(w)
    ensures Nest(stack, w) != None
  {
    var pre, post :| WellNested(pre + w + post);
    NestAppend([], pre + w, post);
    NestAppend([], pre, w);
    stack := Nest([], pre).value;
  }

  lemma NestSnoc(stack: seq<string>, w: seq<Event>, e: Event)
    ensures Nest(stack, w + [e]) == if Nest(stack, w) == None then None else Push(Nest(stack, w).value, e)
  {
    assert Init(w + [e]) == w;
  }

  lemma OnSnoc(trace: seq<Event>, e: Event, th: Thread)
    ensures On(trace + [e], th) == if Of(e, th) then On(trace, th) + [e] else On(trace, th)
  {
    assert Init(trace + [e]) == trace;
  }

  /** Closing a begin of a thread: the first occurrence in the list of all open begins is
      the latest of that thread if it is the latest by name, and other threads keep theirs. */
  lemma {:induction false} NamesRemove(open: seq<EventHash>, h: EventHash, th: Thread)
    requires h in open
    ensures h.tid == th.tid && h.pid == th.pid && Names(open, th) != [] && Names(open, th)[0] == h.name ==>
              Names(open, th) == [h.name] + Names(RemoveFirst(open, h), th)
    ensures !(h.tid == th.tid && h.pid == th.pid) ==> Names(RemoveFirst(open, h), th) == Names(open, th)
    decreases |open|
  {
    if open[0] != h {
      NamesRemove(open[1..], h, th);
      var rest := RemoveFirst(open[1..], h);
      assert ([open[0]] + rest)[1..] == rest;
    }
  }

  lemma {:induction false} NamesMember(open: seq<EventHash>, th: Thread, n: string)
    ensures n in Names(open, th) <==> EventHash(n, th.tid, th.pid) in open
    decreases |open|
  {
    if open != [] {
      NamesMember(open[1..], th, n);
      assert open == [open[0]] + open[1..];
    }
  }

  /** The real stack of a window: the begins seen in it, on top of those before it. What is
      kept nests by itself and leaves exactly the begins seen in the window open. */
  ghost predicate Tracks(trace: seq<Event>, th: Thread, stack: seq<string>, k: nat) {
    && k <= |stack|
    && Nest(stack, On(trace, th)) == Some(Names(Open(trace), th) + stack[k..])
    && Nest([], On(Kept(trace), th)) == Some(Names(Open(trace), th))
  }

  /** One more event of the window. */
  lemma TracksNext(before: seq<Event>, e: Event, th: Thread, stack: seq<string>, k: nat) returns (k': nat)
    requires Tracks(before, th, stack, k)
    requires Nest(stack, On(before + [e], th)) != None
    ensures Tracks(before + [e], th, stack, k')
    ensures k' == if Unmatched(Open(before), e) && Of(e, th) then k + 1 else k
  {
    hide Open, Kept, On, Nest;
    ScanNext(before, e);
    OnSnoc(before, e, th);
    OnSnoc(Kept(before), e, th);
    NestSnoc(stack, On(before, th), e);
    NestSnoc([], On(Kept(before), th), e);
    k' := k;
    var open, names := Open(before), Names(Open(before), th);
    if e.ph == Begin {
      BeginNames(open, e, th, stack[k..]);
    } else if e.ph == End {
      k' := EndNames(open, e, th, stack, k);
    }
  }

  lemma BeginNames(open: seq<EventHash>, e: Event, th: Thread, below: seq<string>)
    requires e.ph == Begin
    ensures Of(e, th) ==> Names([Hash(e)] + open, th) == [e.name] + Names(open, th)
    ensures Of(e, th) ==> [e.name] + (Names(open, th) + below) == ([e.name] + Names(open, th)) + below
    ensures !Of(e, th) ==> Names([Hash(e)] + open, th) == Names(open, th)
  {
    assert ([Hash(e)] + open)[1..] == open;
  }

  lemma EndNames(open: seq<EventHash>, e: Event, th: Thread, stack: seq<string>, k: nat) returns (k': nat)
    requires e.ph == End && k <= |stack|
    requires Of(e, th) ==> Push(Names(open, th) + stack[k..], e) != None
    ensures k' == if Unmatched(open, e) && Of(e, th) then k + 1 else k
    ensures k' <= |stack|
    ensures Of(e, th) ==> Push(Names(open, th) + stack[k..], e) == Some(Names(Next(open, e), th) + stack[k'..])
    ensures Of(e, th) && !Unmatched(open, e) ==> Push(Names(open, th), e) == Some(Names(Next(open, e), th))
    ensures Of(e, th) && Unmatched(open, e) ==> Names(Next(open, e), th) == Names(open, th)
    ensures !Of(e, th) ==> Names(Next(open, e), th) == Names(open, th)
  {
    var names := Names(open, th);
    NamesMember(open, th, e.name);
    k' := k;
    if !Unmatched(open, e) {
      NamesRemove(open, Hash(e), th);
      if Of(e, th) {
        assert names != [];
        assert names[0] == (names + stack[k..])[0];
        assert (names + stack[k..])[1..] == names[1..] + stack[k..];
      }
    } else if Of(e, th) {
      assert names == [];
      assert names + stack[k..] == stack[k..];
      assert stack[k..][1..] == stack[k + 1..];
      assert names + stack[k + 1..] == stack[k + 1..];
      k' := k + 1;
    }
  }

  lemma NothingTracked(th: Thread, stack: seq<string>)
    ensures Tracks([], th, stack, 0) && |On([], th)| == |On(Kept([]), th)|
  {
    assert [] + stack[0..] == stack;
  }

  lemma {:induction false} WindowTracks(trace: seq<Event>, th: Thread, stack: seq<string>) returns (k: nat)
    requires Nest(stack, On(trace, th)) != None
    ensures Tracks(trace, th, stack, k)
    ensures |On(trace, th)| == |On(Kept(trace), th)| + k
    decreases |trace|
  {
    hide Tracks, On, Nest, Kept, Open, Unmatched;
    if trace == [] {
      k := 0;
      NothingTracked(th, stack);
    } else {
      var before, e := Init(trace), Last(trace);
      assert trace == before + [e];
      assert Nest(stack, On(before, th)) != None by {
        OnSnoc(before, e, th);
        NestSnoc(stack, On(before, th), e);
      }
      var k0 := WindowTracks(before, th, stack);
      k := TracksNext(before, e, th, stack, k0);
      OneDropped(before, e, th);
    }
  }

  lemma OneDropped(before: seq<Event>, e: Event, th: Thread)
    ensures |On(before + [e], th)| - |On(before, th)|
         == |On(Kept(before + [e]), th)| - |On(Kept(before), th)|
              + if Unmatched(Open(before), e) && Of(e, th) then 1 else 0
  {
    ScanNext(before, e);
    OnSnoc(before, e, th);
    OnSnoc(Kept(before), e, th);
  }

  /** The added ends close the open begins of a thread, the latest first. */
  lemma {:induction false} ClosingsNest(t: seq<Event>, trace: seq<Event>, open: seq<EventHash>, th: Thread)
    requires Nest([], On(t, th)) == Some(Names(open, th))
    ensures Nest([], On(t + Closings(trace, open), th)) == Some([])
    decreases |open|
  {
    hide Nest, On, LastTs;
    if open == [] {
      assert t + Closings(trace, open) == t;
    } else {
      var e, rest := Closing(trace, open[0]), open[1..];
      OnSnoc(t, e, th);
      NestSnoc([], On(t, th), e);
      var tail := Names(rest, th);
      assert [open[0].name] + tail == Names(open, th) || tail == Names(open, th);
      assert ([open[0].name] + tail)[1..] == tail;
      ClosingsNest(t + [e], trace, rest, th);
      assert t + ([e] + Closings(trace, rest)) == (t + [e]) + Closings(trace, rest);
    }
  }

  /** Main result. If what a thread did is a window of something well nested, then in the
      repaired trace what it did is well nested; and the ends that are dropped on it are as
      many as the begins it closed that lie before the window. */
  lemma RepairedWindow(trace: seq<Event>, th: Thread) returns (stack: seq<string>, dropped: nat)
    requires IsWindow(On(trace, th))
    ensures WellNested(On(Repaired(trace), th))
    ensures dropped <= |stack| && |On(Kept(trace), th)| + dropped == |On(trace, th)|
    ensures Nest(stack, On(trace, th)) == Some(Names(Open(trace), th) + stack[dropped..])
  {
    stack := WindowStack(On(trace, th));
    dropped := WindowTracks(trace, th, stack);
    ClosingsNest(Kept(trace), Kept(trace), Open(trace), th);
  }
}
