/** Instrumentation messages on a console: payloads between a start tag and an end tag are
    extracted from text that arrives in arbitrary chunks. */
module Instrumentation {
  import opened Sequences
  import opened Splitting

  /** `-*-INSTR-INIT-*-` and a line end, `-*-#`, and `-*-!` and a line end. */
  const INIT_TAG: seq<byte> :=
    [0x2d, 0x2a, 0x2d, 0x49, 0x4e, 0x53, 0x54, 0x52, 0x2d, 0x49, 0x4e, 0x49, 0x54, 0x2d, 0x2a, 0x2d, 0x0d, 0x0a]
  const START_TAG: seq<byte> := [0x2d, 0x2a, 0x2d, 0x23]
  const END_TAG: seq<byte> := [0x2d, 0x2a, 0x2d, 0x21, 0x0d, 0x0a]

  const KEPT := |INIT_TAG|

  /** Whether a message is being received; at first that is not known. */
  datatype Mode = Unknown | Outside | Inside

  datatype Capture = Capture(mode: Mode, buff: seq<byte>, file: seq<byte>)

  /** The tag that ends what the mode says is being received. */
  function Awaited(inside: bool): seq<byte> {
    if inside then END_TAG else START_TAG
  }

  /** `payload`: the finished payloads; then what follows the last tag, and whether that is
      inside a message. */
  datatype Scanned = Scanned(payload: seq<byte>, inside: bool, rest: seq<byte>)

  /** A finished piece `a` goes to the payload when it is inside a message. */
  function Add(inside: bool, a: seq<byte>, r: Scanned): Scanned {
    if inside then r.(payload := a + r.payload) else r
  }

  /** Scanning that stopped at `r` and went on to `q`. */
  function Then(r: Scanned, q: Scanned): Scanned {
    q.(payload := r.payload + q.payload)
  }

  /** The reference: cut at the start tag and the end tag by turns. */
  function Scan(inside: bool, s: seq<byte>): (r: Scanned)
    ensures Find(Awaited(r.inside), r.rest) == -1
    decreases |s|
  {
    var i := Find(Awaited(inside), s);
    if i == -1 then Scanned([], inside, s)
    else Add(inside, s[..i], Scan(!inside, s[i + |Awaited(inside)|..]))
  }

  /** The last bytes, which are held back. */
  function Keep(s: seq<byte>): (r: seq<byte>)
    ensures r == s || |r| == KEPT < |s|
    ensures |r| <= |s| && r == s[|s| - |r|..]
  {
    if |s| > KEPT then s[|s| - KEPT..] else s
  }

  function Written(s: seq<byte>): seq<byte> {
    s[..|s| - |Keep(s)|]
  }

  /** What the file and the buffer are to be once the bytes `s` are scanned. */
  function Settled(file: seq<byte>, inside: bool, s: seq<byte>): Capture {
    Finish(file, Scan(inside, s))
  }

  function Finish(file: seq<byte>, r: Scanned): Capture {
    if r.inside then Capture(Inside, Keep(r.rest), file + r.payload + Written(r.rest))
    else Capture(Outside, Keep(r.rest), file + r.payload)
  }

  /** One pass over the buffer. As long as the mode is not known, a start tag anywhere in the
      buffer goes first, then an end tag. */
  function Process(c: Capture): Capture {
    if c.mode != Unknown then Settled(c.file, c.mode == Inside, c.buff)
    else if Find(START_TAG, c.buff) != -1 then Settled(c.file, false, c.buff)
    else if Find(END_TAG, c.buff) != -1 then Settled(c.file, true, c.buff)
    else c.(buff := Keep(c.buff))
  }

  function Receive(c: Capture, chunk: seq<byte>): Capture {
    Process(c.(buff := c.buff + chunk))
  }

  function ReceiveAll(c: Capture, chunks: seq<seq<byte>>): Capture
    decreases |chunks|
  {
    if chunks == [] then c else ReceiveAll(Receive(c, chunks[0]), chunks[1..])
  }

  // -------------------------------------------------- scanning incrementally

  /** Cutting at a tag that is found. */
  lemma ScanAt(inside: bool, a: seq<byte>, rest: seq<byte>)
    requires Find(Awaited(inside), a + Awaited(inside) + rest) == |a|
    ensures Scan(inside, a + Awaited(inside) + rest) == Add(inside, a, Scan(!inside, rest))
  {
    var s := a + Awaited(inside) + rest;
    assert s[..|a|] == a;
    assert s[|a| + |Awaited(inside)|..] == rest;
  }

  lemma AddThen(inside: bool, a: seq<byte>, r: Scanned, q: Scanned)
    ensures Then(Add(inside, a, r), q) == Add(inside, a, Then(r, q))
  {
    assert (a + r.payload) + q.payload == a + (r.payload + q.payload);
  }

  lemma AddAdd(inside: bool, d: seq<byte>, a: seq<byte>, r: Scanned)
    ensures Add(inside, d + a, r) == Add(inside, d, Add(inside, a, r))
  {
    assert (d + a) + r.payload == d + (a + r.payload);
  }

  /** What was cut stays cut; only the rest is scanned again. */
  lemma {:induction false} ScanAppend(inside: bool, s: seq<byte>, t: seq<byte>)
    ensures var r := Scan(inside, s);
            Scan(inside, s + t) == Then(r, Scan(r.inside, r.rest + t))
    decreases |s|
  {
    var tag := Awaited(inside);
    if Find(tag, s) == -1 {
      assert [] + Scan(inside, s + t).payload == Scan(inside, s + t).payload;
    } else {
      var a, rest := s[..Find(tag, s)], s[Find(tag, s) + |tag|..];
      FindSplits(tag, s);
      FindAppend(tag, s, t);
      ScanAppend(!inside, rest, t);
      ScanAppendAt(inside, a, rest, t);
    }
  }

  lemma {:induction false} ScanAppendAt(inside: bool, a: seq<byte>, rest: seq<byte>, t: seq<byte>)
    requires var s := a + Awaited(inside) + rest;
             Find(Awaited(inside), s) == |a| == Find(Awaited(inside), s + t)
    requires var r := Scan(!inside, rest);
             Scan(!inside, rest + t) == Then(r, Scan(r.inside, r.rest + t))
    ensures var s := a + Awaited(inside) + rest;
            var r := Scan(inside, s);
            Scan(inside, s + t) == Then(r, Scan(r.inside, r.rest + t))
  {
    hide Scan, Find, FindFrom, Then;
    var s, r := a + Awaited(inside) + rest, Scan(!inside, rest);
    assert s + t == a + Awaited(inside) + (rest + t);
    ScanAt(inside, a, rest);
    ScanAt(inside, a, rest + t);
    AddThen(inside, a, r, Scan(r.inside, r.rest + t));
  }

  /** Bytes in which no awaited tag starts belong to the first thing that is cut off. */
  lemma {:induction false} ScanDrop(inside: bool, d: seq<byte>, s: seq<byte>)
    requires forall i :: 0 <= i < |d| ==> !TagAt(Awaited(inside), d + s, i)
    ensures if Find(Awaited(inside), s) == -1 then Scan(inside, d + s) == Scanned([], inside, d + s)
            else Scan(inside, d + s) == Add(inside, d, Scan(inside, s))
  {
    var tag := Awaited(inside);
    FindShift(tag, d, s);
    if Find(tag, s) != -1 {
      var a, rest := s[..Find(tag, s)], s[Find(tag, s) + |tag|..];
      FindSplits(tag, s);
      Assoc(d, a, tag, rest);
      hide Scan, FindFrom, Awaited, Add;
      ScanAt(inside, a, rest);
      ScanAt(inside, d + a, rest);
      AddAdd(inside, d, a, Scan(!inside, rest));
    }
  }

  /** Holding back the last bytes is enough: what was written out cannot begin a tag. */
  lemma WrittenHasNoTag(inside: bool, rest: seq<byte>, t: seq<byte>)
    requires Find(Awaited(inside), rest) == -1
    ensures rest + t == Written(rest) + (Keep(rest) + t)
    ensures forall i :: 0 <= i < |Written(rest)| ==> !TagAt(Awaited(inside), Written(rest) + (Keep(rest) + t), i)
  {
    assert rest + t == Written(rest) + (Keep(rest) + t);
    forall i | 0 <= i < |Written(rest)|
      ensures !TagAt(Awaited(inside), rest + t, i)
    {
      TagAtPrefix(Awaited(inside), rest, t, i);
    }
  }

  lemma {:induction false} KeepSuffix(d: seq<byte>, x: seq<byte>)
    requires d == [] || |x| >= KEPT
    ensures Keep(d + x) == Keep(x)
    ensures Written(d + x) == d + Written(x)
  {
    assert d == [] ==> d + x == x;
    assert |x| >= KEPT ==> (d + x)[|d + x| - KEPT..] == x[|x| - KEPT..];
  }

  lemma KeepKeep(s: seq<byte>, t: seq<byte>)
    ensures Keep(Keep(s) + t) == Keep(s + t)
    ensures Written(s) + Written(Keep(s) + t) == Written(s + t)
  {
    assert s + t == Written(s) + (Keep(s) + t);
    KeepSuffix(Written(s), Keep(s) + t);
  }

  /** The state after the bytes `s` depends on `s` only. */
  lemma ReceiveFinish(r: Scanned, chunk: seq<byte>)
    ensures Receive(Finish([], r), chunk) == Finish(Finish([], r).file, Scan(r.inside, Keep(r.rest) + chunk))
  {
    hide Scan, Find, FindFrom, Keep, Written;
  }

  lemma {:induction false} ReceiveSettled(s: seq<byte>, chunk: seq<byte>)
    ensures Receive(Settled([], false, s), chunk) == Settled([], false, s + chunk)
  {
    hide Receive, Finish, Then, Add, Keep, Written, Find, FindFrom;
    var r := Scan(false, s);
    var x := Keep(r.rest) + chunk;
    ReceiveFinish(r, chunk);
    ScanAppend(false, s, chunk);
    WrittenHasNoTag(r.inside, r.rest, chunk);
    ScanDrop(r.inside, Written(r.rest), x);
    if Find(Awaited(r.inside), x) == -1 {
      FinishRest(r, chunk);
    } else {
      FinishThen(r, Scan(r.inside, x));
    }
  }

  lemma {:induction false} FinishRest(r: Scanned, chunk: seq<byte>)
    ensures Finish([], Then(r, Scanned([], r.inside, r.rest + chunk)))
         == Finish(Finish([], r).file, Scanned([], r.inside, Keep(r.rest) + chunk))
  {
    hide Keep, Written;
    var p, w, v := r.payload, Written(r.rest), Written(Keep(r.rest) + chunk);
    KeepKeep(r.rest, chunk);
    assert [] + (p + []) + (w + v) == ([] + p + w) + [] + v;
    assert [] + (p + []) == ([] + p) + [];
  }

  lemma FinishThen(r: Scanned, q: Scanned)
    ensures Finish([], Then(r, Add(r.inside, Written(r.rest), q))) == Finish(Finish([], r).file, q)
  {
    hide Keep, Written;
    var p, w, v := r.payload, Written(r.rest), Written(q.rest);
    assert [] + (p + (w + q.payload)) == ([] + p + w) + q.payload;
    assert [] + (p + q.payload) == ([] + p) + q.payload;
  }

  lemma {:induction false} ReceiveAllSettled(s: seq<byte>, chunks: seq<seq<byte>>)
    ensures ReceiveAll(Settled([], false, s), chunks) == Settled([], false, s + Concat(chunks))
    decreases |chunks|
  {
    hide Settled, Receive;
    if chunks == [] {
      assert s + Concat(chunks) == s;
    } else {
      ReceiveSettled(s, chunks[0]);
      ReceiveAllSettled(s + chunks[0], chunks[1..]);
      assert s + Concat(chunks) == s + chunks[0] + Concat(chunks[1..]);
    }
  }

  /** Main result. Starting outside a message, for every stream and every chunking, file and
      buffer are what scanning the whole stream at once calls for. */
  lemma ChunkingDoesNotMatter(chunks: seq<seq<byte>>)
    ensures ReceiveAll(Capture(Outside, [], []), chunks) == Settled([], false, Concat(chunks))
  {
    FindNone(START_TAG, []);
    assert Settled([], false, []) == Capture(Outside, [], []);
    ReceiveAllSettled([], chunks);
    assert [] + Concat(chunks) == Concat(chunks);
  }

  // ------------------------------------------------- well-formed conversations

  /** Text, message, text, message, ..., text. */
  function Session(texts: seq<seq<byte>>, payloads: seq<seq<byte>>): seq<byte>
    requires |texts| == |payloads| + 1
  {
    if payloads == [] then texts[0]
    else texts[0] + START_TAG + (payloads[0] + END_TAG + Session(texts[1..], payloads[1..]))
  }

  /** Neither tag overlaps itself. */
  lemma NoBorder(inside: bool, m: nat)
    requires 1 <= m < |Awaited(inside)|
    ensures exists t :: m <= t < |Awaited(inside)| && Awaited(inside)[t] != Awaited(inside)[t - m]
  {
    var tag := Awaited(inside);
    if m == 2 {
      assert tag[3] != tag[3 - m];
    } else {
      assert tag[m] != tag[m - m];
    }
  }

  /** Without the tag in it, a text ends where its tag begins. */
  lemma FirstTag(inside: bool, a: seq<byte>, rest: seq<byte>)
    requires Find(Awaited(inside), a) == -1
    ensures Find(Awaited(inside), a + Awaited(inside) + rest) == |a|
  {
    var tag := Awaited(inside);
    var s := a + tag;
    assert s[|a|..|a| + |tag|] == tag;
    forall i | 0 <= i < |a|
      ensures !TagAt(tag, s, i)
    {
      if i + |tag| <= |a| {
        TagAtPrefix(tag, a, tag, i);
      } else {
        NoBorder(inside, |a| - i);
        var t :| |a| - i <= t < |tag| && tag[t] != tag[t - (|a| - i)];
        assert s[i..i + |tag|][t] == s[i + t] == tag[t - (|a| - i)];
      }
    }
    FindIs(tag, s, |a|);
    FindAppend(tag, s, rest);
  }

  lemma {:induction false} SessionScan(texts: seq<seq<byte>>, payloads: seq<seq<byte>>)
    requires |texts| == |payloads| + 1
    requires forall t :: t in texts ==> Find(START_TAG, t) == -1
    requires forall p :: p in payloads ==> Find(END_TAG, p) == -1
    ensures Scan(false, Session(texts, payloads)) == Scanned(Concat(payloads), false, Last(texts))
    decreases |payloads|
  {
    if payloads != [] {
      var later := Session(texts[1..], payloads[1..]);
      SessionScan(texts[1..], payloads[1..]);
      FirstTag(true, payloads[0], later);
      ScanAt(true, payloads[0], later);
      FirstTag(false, texts[0], payloads[0] + END_TAG + later);
      ScanAt(false, texts[0], payloads[0] + END_TAG + later);
    } else {
      assert texts[0] in texts;
    }
  }

  /** Main result. When texts hold no start tag and payloads no end tag, then for every
      chunking the file is the payloads, one after the other. */
  lemma {:induction false} PayloadsExtracted(texts: seq<seq<byte>>, payloads: seq<seq<byte>>, chunks: seq<seq<byte>>)
    requires |texts| == |payloads| + 1
    requires forall t :: t in texts ==> Find(START_TAG, t) == -1
    requires forall p :: p in payloads ==> Find(END_TAG, p) == -1
    requires Concat(chunks) == Session(texts, payloads)
    ensures ReceiveAll(Capture(Outside, [], []), chunks) == Capture(Outside, Keep(Last(texts)), Concat(payloads))
  {
    hide Find, FindFrom, Session, Scan, Keep, Written;
    SessionScan(texts, payloads);
    ChunkingDoesNotMatter(chunks);
    assert [] + Concat(payloads) == Concat(payloads);
  }

  // --------------------------------------------------------- an unknown start

  /** No end tag is complete before the first start tag is. */
  ghost predicate StartsFirst(s: seq<byte>) {
    var i := Find(START_TAG, s);
    Find(END_TAG, if i == -1 then s else s[..i + |START_TAG| - 1]) == -1
  }

  lemma NoEarlyEnd(s: seq<byte>, rest: seq<byte>)
    requires StartsFirst(s + rest) && Find(START_TAG, s) == -1
    ensures Find(END_TAG, s) == -1
  {
    var all, i := s + rest, Find(START_TAG, s + rest);
    var early := if i == -1 then all else all[..i + |START_TAG| - 1];
    if i != -1 && i + |START_TAG| <= |s| {
      TagAtPrefix(START_TAG, s, rest, i);
    }
    assert early == s + early[|s|..];
    if Find(END_TAG, s) != -1 {
      FindAppend(END_TAG, s, early[|s|..]);
    }
  }

  /** The text that is taken for a payload when the chunks begin behind the bytes `s`: up to the
      first tag seen, if that is an end tag, what is still buffered before it. */
  function Early(s: seq<byte>, chunks: seq<seq<byte>>): seq<byte>
    decreases |chunks|
  {
    if chunks == [] then []
    else
      var x := Keep(s) + chunks[0];
      if Find(START_TAG, s + chunks[0]) != -1 then []
      else if Find(END_TAG, x) != -1 then x[..Find(END_TAG, x)]
      else Early(s + chunks[0], chunks[1..])
  }

  function Behind(file: seq<byte>, c: Capture): Capture {
    c.(file := file + c.file)
  }

  /** Once the mode is known, what is in the file already does not matter. */
  lemma ReceiveBehind(file: seq<byte>, c: Capture, chunk: seq<byte>)
    requires c.mode != Unknown
    ensures Receive(Behind(file, c), chunk) == Behind(file, Receive(c, chunk)) && Receive(c, chunk).mode != Unknown
  {
    hide Scan, Find, FindFrom, Keep, Written;
    var r := Scan(c.mode == Inside, c.buff + chunk);
    assert (file + c.file) + r.payload + Written(r.rest) == file + (c.file + r.payload + Written(r.rest));
    assert (file + c.file) + r.payload == file + (c.file + r.payload);
  }

  lemma {:induction false} ReceiveAllBehind(file: seq<byte>, c: Capture, chunks: seq<seq<byte>>)
    requires c.mode != Unknown
    ensures ReceiveAll(Behind(file, c), chunks) == Behind(file, ReceiveAll(c, chunks))
    decreases |chunks|
  {
    hide Receive, Behind;
    if chunks != [] {
      ReceiveBehind(file, c, chunks[0]);
      ReceiveAllBehind(file, Receive(c, chunks[0]), chunks[1..]);
    }
  }

  /** No start tag reaches across an end tag. */
  lemma NoStartAcross(d: seq<byte>, y: seq<byte>, rest: seq<byte>)
    requires Find(START_TAG, d + END_TAG + y) == -1
    ensures forall i :: 0 <= i < |d + END_TAG| ==> !TagAt(START_TAG, (d + END_TAG) + (y + rest), i)
  {
    var e := d + END_TAG;
    var all := e + (y + rest);
    assert all == (e + y) + rest;
    forall i | 0 <= i < |e|
      ensures !TagAt(START_TAG, all, i)
    {
      if i + |START_TAG| <= |e| + |y| {
        TagAtPrefix(START_TAG, e + y, rest, i);
      } else if i + |START_TAG| <= |all| {
        var k := |e| - 1 - i;
        assert all[i..i + |START_TAG|][k] == all[|e| - 1] == END_TAG[|END_TAG| - 1] != START_TAG[k];
      }
    }
  }

  /** Bytes up to an end tag, without a start tag: scanning may as well begin behind them. */
  lemma ScanBehindEnd(d: seq<byte>, y: seq<byte>, rest: seq<byte>)
    requires Find(START_TAG, d + END_TAG + y) == -1
    ensures Settled([], false, d + END_TAG + y + rest).file == Settled([], false, y + rest).file
  {
    NoStartAcross(d, y, rest);
    hide Find, FindFrom;
    assert d + END_TAG + y + rest == (d + END_TAG) + (y + rest);
    ScanDrop(false, d + END_TAG, y + rest);
  }

  /** The state after the chunks, for all of which, and the bytes `s` before them, the mode was
      not known at first. */
  function Outcome(s: seq<byte>, chunks: seq<seq<byte>>): Capture
    decreases |chunks|
  {
    if chunks == [] then Capture(Unknown, Keep(s), [])
    else
      var x := Keep(s) + chunks[0];
      var i := Find(END_TAG, x);
      if Find(START_TAG, s + chunks[0]) != -1 then Settled([], false, s + Concat(chunks))
      else if i != -1 then Behind(x[..i], Settled([], false, x[i + |END_TAG|..] + Concat(chunks[1..])))
      else Outcome(s + chunks[0], chunks[1..])
  }

  lemma {:induction false} OutcomeIs(s: seq<byte>, chunks: seq<seq<byte>>)
    requires Find(START_TAG, s) == -1
    ensures ReceiveAll(Capture(Unknown, Keep(s), []), chunks) == Outcome(s, chunks)
    decreases |chunks|
  {
    hide Scan, Find, FindFrom, Keep, Finish;
    if chunks != [] {
      var c, later := chunks[0], chunks[1..];
      var x := Keep(s) + c;
      var i := Find(END_TAG, x);
      Assoc3(s, c, Concat(later));
      SameStart(s, c);
      if Find(START_TAG, s + c) != -1 {
        ReceiveAllSettled(s + c, later);
      } else if i != -1 {
        EndSeen(x);
        KnownMode(x[i + |END_TAG|..]);
        hide Settled, Behind;
        ReceiveAllBehind(x[..i], Settled([], false, x[i + |END_TAG|..]), later);
        ReceiveAllSettled(x[i + |END_TAG|..], later);
      } else {
        KeepKeep(s, c);
        OutcomeIs(s + c, later);
      }
    }
  }

  /** Whether there is a start tag, and what is scanned from it, shows in the buffer. */
  lemma SameStart(s: seq<byte>, c: seq<byte>)
    requires Find(START_TAG, s) == -1
    ensures Find(START_TAG, Keep(s) + c) == -1 <==> Find(START_TAG, s + c) == -1
    ensures Find(START_TAG, s + c) != -1 ==> Scan(false, Keep(s) + c) == Scan(false, s + c)
  {
    WrittenHasNoTag(false, s, c);
    FindShift(START_TAG, Written(s), Keep(s) + c);
    ScanDrop(false, Written(s), Keep(s) + c);
  }

  lemma EndSeen(x: seq<byte>)
    requires Find(START_TAG, x) == -1 && Find(END_TAG, x) != -1
    ensures var i := Find(END_TAG, x);
            Settled([], true, x) == Behind(x[..i], Settled([], false, x[i + |END_TAG|..]))
  {
    var i := Find(END_TAG, x);
    var a, y := x[..i], x[i + |END_TAG|..];
    FindSplits(END_TAG, x);
    assert x == (a + END_TAG) + y;
    NoTagInSuffix(START_TAG, a + END_TAG, y);
    hide Find, FindFrom;
    Step([], true, x);
    Idle([], false, y);
    Idle([] + a, false, y);
    assert [] + a == a && a + [] == a;
  }

  lemma KnownMode(s: seq<byte>)
    ensures Settled([], false, s).mode != Unknown
  {
  }

  /** The text that is taken for a payload goes in front of what is in the file otherwise. */
  ghost predicate TextInFront(s: seq<byte>, chunks: seq<seq<byte>>) {
    Outcome(s, chunks).file == Early(s, chunks) + Settled([], false, s + Concat(chunks)).file
  }

  lemma NoChunks(s: seq<byte>)
    requires Find(START_TAG, s) == -1
    ensures TextInFront(s, [])
  {
    assert s + Concat([]) == s;
    hide Find, FindFrom;
    Idle([], false, s);
  }

  /** The first chunk decides, or the next ones do. */
  lemma FirstChunk(s: seq<byte>, chunks: seq<seq<byte>>)
    requires chunks != []
    requires Find(START_TAG, s + chunks[0]) == -1 && Find(END_TAG, Keep(s) + chunks[0]) == -1 ==>
               TextInFront(s + chunks[0], chunks[1..])
    ensures TextInFront(s, chunks)
  {
    hide Settled, Keep, Find, FindFrom;
    var c, later := chunks[0], Concat(chunks[1..]);
    Assoc3(s, c, later);
    if Find(START_TAG, s + c) != -1 {
      var known := Settled([], false, s + Concat(chunks)).file;
      assert [] + known == known;
    } else if Find(END_TAG, Keep(s) + c) != -1 {
      FileBehindEnd(s, c, later);
    }
  }

  lemma {:induction false} OutcomeFile(s: seq<byte>, chunks: seq<seq<byte>>)
    requires Find(START_TAG, s) == -1
    ensures TextInFront(s, chunks)
    decreases |chunks|
  {
    hide TextInFront, Find, FindFrom, Keep;
    if chunks == [] {
      NoChunks(s);
    } else {
      if Find(START_TAG, s + chunks[0]) == -1 {
        OutcomeFile(s + chunks[0], chunks[1..]);
      }
      FirstChunk(s, chunks);
    }
  }

  lemma FileBehindEnd(s: seq<byte>, c: seq<byte>, later: seq<byte>)
    requires Find(START_TAG, s + c) == -1 && Find(END_TAG, Keep(s) + c) != -1
    ensures var x := Keep(s) + c;
            Settled([], false, x[Find(END_TAG, x) + |END_TAG|..] + later).file
              == Settled([], false, (s + c) + later).file
  {
    hide Settled, FindFrom;
    var x := Keep(s) + c;
    var i := Find(END_TAG, x);
    var y := x[i + |END_TAG|..];
    FindSplits(END_TAG, x);
    assert s + c == Written(s) + x;
    Assoc(Written(s), x[..i], END_TAG, y);
    ScanBehindEnd(Written(s) + x[..i], y, later);
  }

  /** Main result. Starting without knowing whether a message is being sent, for every stream
      and every chunking, the file is what it would be otherwise behind the text that is taken
      for a payload; so it is the same if and only if there is no such text. */
  lemma {:induction false} UnknownStartIff(chunks: seq<seq<byte>>)
    ensures var file := ReceiveAll(Capture(Unknown, [], []), chunks).file;
            var known := Settled([], false, Concat(chunks)).file;
            file == Early([], chunks) + known && (file == known <==> Early([], chunks) == [])
  {
    FindNone(START_TAG, []);
    assert [] + Concat(chunks) == Concat(chunks);
    OutcomeIs([], chunks);
    OutcomeFile([], chunks);
  }

  lemma {:induction false} OutcomeStarts(s: seq<byte>, chunks: seq<seq<byte>>)
    requires StartsFirst(s + Concat(chunks)) && Find(START_TAG, s) == -1
    ensures var all := s + Concat(chunks);
            Outcome(s, chunks)
              == if Find(START_TAG, all) == -1 then Capture(Unknown, Keep(all), []) else Settled([], false, all)
    decreases |chunks|
  {
    hide Find, FindFrom, StartsFirst, Settled, Keep, Behind;
    if chunks == [] {
      assert s + Concat(chunks) == s;
    } else {
      var c, later := chunks[0], Concat(chunks[1..]);
      assert s + Concat(chunks) == (s + c) + later;
      if Find(START_TAG, s + c) != -1 {
        FindAppend(START_TAG, s + c, later);
      } else {
        NoEarlyEnd(s + c, later);
        assert s + c == s[..|s| - |Keep(s)|] + (Keep(s) + c);
        NoTagInSuffix(END_TAG, s[..|s| - |Keep(s)|], Keep(s) + c);
        OutcomeStarts(s + c, chunks[1..]);
      }
    }
  }

  /** In particular it makes no difference at all once a start tag was seen, provided no end
      tag is complete before it. */
  lemma {:induction false} UnknownStart(chunks: seq<seq<byte>>)
    requires StartsFirst(Concat(chunks))
    ensures var s := Concat(chunks);
            ReceiveAll(Capture(Unknown, [], []), chunks)
              == if Find(START_TAG, s) == -1 then Capture(Unknown, Keep(s), []) else Settled([], false, s)
  {
    FindNone(START_TAG, []);
    assert [] + Concat(chunks) == Concat(chunks);
    OutcomeIs([], chunks);
    OutcomeStarts([], chunks);
  }

  /** The proviso is needed: an end tag seen first turns the text before it into a payload. */
  lemma {:induction false} TextTakenForPayload(text: seq<byte>)
    requires Find(END_TAG, text) == -1 && Find(START_TAG, text + END_TAG) == -1
    ensures Receive(Capture(Unknown, [], []), text + END_TAG).file == text
  {
    assert text + END_TAG == text + END_TAG + [];
    assert [] + (text + END_TAG) == text + END_TAG;
    FirstTag(true, text, []);
    ScanAt(true, text, []);
    FindNone(START_TAG, []);
    assert [] + (text + []) == text;
  }

  lemma EndTagEnds(text: seq<byte>)
    requires Find(END_TAG, text) == -1 && Find(START_TAG, text + END_TAG) == -1
    ensures Receive(Capture(Unknown, [], []), text + END_TAG) == Capture(Outside, [], text)
  {
    FirstTag(true, text, []);
    ScanAt(true, text, []);
    FindNone(START_TAG, []);
    assert text + END_TAG + [] == text + END_TAG == [] + (text + END_TAG);
    hide Scan, Find, FindFrom;
    assert Scan(false, []) == Scanned([], false, []);
    assert [] + (text + []) == text;
  }

  /** A start tag behind any bytes that hold none, which are dropped. */
  lemma StartTagStarts(mode: Mode, file: seq<byte>, junk: seq<byte>)
    requires mode != Inside && Find(START_TAG, junk) == -1
    ensures Receive(Capture(mode, [], file), junk + START_TAG) == Capture(Inside, [], file)
  {
    FirstTag(false, junk, []);
    ScanAt(false, junk, []);
    FindNone(END_TAG, []);
    assert junk + START_TAG + [] == junk + START_TAG == [] + (junk + START_TAG);
    hide Scan, Find, FindFrom;
    assert Scan(true, []) == Scanned([], true, []);
    assert file + [] + [] == file;
  }

  /** Until the mode is known the chunking matters: with a start tag in the buffer, an end tag
      before it goes unnoticed. */
  lemma {:induction false} UnknownStartDependsOnChunks(text: seq<byte>)
    requires Find(END_TAG, text) == -1 && Find(START_TAG, text + END_TAG) == -1
    ensures ReceiveAll(Capture(Unknown, [], []), [text + END_TAG, START_TAG]) == Capture(Inside, [], text)
    ensures ReceiveAll(Capture(Unknown, [], []), [text + END_TAG + START_TAG]) == Capture(Inside, [], [])
  {
    var early := text + END_TAG;
    EndTagEnds(text);
    FindNone(START_TAG, []);
    StartTagStarts(Outside, text, []);
    StartTagStarts(Unknown, [], early);
    hide Receive, ReceiveAll, Find, FindFrom;
    assert [] + START_TAG == START_TAG;
    OneOrTwo(Capture(Unknown, [], []), early, START_TAG);
    OneOrTwo(Capture(Unknown, [], []), early + START_TAG, []);
  }

  lemma OneOrTwo(c: Capture, a: seq<byte>, b: seq<byte>)
    ensures ReceiveAll(c, [a]) == Receive(c, a) && ReceiveAll(c, [a, b]) == Receive(Receive(c, a), b)
  {
    hide Receive;
    assert [a, b][1..] == [b] && [a][1..] == [] && [b][1..] == [];
    assert ReceiveAll(Receive(c, a), [b]) == ReceiveAll(Receive(Receive(c, a), b), []);
  }

  // --------------------------------------------------------------- the init tag

  lemma {:induction false} RestIsSuffix(inside: bool, s: seq<byte>) returns (d: seq<byte>)
    ensures s == d + Scan(inside, s).rest
    decreases |s|
  {
    var i := Find(Awaited(inside), s);
    if i == -1 {
      d := [];
    } else {
      var cut := i + |Awaited(inside)|;
      var rest := Scan(inside, s).rest;
      var d1 := RestIsSuffix(!inside, s[cut..]);
      d := s[..cut] + d1;
      hide Scan, Find, FindFrom;
      Assoc3(s[..cut], d1, rest);
      SplitPoint(s, cut);
    }
  }

  lemma SettledIsSuffix(file: seq<byte>, inside: bool, x: seq<byte>) returns (d: seq<byte>)
    ensures x == d + Settled(file, inside, x).buff
  {
    var d0 := RestIsSuffix(inside, x);
    hide Scan, Find, FindFrom;
    var rest := Scan(inside, x).rest;
    d := d0 + Written(rest);
    assert rest == Written(rest) + Keep(rest);
    Assoc3(d0, Written(rest), Keep(rest));
  }

  /** What is buffered is the end of what was buffered before and of the chunk. */
  lemma BufferIsSuffix(c: Capture, chunk: seq<byte>) returns (d: seq<byte>)
    ensures c.buff + chunk == d + Receive(c, chunk).buff
  {
    hide Find, FindFrom, Settled, Keep;
    var x := c.buff + chunk;
    if c.mode != Unknown {
      d := SettledIsSuffix(c.file, c.mode == Inside, x);
    } else if Find(START_TAG, x) != -1 {
      d := SettledIsSuffix(c.file, false, x);
    } else if Find(END_TAG, x) != -1 {
      d := SettledIsSuffix(c.file, true, x);
    } else {
      d := x[..|x| - |Keep(x)|];
    }
  }

  lemma {:induction false} BufferIsSuffixOfAll(c: Capture, chunks: seq<seq<byte>>) returns (d: seq<byte>)
    ensures c.buff + Concat(chunks) == d + ReceiveAll(c, chunks).buff
    decreases |chunks|
  {
    hide Receive;
    if chunks == [] {
      d := [];
      assert c.buff + Concat(chunks) == d + c.buff;
    } else {
      var r := Receive(c, chunks[0]);
      var d0 := BufferIsSuffix(c, chunks[0]);
      var d1 := BufferIsSuffixOfAll(r, chunks[1..]);
      d := d0 + d1;
      assert c.buff + Concat(chunks) == (c.buff + chunks[0]) + Concat(chunks[1..]);
      assert (d0 + r.buff) + Concat(chunks[1..]) == d0 + (r.buff + Concat(chunks[1..]));
      Assoc3(d0, d1, ReceiveAll(r, chunks[1..]).buff);
    }
  }

  /** In a stream without the init tag, it never appears in the buffer either, whatever the mode
      at the start, so the branch that opens a new file is never taken. */
  lemma InitTagNeverSeen(mode: Mode, chunks: seq<seq<byte>>, chunk: seq<byte>, later: seq<byte>)
    requires Find(INIT_TAG, Concat(chunks) + chunk + later) == -1
    ensures Find(INIT_TAG, ReceiveAll(Capture(mode, [], []), chunks).buff + chunk) == -1
  {
    var c := Capture(mode, [], []);
    var d := BufferIsSuffixOfAll(c, chunks);
    hide Find, FindFrom, ReceiveAll;
    var buff := ReceiveAll(c, chunks).buff;
    assert [] + Concat(chunks) == Concat(chunks);
    assert Concat(chunks) + chunk == d + (buff + chunk);
    TagInWindow(INIT_TAG, d, buff + chunk, later);
  }

  // ------------------------------------------------------------ the capture loop

  lemma Step(file: seq<byte>, inside: bool, s: seq<byte>)
    requires Find(Awaited(inside), s) != -1
    ensures var i := Find(Awaited(inside), s);
            Settled(file, inside, s)
              == Settled(if inside then file + s[..i] else file, !inside, s[i + |Awaited(inside)|..])
  {
    hide Find, FindFrom, Finish, Add;
    var i := Find(Awaited(inside), s);
    FinishAdd(file, inside, s[..i], Scan(!inside, s[i + |Awaited(inside)|..]));
  }

  lemma FinishAdd(file: seq<byte>, inside: bool, a: seq<byte>, r: Scanned)
    ensures Finish(file, Add(inside, a, r)) == Finish(if inside then file + a else file, r)
  {
    assert file + (a + r.payload) == (file + a) + r.payload;
  }

  lemma Idle(file: seq<byte>, inside: bool, s: seq<byte>)
    requires Find(Awaited(inside), s) == -1
    ensures Settled(file, inside, s)
         == Capture(if inside then Inside else Outside, Keep(s), if inside then file + Written(s) else file)
  {
    assert file + [] == file;
  }

  lemma ProcessedIsShort(c: Capture)
    ensures |Process(c).buff| <= KEPT
  {
    hide Scan, Find, FindFrom;
  }

  class InstrumentationCapture {
    var instrBinMsg: Mode
    var buff: seq<byte>
    var f: seq<byte>
    /** The files of earlier captures, closed at an init tag. */
    var closed: seq<seq<byte>>

    ghost function State(): Capture
      reads this
    {
      Capture(instrBinMsg, buff, f)
    }

    constructor ()
      ensures State() == Capture(Unknown, [], []) && closed == []
    {
      instrBinMsg, buff, f, closed := Unknown, [], [], [];
    }

    /** One round of the loop. At an init tag the file is closed and a new one begun; the
        position of the tag is that before the buffer was processed, so nothing of what came
        behind the tag is left for the new file. */
    method Read(chunk: seq<byte>)
      modifies this
      ensures Find(INIT_TAG, old(buff) + chunk) == -1 ==>
                State() == Receive(old(State()), chunk) && closed == old(closed)
      ensures Find(INIT_TAG, old(buff) + chunk) != -1 ==>
                && State() == Capture(Outside, [], [])
                && closed == old(closed) + [Receive(old(State()), chunk).file]
    {
      buff := buff + chunk;
      if Find(INIT_TAG, buff) != -1 {
        var tagIdx := Find(INIT_TAG, buff);
        ProcessedIsShort(State());
        ProcessBuff();
        closed := closed + [f];
        f := [];
        buff := if tagIdx + |INIT_TAG| <= |buff| then buff[tagIdx + |INIT_TAG|..] else [];
        instrBinMsg := Outside;
      } else {
        ProcessBuff();
      }
    }

    method ProcessBuff()
      modifies `instrBinMsg, `buff, `f
      ensures State() == Process(old(State()))
    {
      hide Settled, Find, FindFrom;
      var notEnoughData := false;
      while !notEnoughData
        invariant Process(State()) == Process(old(State()))
        invariant notEnoughData ==> State() == Process(State())
        decreases |buff|, !notEnoughData
      {
        if instrBinMsg != Inside && Find(START_TAG, buff) != -1 {
          Step(f, false, buff);
          instrBinMsg := Inside;
          var tagIdx := Find(START_TAG, buff);
          buff := buff[tagIdx + |START_TAG|..];
        } else if instrBinMsg != Outside && Find(END_TAG, buff) != -1 {
          Step(f, true, buff);
          instrBinMsg := Outside;
          var tagIdx := Find(END_TAG, buff);
          f := f + buff[..tagIdx];
          buff := buff[tagIdx + |END_TAG|..];
        } else if |buff| > KEPT {
          Flush();
        } else {
          if instrBinMsg != Unknown {
            Idle(f, instrBinMsg == Inside, buff);
          }
          assert f + [] == f;
          notEnoughData := true;
        }
      }
    }

    /** Nothing to cut: all but the last bytes go to the file, or are dropped. */
    method Flush()
      requires |buff| > KEPT
      requires instrBinMsg != Inside ==> Find(START_TAG, buff) == -1
      requires instrBinMsg != Outside ==> Find(END_TAG, buff) == -1
      modifies `buff, `f
      ensures |buff| == KEPT
      ensures Process(State()) == Process(old(State()))
    {
      hide Settled, Find, FindFrom;
      var a := buff[..|buff| - KEPT];
      assert buff == a + Keep(buff);
      if instrBinMsg != Unknown {
        Idle(f, instrBinMsg == Inside, buff);
        NoTagInSuffix(Awaited(instrBinMsg == Inside), a, Keep(buff));
      } else {
        NoTagInSuffix(START_TAG, a, Keep(buff));
        NoTagInSuffix(END_TAG, a, Keep(buff));
      }
      if instrBinMsg == Inside {
        f := f + a;
      }
      buff := buff[|buff| - KEPT..];
      if instrBinMsg != Unknown {
        Idle(f, instrBinMsg == Inside, buff);
        assert f + [] == f;
      }
    }
  }
}
