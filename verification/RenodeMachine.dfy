/** The trace capture of a simulated machine: the bytes of the trace UART are cut at the
    start tag into files, one tag per poll. */
module RenodeMachines {
  import opened Sequences
  import opened Splitting

  /** Finished files, the contents of the open one, and the bytes not yet written. */
  datatype Capture = Capture(closed: seq<seq<byte>>, open: seq<byte>, buffer: seq<byte>)

  const EMPTY := Capture([], [], [])

  /** One poll that read the bytes `traces`. */
  function Poll(c: Capture, traces: seq<byte>): Capture {
    var buf := c.buffer + traces;
    var i := Find(CTF_TAG, buf);
    if i > 0 then Capture(c.closed + [c.open + buf[..i]], [], buf[i + |CTF_TAG|..])
    else if i == 0 then c.(buffer := buf[|CTF_TAG|..])
    else if |buf| > |CTF_TAG| then
      Capture(c.closed, c.open + buf[..|buf| - |CTF_TAG|], buf[|buf| - |CTF_TAG|..])
    else c.(buffer := buf)
  }

  function Polls(c: Capture, parts: seq<seq<byte>>): Capture
    decreases |parts|
  {
    if parts == [] then c else Polls(Poll(c, parts[0]), parts[1..])
  }

  /** The files left behind when the capture is closed. */
  function Files(c: Capture): seq<seq<byte>> {
    c.closed + [c.open + c.buffer]
  }

  function NonEmpty(pieces: seq<seq<byte>>): seq<seq<byte>> {
    if pieces == [] then []
    else (if pieces[0] == [] then [] else [pieces[0]]) + NonEmpty(pieces[1..])
  }

  /** `c` is a state for the bytes `s`, of which the pieces `done` have been cut off. That
      no tag is overlooked rests on the second line: bytes are only written while a whole
      tag's worth of bytes, which is not a tag, is kept back. */
  ghost predicate Cut(c: Capture, done: seq<seq<byte>>, s: seq<byte>) {
    && LeftmostSplit(CTF_TAG, s) == done + LeftmostSplit(CTF_TAG, c.open + c.buffer)
    && (c.open != [] ==> |c.buffer| >= |CTF_TAG| && !TagAt(CTF_TAG, c.buffer, 0))
    && (forall i :: 0 <= i < |c.open| ==> !TagAt(CTF_TAG, c.open + c.buffer, i))
    && c.closed == NonEmpty(done)
  }

  lemma {:induction false} NonEmptyAppend(a: seq<seq<byte>>, b: seq<seq<byte>>)
    ensures NonEmpty(a + b) == NonEmpty(a) + NonEmpty(b)
    decreases |a|
  {
    if a == [] {
      assert a + b == b;
    } else {
      assert (a + b)[1..] == a[1..] + b;
      NonEmptyAppend(a[1..], b);
    }
  }

  /** A poll that finds no tag writes all it safely can: at most a tag's length of bytes stays
      buffered. */
  lemma PollWrites(c: Capture, traces: seq<byte>)
    requires Find(CTF_TAG, c.buffer + traces) == -1
    ensures var q := Poll(c, traces);
            && q.closed == c.closed && q.open + q.buffer == c.open + c.buffer + traces
            && |q.buffer| <= |CTF_TAG| && (|q.buffer| < |CTF_TAG| ==> q.open == c.open)
  {
    var buf := c.buffer + traces;
    assert c.open + c.buffer + traces == c.open + buf;
    if |buf| > |CTF_TAG| {
      var n := |buf| - |CTF_TAG|;
      assert (c.open + buf[..n]) + buf[n..] == c.open + buf;
    }
  }

  /** Bytes arrive: pieces that were cut off stay cut off, and no occurrence of the tag
      appears among the bytes already written. */
  lemma {:induction false} Arrive(c: Capture, done: seq<seq<byte>>, s: seq<byte>, traces: seq<byte>)
    requires Cut(c, done, s)
    ensures Cut(c.(buffer := c.buffer + traces), done, s + traces)
  {
    var rest := c.open + c.buffer;
    var buf := c.buffer + traces;
    assert c.open + buf == rest + traces;
    SplitAppend(CTF_TAG, s, traces);
    SplitAppend(CTF_TAG, rest, traces);
    AppendToLast(done, LeftmostSplit(CTF_TAG, rest),
                 LeftmostSplit(CTF_TAG, Last(LeftmostSplit(CTF_TAG, rest)) + traces));
    forall i | 0 <= i < |c.open|
      ensures !TagAt(CTF_TAG, c.open + buf, i)
    {
      TagAtPrefix(CTF_TAG, rest, traces, i);
    }
    if c.open != [] {
      TagAtPrefix(CTF_TAG, c.buffer, traces, 0);
    }
  }

  /** A tag in the buffer is the first tag of what is not cut off yet. */
  lemma CutAtTag(c: Capture, done: seq<seq<byte>>, s: seq<byte>)
    requires Cut(c, done, s) && Find(CTF_TAG, c.buffer) != -1
    ensures var i := Find(CTF_TAG, c.buffer);
            var piece := c.open + c.buffer[..i];
            && (i == 0 ==> piece == [])
            && LeftmostSplit(CTF_TAG, c.open + c.buffer)
                 == [piece] + LeftmostSplit(CTF_TAG, c.buffer[i + |CTF_TAG|..])
  {
    var i := Find(CTF_TAG, c.buffer);
    SplitDropPrefix(CTF_TAG, c.open, c.buffer);
    FindSplits(CTF_TAG, c.buffer);
    SplitAt(CTF_TAG, c.buffer[..i], c.buffer[i + |CTF_TAG|..]);
    ConsParts(c.buffer[..i], LeftmostSplit(CTF_TAG, c.buffer[i + |CTF_TAG|..]));
  }

  /** What a poll does once the bytes it read are in the buffer. */
  function Handle(a: Capture): Capture {
    Poll(a, [])
  }

  lemma {:induction false} TagKeepsCut(a: Capture, done: seq<seq<byte>>, s: seq<byte>)
    requires Cut(a, done, s) && Find(CTF_TAG, a.buffer) != -1
    ensures Cut(Handle(a), done + [a.open + a.buffer[..Find(CTF_TAG, a.buffer)]], s)
    ensures |LeftmostSplit(CTF_TAG, Handle(a).buffer)| == |LeftmostSplit(CTF_TAG, a.buffer)| - 1
  {
    var i := Find(CTF_TAG, a.buffer);
    var piece, rest := a.open + a.buffer[..i], a.buffer[i + |CTF_TAG|..];
    CutAtTag(a, done, s);
    assert a.buffer + [] == a.buffer;
    var later := LeftmostSplit(CTF_TAG, rest);
    assert done + ([piece] + later) == (done + [piece]) + later;
    NonEmptyAppend(done, [piece]);
    assert NonEmpty([piece]) == (if piece == [] then [] else [piece]) + NonEmpty([]);
    assert Handle(a).open + Handle(a).buffer == rest;
  }

  /** Writing bytes out of a buffer that holds no tag. */
  lemma WriteKeepsCut(a: Capture, done: seq<seq<byte>>, s: seq<byte>)
    requires Cut(a, done, s)
    requires Find(CTF_TAG, a.buffer) == -1 && |a.buffer| > |CTF_TAG|
    ensures var n := |a.buffer| - |CTF_TAG|;
            && Cut(Capture(a.closed, a.open + a.buffer[..n], a.buffer[n..]), done, s)
            && Find(CTF_TAG, a.buffer[n..]) == -1
  {
    var n := |a.buffer| - |CTF_TAG|;
    var open' := a.open + a.buffer[..n];
    assert a.buffer == a.buffer[..n] + a.buffer[n..];
    assert open' + a.buffer[n..] == a.open + a.buffer;
    NoTagInSuffix(CTF_TAG, a.buffer[..n], a.buffer[n..]);
    forall i | 0 <= i < |open'|
      ensures !TagAt(CTF_TAG, a.open + a.buffer, i)
    {
      if i >= |a.open| {
        TagAtSuffix(CTF_TAG, a.open, a.buffer, i);
      }
    }
  }

  lemma {:induction false} NoTagKeepsCut(a: Capture, done: seq<seq<byte>>, s: seq<byte>)
    requires Cut(a, done, s) && Find(CTF_TAG, a.buffer) == -1
    ensures Cut(Handle(a), done, s)
    ensures |LeftmostSplit(CTF_TAG, Handle(a).buffer)| == 1
  {
    hide Cut, LeftmostSplit, FindFrom;
    assert a.buffer + [] == a.buffer;
    OnePiece(CTF_TAG, Handle(a).buffer);
    if |a.buffer| > |CTF_TAG| {
      WriteKeepsCut(a, done, s);
    } else {
      assert Handle(a) == a;
    }
  }

  lemma {:induction false} PollKeepsCut(c: Capture, done: seq<seq<byte>>, s: seq<byte>, traces: seq<byte>)
      returns (done': seq<seq<byte>>)
    requires Cut(c, done, s)
    ensures Cut(Poll(c, traces), done', s + traces)
    ensures |LeftmostSplit(CTF_TAG, Poll(c, traces).buffer)|
         == if Find(CTF_TAG, c.buffer + traces) == -1 then 1
            else |LeftmostSplit(CTF_TAG, c.buffer + traces)| - 1
  {
    var a := c.(buffer := c.buffer + traces);
    Arrive(c, done, s, traces);
    assert a.buffer + [] == a.buffer;
    assert Handle(a) == Poll(c, traces);
    done' := done;
    hide Cut, Handle, Poll, LeftmostSplit, FindFrom;
    if Find(CTF_TAG, a.buffer) != -1 {
      TagKeepsCut(a, done, s + traces);
      done' := done + [a.open + a.buffer[..Find(CTF_TAG, a.buffer)]];
    } else {
      NoTagKeepsCut(a, done, s + traces);
    }
  }

  lemma {:induction false} PollsKeepCut(c: Capture, done: seq<seq<byte>>, s: seq<byte>, parts: seq<seq<byte>>)
      returns (done': seq<seq<byte>>)
    requires Cut(c, done, s)
    ensures Cut(Polls(c, parts), done', s + Concat(parts))
    decreases |parts|
  {
    hide Cut, Poll;
    if parts == [] {
      done' := done;
      assert s + Concat(parts) == s;
    } else {
      var next := PollKeepsCut(c, done, s, parts[0]);
      done' := PollsKeepCut(Poll(c, parts[0]), next, s + parts[0], parts[1..]);
      assert s + Concat(parts) == s + parts[0] + Concat(parts[1..]);
    }
  }

  lemma StartCut()
    ensures Cut(EMPTY, [], [])
  {
    assert [] + LeftmostSplit(CTF_TAG, []) == LeftmostSplit(CTF_TAG, []);
    assert EMPTY.open + EMPTY.buffer == [];
  }

  /** Main result. At any time, whatever was read and however it was cut into reads: the
      closed files, followed by the non-empty pieces of what is still in hand, are the
      non-empty pieces of the whole stream. */
  lemma ClosedFilesRefineSplit(parts: seq<seq<byte>>)
    ensures var c := Polls(EMPTY, parts);
            NonEmpty(LeftmostSplit(CTF_TAG, Concat(parts)))
              == c.closed + NonEmpty(LeftmostSplit(CTF_TAG, c.open + c.buffer))
  {
    StartCut();
    var done := PollsKeepCut(EMPTY, [], [], parts);
    assert [] + Concat(parts) == Concat(parts);
    NonEmptyAppend(done, LeftmostSplit(CTF_TAG, Polls(EMPTY, parts).open + Polls(EMPTY, parts).buffer));
  }

  lemma {:induction false} NonEmptyMembers(pieces: seq<seq<byte>>, p: seq<byte>)
    ensures p in NonEmpty(pieces) <==> p in pieces && p != []
    decreases |pieces|
  {
    if pieces != [] {
      NonEmptyMembers(pieces[1..], p);
      assert pieces == [pieces[0]] + pieces[1..];
    }
  }

  /** No piece holds a tag. */
  lemma PiecesAreFree(s: seq<byte>)
    ensures forall p :: p in LeftmostSplit(CTF_TAG, s) ==> Find(CTF_TAG, p) == -1
  {
    var pieces := LeftmostSplit(CTF_TAG, s);
    SplitJoin(CTF_TAG, s);
    forall k | 0 <= k < |pieces|
      ensures Find(CTF_TAG, pieces[k]) == -1
    {
      if k < |pieces| - 1 && Find(CTF_TAG, pieces[k]) != -1 {
        FindAppend(CTF_TAG, pieces[k], CTF_TAG);
      }
    }
  }

  lemma {:induction false} NonEmptyTwice(pieces: seq<seq<byte>>)
    ensures NonEmpty(NonEmpty(pieces)) == NonEmpty(pieces)
    decreases |pieces|
  {
    if pieces != [] {
      NonEmptyTwice(pieces[1..]);
      NonEmptyAppend(if pieces[0] == [] then [] else [pieces[0]], NonEmpty(pieces[1..]));
    }
  }

  /** No tag is waiting: the last file is the last piece. */
  lemma NoTagWaiting(c: Capture, done: seq<seq<byte>>, s: seq<byte>)
    requires Cut(c, done, s) && Find(CTF_TAG, c.buffer) == -1
    ensures NonEmpty(Files(c)) == NonEmpty(LeftmostSplit(CTF_TAG, s))
  {
    var rest := c.open + c.buffer;
    FindShift(CTF_TAG, c.open, c.buffer);
    NonEmptyAppend(done, [rest]);
    NonEmptyAppend(c.closed, [rest]);
    NonEmptyTwice(done);
  }

  /** A tag is waiting: it ends up inside the last file. */
  lemma TagWaiting(c: Capture, done: seq<seq<byte>>, s: seq<byte>)
    requires Cut(c, done, s) && Find(CTF_TAG, c.buffer) != -1
    ensures Find(CTF_TAG, Last(Files(c))) != -1 && Last(Files(c)) in NonEmpty(Files(c))
    ensures Last(Files(c)) !in NonEmpty(LeftmostSplit(CTF_TAG, s))
  {
    var rest := c.open + c.buffer;
    FindShift(CTF_TAG, c.open, c.buffer);
    PiecesAreFree(s);
    NonEmptyMembers(Files(c), rest);
    NonEmptyMembers(LeftmostSplit(CTF_TAG, s), rest);
    assert Files(c)[|c.closed|] == rest;
  }

  /** Main result. Closing the capture leaves exactly the non-empty pieces of the stream (as
      far as files are non-empty) if and only if no tag is waiting in the buffer: `cleanup`
      does not look for the tags that earlier polls did not get to. */
  lemma {:induction false} FilesExactIff(parts: seq<seq<byte>>)
    ensures var c := Polls(EMPTY, parts);
            NonEmpty(Files(c)) == NonEmpty(LeftmostSplit(CTF_TAG, Concat(parts))) <==> Find(CTF_TAG, c.buffer) == -1
  {
    hide Cut, Polls, Poll;
    var c := Polls(EMPTY, parts);
    StartCut();
    var done := PollsKeepCut(EMPTY, [], [], parts);
    assert [] + Concat(parts) == Concat(parts);
    if Find(CTF_TAG, c.buffer) == -1 {
      NoTagWaiting(c, done, Concat(parts));
    } else {
      TagWaiting(c, done, Concat(parts));
    }
  }

  function Idle(n: nat): seq<seq<byte>> {
    if n == 0 then [] else [[]] + Idle(n - 1)
  }

  /** Polling without new bytes once for every waiting tag is enough. */
  lemma {:induction false} IdlePollsDrain(c: Capture, done: seq<seq<byte>>, s: seq<byte>, n: nat)
    requires Cut(c, done, s)
    requires n >= |LeftmostSplit(CTF_TAG, c.buffer)| - 1
    ensures Find(CTF_TAG, Polls(c, Idle(n)).buffer) == -1
    decreases n
  {
    var idle := Idle(n);
    if n > 0 {
      var done' := PollKeepsCut(c, done, s, []);
      assert c.buffer + [] == c.buffer;
      assert idle[1..] == Idle(n - 1);
      IdlePollsDrain(Poll(c, []), done', s + [], n - 1);
    }
  }

  /** Two tags in one read, then the end: the second tag ends up inside a file. */
  lemma TwoTagsInOneRead(a: byte, b: byte, d: byte)
    requires a != CTF_TAG[0]
    ensures Files(Polls(EMPTY, [[a] + CTF_TAG + ([b] + CTF_TAG + [d])]))
         == [[a], [b] + CTF_TAG + [d]]
  {
    var s, rest := [a] + CTF_TAG + ([b] + CTF_TAG + [d]), [b] + CTF_TAG + [d];
    assert TagAt(CTF_TAG, s, 1);
    assert s[0..|CTF_TAG|][0] == a;
    FindIs(CTF_TAG, s, 1);
    assert s[..1] == [a] && s[1 + |CTF_TAG|..] == rest;
    FirstPoll(s, a, rest);
    hide Find, FindFrom, Poll;
    assert [s][1..] == [];
    assert Polls(Poll(EMPTY, s), []) == Poll(EMPTY, s);
    assert [] + rest == rest;
  }

  lemma FirstPoll(s: seq<byte>, a: byte, rest: seq<byte>)
    requires Find(CTF_TAG, s) == 1 && |s| > |CTF_TAG| && s[..1] == [a] && s[1 + |CTF_TAG|..] == rest
    ensures Poll(EMPTY, s) == Capture([[a]], [], rest)
  {
    hide FindFrom;
    assert EMPTY.buffer + s == s;
    assert EMPTY.open + s[..1] == [a];
    assert EMPTY.closed + [[a]] == [[a]];
  }

  /** The files of the first numbers, in order. */
  function Written(disk: map<nat, seq<byte>>, n: nat): (files: seq<seq<byte>>)
    requires forall k :: 0 <= k < n ==> k in disk
    ensures |files| == n && forall k :: 0 <= k < n ==> files[k] == disk[k]
  {
    seq(n, k requires 0 <= k < n => disk[k])
  }

  class RenodeMachine {
    var traceBuffer: seq<byte>
    /** The number in the name of the file that is open. */
    var traceIndex: nat
    /** What has been written, by the number in the file's name. */
    var disk: map<nat, seq<byte>>
    var closed: bool

    /** The open file is the latest one: opening the next never empties one written before. */
    ghost predicate Valid()
      reads this
    {
      forall k: nat :: k in disk <==> k <= traceIndex
    }

    ghost function State(): Capture
      reads this
      requires Valid()
    {
      Capture(Written(disk, traceIndex), disk[traceIndex], traceBuffer)
    }

    constructor ()
      ensures Valid() && State() == EMPTY && !closed
    {
      traceBuffer, traceIndex, disk, closed := [], 0, map[0 := []], false;
    }

    method ProcessData(newTraces: seq<byte>)
      requires Valid() && !closed
      modifies this
      ensures Valid() && !closed
      ensures State() == Poll(old(State()), newTraces)
    {
      traceBuffer := traceBuffer + newTraces;
      HandleTraces();
      assert old(traceBuffer) + newTraces + [] == old(traceBuffer) + newTraces;
    }

    method HandleTraces()
      requires Valid() && !closed
      modifies this
      ensures Valid() && !closed
      ensures State() == Poll(old(State()), [])
    {
      assert traceBuffer + [] == traceBuffer;
      if Find(CTF_TAG, traceBuffer) != -1 {
        var tagIdx := Find(CTF_TAG, traceBuffer);
        Write(traceBuffer[..tagIdx]);
        if tagIdx > 0 {
          traceIndex := traceIndex + 1;
          disk := disk[traceIndex := []];
          assert Written(disk, traceIndex)
              == old(Written(disk, traceIndex)) + [old(disk[traceIndex]) + traceBuffer[..tagIdx]];
        }
        traceBuffer := traceBuffer[tagIdx + |CTF_TAG|..];
      } else if |traceBuffer| > |CTF_TAG| {
        var safeToWrite := |traceBuffer| - |CTF_TAG|;
        Write(traceBuffer[..safeToWrite]);
        traceBuffer := traceBuffer[safeToWrite..];
      }
    }

    /** `trace_file.write`. */
    method Write(bytes: seq<byte>)
      requires Valid()
      modifies this`disk
      ensures Valid() && State() == old(State()).(open := old(State()).open + bytes)
    {
      assert traceIndex in disk;
      disk := disk[traceIndex := disk[traceIndex] + bytes];
      assert Written(disk, traceIndex) == old(Written(disk, traceIndex));
    }

    method Cleanup()
      requires Valid() && !closed
      modifies this
      ensures Valid() && closed
      ensures Written(disk, traceIndex + 1) == Files(old(State()))
    {
      if traceBuffer != [] {
        Write(traceBuffer);
      }
      closed := true;
      assert Written(disk, traceIndex + 1) == Written(disk, traceIndex) + [disk[traceIndex]];
      assert old(traceBuffer) == [] ==> old(State()).open + [] == old(State()).open;
    }
  }
}
