/** When the numbered files are exactly the pieces between the tags of the stream. */
module CtfExactness {
  import opened Sequences
  import opened Splitting
  import opened StreamEnds
  import opened CtfFileHandlers

  // ---------------------------------------- judging the files after the fact

  /** The tag overlaps itself only by its last byte, which is also its first. */
  lemma OnlyBorder(piece: seq<byte>, i: nat)
    requires TagAt(CTF_TAG, piece + CTF_TAG, i) && |piece| - TAG_LEN < i < |piece|
    ensures i == |piece| - (TAG_LEN - 1) && EndsWith(piece, CTF_TAG[..TAG_LEN - 1])
  {
    var m := |piece| - i;
    assert piece[i..] == (piece + CTF_TAG)[i..i + TAG_LEN][..m];
    Shifted(piece, i, m);
    if m + 1 < TAG_LEN {
      Shifted(piece, i, m + 1);
    }
  }

  lemma Shifted(piece: seq<byte>, i: nat, t: nat)
    requires TagAt(CTF_TAG, piece + CTF_TAG, i) && i < |piece| <= i + t < i + TAG_LEN
    ensures CTF_TAG[t] == CTF_TAG[i + t - |piece|]
  {
    var s := piece + CTF_TAG;
    assert CTF_TAG[t] == s[i..i + TAG_LEN][t] == s[i + t];
  }

  /** The tag behind a piece is its first tag unless the piece holds a tag or ends like one. */
  lemma FirstTagIff(piece: seq<byte>)
    ensures Find(CTF_TAG, piece + CTF_TAG) == |piece|
       <==> Find(CTF_TAG, piece) == -1 && !EndsWith(piece, CTF_TAG[..TAG_LEN - 1])
  {
    var s, i := piece + CTF_TAG, Find(CTF_TAG, piece + CTF_TAG);
    assert TagAt(CTF_TAG, s, |piece|) by {
      assert s[|piece|..|piece| + TAG_LEN] == CTF_TAG;
    }
    if Find(CTF_TAG, piece) != -1 {
      FindAppend(CTF_TAG, piece, CTF_TAG);
    } else if EndsWith(piece, CTF_TAG[..TAG_LEN - 1]) {
      var k := |piece| - (TAG_LEN - 1);
      assert s[k..k + TAG_LEN] == piece[k..] + CTF_TAG[..1];
      assert CTF_TAG == CTF_TAG[..TAG_LEN - 1] + CTF_TAG[..1];
      assert TagAt(CTF_TAG, s, k);
    } else if i < |piece| {
      if i + TAG_LEN <= |piece| {
        TagAtPrefix(CTF_TAG, piece, CTF_TAG, i);
      }
      OnlyBorder(piece, i);
    }
  }

  lemma CutsIff(log: seq<seq<byte>>)
    requires log != []
    ensures Cuts(CTF_TAG, log) <==>
            && (forall k :: 0 <= k < |log| ==> Find(CTF_TAG, log[k]) == -1)
            && (forall k :: 0 <= k < |log| - 1 ==> !EndsWith(log[k], CTF_TAG[..TAG_LEN - 1]))
  {
    forall k | 0 <= k < |log|
      ensures Find(CTF_TAG, log[k] + CTF_TAG) == |log[k]|
         <==> Find(CTF_TAG, log[k]) == -1 && !EndsWith(log[k], CTF_TAG[..TAG_LEN - 1])
    {
      FirstTagIff(log[k]);
    }
    if Cuts(CTF_TAG, log) {
      forall k | 0 <= k < |log|
        ensures Find(CTF_TAG, log[k]) == -1
      {
        if k < |log| - 1 {
          assert Find(CTF_TAG, log[k] + CTF_TAG) == |log[k]|;
        }
      }
    }
  }

  /** After the fact, the files themselves tell. Whatever the stream: pieces that give it back
      when joined by tags are its leftmost pieces if and only if none of them holds a tag and
      none but the last ends with all of a tag but its last byte. */
  lemma {:induction false} FilesTell(log: seq<seq<byte>>)
    requires log != []
    ensures log == LeftmostSplit(CTF_TAG, Join(CTF_TAG, log)) <==>
            && (forall k :: 0 <= k < |log| ==> Find(CTF_TAG, log[k]) == -1)
            && (forall k :: 0 <= k < |log| - 1 ==> !EndsWith(log[k], CTF_TAG[..TAG_LEN - 1]))
  {
    ExactIsCut(log);
    CutsIff(log);
  }

  // ------------------------------------------------- what each chunk causes to be written

  /** The bytes that a chunk pushes out of the window, and the window that is left. */
  datatype Slid = Slid(written: seq<byte>, window: seq<byte>)

  function Slide(window: seq<byte>, chunk: seq<byte>): (r: Slid)
    ensures r.written + r.window == window + chunk
  {
    var joined := window + chunk;
    if chunk == [] || |window| < TAG_LEN - 1 then Slid([], joined)
    else if TagAcross(window, chunk) then
      var i := Find(CTF_TAG, joined);
      Slid(joined[..i], joined[i..])
    else Slid(window, chunk)
  }

  /** Dropped bytes and files once all chunks are saved and the handler is closed. */
  ghost function WrittenAll(log: seq<seq<byte>>, window: seq<byte>, chunks: seq<seq<byte>>): (r: seq<seq<byte>>)
    requires log != []
    ensures r != []
    decreases |chunks|
  {
    if chunks == [] then Log(log, window)
    else
      var s := Slide(window, chunks[0]);
      WrittenAll(Log(log, s.written), s.window, chunks[1..])
  }

  lemma LogNothing(log: seq<seq<byte>>)
    requires log != []
    ensures Log(log, []) == log
  {
    assert Find(CTF_TAG, []) == -1;
    assert Last(log) + [] == Last(log);
  }

  lemma SaveSlides(h: Handler, log: seq<seq<byte>>, chunk: seq<byte>)
    requires log != []
    ensures Save(h, chunk).window == Slide(h.window, chunk).window
    ensures SaveLog(h, log, chunk) == Log(log, Slide(h.window, chunk).written)
  {
    LogNothing(log);
    hide Find, FindFrom, Log;
    assert h.window + [] == h.window;
  }

  lemma WrittenStep(h: Handler, log: seq<seq<byte>>, s: seq<byte>, chunks: seq<seq<byte>>)
    requires log != [] && chunks != []
    ensures var c, later := chunks[0], chunks[1..];
            && SaveLog(h, log, c) != []
            && SaveAll(h, chunks) == SaveAll(Save(h, c), later)
            && WrittenAll(log, h.window, chunks) == WrittenAll(SaveLog(h, log, c), Save(h, c).window, later)
            && s + Concat(chunks) == s + c + Concat(later)
  {
    SaveSlides(h, log, chunks[0]);
    hide SaveLog, Slide, Log, Save;
    Assoc3(s, chunks[0], Concat(chunks[1..]));
  }

  /** Dropped bytes and files are what the windows push out, and lose nothing. */
  lemma {:induction false} FilesWritten(h: Handler, log: seq<seq<byte>>, s: seq<byte>, chunks: seq<seq<byte>>)
    requires Conserved(h, log, s)
    ensures log != []
    ensures var all := WrittenAll(log, h.window, chunks);
            Logged(Flush(SaveAll(h, chunks)), all) && Join(CTF_TAG, all) == s + Concat(chunks)
    decreases |chunks|
  {
    LogNotEmpty(h, log, s);
    if chunks == [] {
      hide Conserved, Logged, Flush, Join, Log;
      FlushLogged(h, log, s);
      assert s + Concat(chunks) == s;
    } else {
      hide Conserved, Save, SaveLog, Logged, Flush, Join, WrittenAll, SaveAll, Concat;
      SaveConserves(h, log, s, chunks[0]);
      WrittenStep(h, log, s, chunks);
      FilesWritten(Save(h, chunks[0]), SaveLog(h, log, chunks[0]), s + chunks[0], chunks[1..]);
    }
  }

  lemma FlushLogged(h: Handler, log: seq<seq<byte>>, s: seq<byte>)
    requires Conserved(h, log, s)
    ensures log != []
    ensures Logged(Flush(h), Log(log, h.window)) && Join(CTF_TAG, Log(log, h.window)) == s
  {
    hide Find, FindFrom, Log, SaveIntegral, Join;
    LogJoin(log, h.window);
    if h.window == [] {
      LogNothing(log);
    } else {
      hide Logged;
      IntegralLogged(h, log, h.window);
    }
  }

  lemma ExactIsCut(log: seq<seq<byte>>)
    requires log != []
    ensures log == LeftmostSplit(CTF_TAG, Join(CTF_TAG, log)) <==> Cuts(CTF_TAG, log)
  {
    SplitJoin(CTF_TAG, Join(CTF_TAG, log));
    if Cuts(CTF_TAG, log) {
      SplitUnique(CTF_TAG, log);
    }
  }

  // ------------------------------------------------------ exactly which chunks are fine

  /** The bytes `a`, written behind a piece `last` without a tag: either there is no tag in
      either, or the first tag of both is the first tag of `a`, and no other is behind it. */
  predicate CleanAfter(last: seq<byte>, a: seq<byte>) {
    var i := Find(CTF_TAG, a);
    if i == -1 then Find(CTF_TAG, last + a) == -1
    else Find(CTF_TAG, last + a) == |last| + i && Find(CTF_TAG, a[i + TAG_LEN..]) == -1
  }

  predicate CleanWrite(w: seq<byte>, a: seq<byte>) {
    CleanAfter(Last(LeftmostSplit(CTF_TAG, w)), a)
  }

  /** Behind the bytes `w` and with a given window, every write that the chunks cause, up to
      the last one at the end, is clean. */
  predicate CleanRun(w: seq<byte>, window: seq<byte>, chunks: seq<seq<byte>>)
    decreases |chunks|
  {
    if chunks == [] then CleanWrite(w, window)
    else
      var s := Slide(window, chunks[0]);
      CleanWrite(w, s.written) && CleanRun(w + s.written, s.window, chunks[1..])
  }

  /** All pieces end where their tag is found. */
  ghost predicate AllCut(pieces: seq<seq<byte>>) {
    forall k :: 0 <= k < |pieces| ==> Find(CTF_TAG, pieces[k] + CTF_TAG) == |pieces[k]|
  }

  lemma CutsSnoc(init: seq<seq<byte>>, x: seq<byte>, y: seq<byte>)
    ensures Cuts(CTF_TAG, init + [x]) <==> AllCut(init) && Find(CTF_TAG, x) == -1
    ensures Cuts(CTF_TAG, init + [x, y]) <==>
            AllCut(init) && Find(CTF_TAG, x + CTF_TAG) == |x| && Find(CTF_TAG, y) == -1
  {
    hide Find, FindFrom;
    var one, two := init + [x], init + [x, y];
    assert forall k :: 0 <= k < |init| ==> one[k] == init[k] == two[k];
    assert Last(one) == x && two[|init|] == x && Last(two) == y;
  }

  /** The first tag behind `last` is where it is whether or not more follows. */
  lemma TagBehind(last: seq<byte>, a: seq<byte>)
    requires Find(CTF_TAG, a) != -1
    ensures var i := Find(CTF_TAG, a);
            Find(CTF_TAG, last + a[..i] + CTF_TAG) == |last + a[..i]| <==> Find(CTF_TAG, last + a) == |last| + i
  {
    hide FindFrom;
    var i := Find(CTF_TAG, a);
    FindSplits(CTF_TAG, a);
    var head, rest := last + a[..i] + CTF_TAG, a[i + TAG_LEN..];
    assert last + a == head + rest;
    if Find(CTF_TAG, head) == |last| + i {
      FindAppend(CTF_TAG, head, rest);
    } else if Find(CTF_TAG, last + a) == |last| + i {
      FindWithin(CTF_TAG, head, rest);
    }
  }

  /** One write keeps what is written exact if and only if it is clean; what is not exact
      never becomes exact again. */
  lemma WriteCuts(log: seq<seq<byte>>, a: seq<byte>)
    requires log != []
    ensures Cuts(CTF_TAG, Log(log, a)) <==> Cuts(CTF_TAG, log) && CleanAfter(Last(log), a)
  {
    var init, last, i := Init(log), Last(log), Find(CTF_TAG, a);
    assert log == init + [last];
    CutsSnoc(init, last, []);
    if Find(CTF_TAG, last) != -1 {
      FindAppend(CTF_TAG, last, a);
    }
    if i == -1 {
      CutsSnoc(init, last + a, []);
    } else {
      if Find(CTF_TAG, last) != -1 {
        assert Find(CTF_TAG, last + a) + TAG_LEN <= |last|;
      }
      TagBehind(last, a);
      CutsSnoc(init, last + a[..i], a[i + TAG_LEN..]);
    }
  }

  lemma {:induction false} RunCuts(log: seq<seq<byte>>, window: seq<byte>, chunks: seq<seq<byte>>)
    requires log != []
    ensures Cuts(CTF_TAG, WrittenAll(log, window, chunks)) <==>
            Cuts(CTF_TAG, log) && CleanRun(Join(CTF_TAG, log), window, chunks)
    decreases |chunks|
  {
    ExactIsCut(log);
    hide LeftmostSplit, Cuts, CleanAfter, Log, Join, Slide;
    if chunks == [] {
      WriteCuts(log, window);
    } else {
      var s := Slide(window, chunks[0]);
      WriteCuts(log, s.written);
      LogJoin(log, s.written);
      RunCuts(Log(log, s.written), s.window, chunks[1..]);
    }
  }

  /** The log is determined by the files and the stream: only the bytes dropped before the
      first file are not in a file, and joining everything gives the stream. */
  lemma LogUnique(h: Handler, a: seq<seq<byte>>, b: seq<seq<byte>>)
    requires Logged(h, a) && Logged(h, b) && Join(CTF_TAG, a) == Join(CTF_TAG, b)
    ensures a == b
  {
    assert |a| == |b|;
    var first := if h.expectTag then 1 else 0;
    forall k | first <= k < |a|
      ensures a[k] == b[k]
    {
      var n: nat := k - first;
      assert Contents(h.disk, n) == a[n + first] == b[n + first];
    }
    if h.expectTag {
      assert a[1..] == b[1..];
      if |a| > 1 {
        var later := CTF_TAG + Join(CTF_TAG, a[1..]);
        assert a[0] + CTF_TAG + Join(CTF_TAG, a[1..]) == a[0] + later;
        assert b[0] + CTF_TAG + Join(CTF_TAG, b[1..]) == b[0] + later;
        assert |a[0]| == |b[0]|;
        Slices(a[0], later);
        Slices(b[0], later);
      }
    }
  }

  /** Main result, for all chunks and all files left by an earlier capture. Dropped bytes and
      files are exactly the leftmost pieces of the stream if and only if every write is clean. */
  lemma {:induction false} FilesExactIff(expectTag: bool, disk: Disk, chunks: seq<seq<byte>>)
    ensures Logged(Flush(SaveAll(Start(expectTag, disk), chunks)), LeftmostSplit(CTF_TAG, Concat(chunks)))
       <==> CleanRun([], [], chunks)
  {
    var h, log := Flush(SaveAll(Start(expectTag, disk), chunks)), WrittenAll([[]], [], chunks);
    StartConserved(expectTag, disk);
    FilesWritten(Start(expectTag, disk), [[]], [], chunks);
    assert [] + Concat(chunks) == Concat(chunks);
    assert Join(CTF_TAG, [[]]) == [];
    OnePiece(CTF_TAG, []);
    assert Cuts(CTF_TAG, [[]]);
    RunCuts([[]], [], chunks);
    ExactIsCut(log);
    SplitJoin(CTF_TAG, Concat(chunks));
    hide Logged, LeftmostSplit, Join, Cuts, CleanRun, WrittenAll;
    if Logged(h, LeftmostSplit(CTF_TAG, Concat(chunks))) {
      LogUnique(h, log, LeftmostSplit(CTF_TAG, Concat(chunks)));
    }
  }

  // --------------------------------------------- chunks and tags that suffice

  /** Any two tags of the stream start at least `d` bytes apart. */
  ghost predicate Spaced(s: seq<byte>, d: nat) {
    forall i, j :: i < j && TagAt(CTF_TAG, s, i) && TagAt(CTF_TAG, s, j) ==> j - i >= d
  }

  /** Every chunk but the last has between 15 and `m` bytes (or none), the last at most `m`. */
  ghost predicate ChunkSizes(chunks: seq<seq<byte>>, m: nat) {
    forall k :: 0 <= k < |chunks| ==>
      |chunks[k]| <= m && (chunks[k] == [] || k == |chunks| - 1 || |chunks[k]| >= TAG_LEN - 1)
  }

  /** No tag of `s` reaches across position `n`. */
  ghost predicate NoTagAcross(s: seq<byte>, n: nat) {
    forall i :: i < n < i + TAG_LEN ==> !TagAt(CTF_TAG, s, i)
  }

  /** The boundary of what is written cuts no tag, and the window is long enough, but too
      short for two tags. */
  ghost predicate OnTrack(w: seq<byte>, window: seq<byte>, rest: seq<byte>, m: nat) {
    && NoTagAcross(w + (window + rest), |w|)
    && (window == [] ==> w == [])
    && (|window| <= m || (|window| < m + TAG_LEN <= 2 * m + 1))
    && (window == [] || rest == [] || |window| >= TAG_LEN - 1)
  }

  /** Writing bytes that hold at most one tag, at a boundary that cuts none. */
  lemma {:induction false} LogExact(log: seq<seq<byte>>, a: seq<byte>)
    requires log != [] && log == LeftmostSplit(CTF_TAG, Join(CTF_TAG, log))
    requires NoTagAcross(Join(CTF_TAG, log) + a, |Join(CTF_TAG, log)|)
    requires Spaced(Join(CTF_TAG, log) + a, |a|)
    ensures Log(log, a) == LeftmostSplit(CTF_TAG, Join(CTF_TAG, log) + a)
  {
    var w := Join(CTF_TAG, log);
    SplitAppend(CTF_TAG, w, a);
    LastThen(log, a);
    AtMostOneTag(w, a);
    hide LeftmostSplit, Join, Find, FindFrom, Spaced, NoTagAcross;
    OnePiece(CTF_TAG, a);
  }

  lemma LastThen(log: seq<seq<byte>>, a: seq<byte>)
    requires log != [] && log == LeftmostSplit(CTF_TAG, Join(CTF_TAG, log))
    requires NoTagAcross(Join(CTF_TAG, log) + a, |Join(CTF_TAG, log)|)
    ensures LeftmostSplit(CTF_TAG, Last(log) + a)
         == [Last(log) + LeftmostSplit(CTF_TAG, a)[0]] + LeftmostSplit(CTF_TAG, a)[1..]
  {
    hide LeftmostSplit, Join;
    var w, last := Join(CTF_TAG, log), Last(log);
    SplitJoin(CTF_TAG, w);
    var d := EndOfJoin(log);
    assert d + (last + a) == w + a;
    forall i | 0 <= i < |last|
      ensures !TagAt(CTF_TAG, last + a, i)
    {
      if i + TAG_LEN <= |last| {
        TagAtPrefix(CTF_TAG, last, a, i);
      } else {
        TagAtSuffix(CTF_TAG, d, last + a, i + |d|);
      }
    }
    SplitDropPrefix(CTF_TAG, last, a);
  }

  lemma EndOfJoin(log: seq<seq<byte>>) returns (d: seq<byte>)
    requires log != []
    ensures Join(CTF_TAG, log) == d + Last(log)
    decreases |log|
  {
    if |log| == 1 {
      d := [];
      assert log[0] == [] + log[0];
    } else {
      var d1 := EndOfJoin(log[1..]);
      d := log[0] + CTF_TAG + d1;
      assert log[0] + CTF_TAG + (d1 + Last(log)) == d + Last(log);
    }
  }

  lemma {:induction false} AtMostOneTag(w: seq<byte>, a: seq<byte>)
    requires Spaced(w + a, |a|)
    ensures Find(CTF_TAG, a) != -1 ==>
              LeftmostSplit(CTF_TAG, a) == [a[..Find(CTF_TAG, a)], a[Find(CTF_TAG, a) + TAG_LEN..]]
  {
    hide FindFrom, Spaced;
    var i := Find(CTF_TAG, a);
    if i != -1 {
      var rest := a[i + TAG_LEN..];
      NoSecondTag(w, a, i, Find(CTF_TAG, rest));
      OnePiece(CTF_TAG, rest);
    }
  }

  lemma NoSecondTag(w: seq<byte>, a: seq<byte>, i: nat, j: int)
    requires Spaced(w + a, |a|)
    requires TagAt(CTF_TAG, a, i)
    requires j == -1 || TagAt(CTF_TAG, a[i + TAG_LEN..], j)
    ensures j == -1
  {
    TagAtSuffix(CTF_TAG, w, a, |w| + i);
    if j != -1 {
      var k := i + TAG_LEN + j;
      assert a == a[..i + TAG_LEN] + a[i + TAG_LEN..];
      TagAtSuffix(CTF_TAG, a[..i + TAG_LEN], a[i + TAG_LEN..], k);
      TagAtSuffix(CTF_TAG, w, a, |w| + k);
    }
  }

  lemma SpacedPrefix(s: seq<byte>, t: seq<byte>, d: nat, e: nat)
    requires Spaced(s + t, d) && e <= d
    ensures Spaced(s, e)
  {
    forall i, j | i < j && TagAt(CTF_TAG, s, i) && TagAt(CTF_TAG, s, j)
      ensures j - i >= e
    {
      TagAtPrefix(CTF_TAG, s, t, i);
      TagAtPrefix(CTF_TAG, s, t, j);
    }
  }

  lemma NoTagAcrossPrefix(s: seq<byte>, t: seq<byte>, n: nat)
    requires NoTagAcross(s + t, n)
    ensures NoTagAcross(s, n)
  {
    forall i | i < n < i + TAG_LEN
      ensures !TagAt(CTF_TAG, s, i)
    {
      if i + TAG_LEN <= |s| {
        TagAtPrefix(CTF_TAG, s, t, i);
      }
    }
  }

  /** Writing the first bytes `a` of what is in hand is clean. */
  lemma WriteClean(w: seq<byte>, a: seq<byte>, later: seq<byte>, m: nat)
    requires NoTagAcross(w + (a + later), |w|)
    requires Spaced(w + (a + later), 2 * m) && |a| <= 2 * m
    ensures CleanWrite(w, a)
  {
    var log := LeftmostSplit(CTF_TAG, w);
    assert w + (a + later) == w + a + later;
    SplitJoin(CTF_TAG, w);
    SpacedPrefix(w + a, later, 2 * m, |a|);
    NoTagAcrossPrefix(w + a, later, |w|);
    LogExact(log, a);
    SplitJoin(CTF_TAG, w + a);
    WriteCuts(log, a);
  }

  /** The adjusted boundary lies right before a tag, so no other tag reaches across it. */
  lemma BoundaryBeforeTag(w: seq<byte>, joined: seq<byte>, later: seq<byte>, d: nat)
    requires Spaced(w + (joined + later), d) && d >= TAG_LEN
    requires Find(CTF_TAG, joined) != -1
    ensures NoTagAcross(w + (joined + later), |w| + Find(CTF_TAG, joined))
  {
    var i := Find(CTF_TAG, joined);
    TagAtPrefix(CTF_TAG, joined, later, i);
    TagAtSuffix(CTF_TAG, w, joined + later, |w| + i);
  }

  /** Where a tag of what is in hand is in the whole stream. */
  lemma InStream(w: seq<byte>, joined: seq<byte>, later: seq<byte>, i: nat)
    requires i + TAG_LEN <= |joined|
    ensures TagAt(CTF_TAG, w + (joined + later), |w| + i) <==> TagAt(CTF_TAG, joined, i)
  {
    TagAtPrefix(CTF_TAG, joined, later, i);
    TagAtSuffix(CTF_TAG, w, joined + later, |w| + i);
  }

  /** There is a tag in the window or in the chunk, unless none is in both together. */
  lemma TagInEither(window: seq<byte>, c: seq<byte>) returns (i: nat)
    requires !TagAcross(window, c) && Find(CTF_TAG, window + c) != -1
    ensures TagAt(CTF_TAG, window + c, i)
    ensures i + TAG_LEN <= |window| || |window| <= i
  {
    hide FindFrom;
    if Find(CTF_TAG, window) != -1 {
      i := Find(CTF_TAG, window);
      TagAtPrefix(CTF_TAG, window, c, i);
    } else {
      i := |window| + Find(CTF_TAG, c);
      TagAtSuffix(CTF_TAG, window, c, i);
    }
  }

  /** The boundary between window and chunk cuts no tag when none is found across them, or
      when there is a tag in either: it would be too close to the one across. */
  lemma BoundaryBetween(w: seq<byte>, window: seq<byte>, c: seq<byte>, later: seq<byte>, d: nat)
    requires Spaced(w + (window + c + later), d) && |window| <= d && |c| <= d
    requires |window| >= TAG_LEN - 1 && (later == [] || |c| >= TAG_LEN - 1)
    requires !TagAcross(window, c)
    ensures NoTagAcross(w + (window + c + later), |w| + |window|)
  {
    var joined := window + c;
    if Find(CTF_TAG, joined) != -1 {
      var i := TagInEither(window, c);
      InStream(w, joined, later, i);
    }
    hide FindFrom, Find, TagAcross;
    forall k | k < |w| + |window| < k + TAG_LEN
      ensures !TagAt(CTF_TAG, w + (joined + later), k)
    {
      if k - |w| + TAG_LEN <= |joined| {
        InStream(w, joined, later, k - |w|);
      }
    }
  }

  /** The adjusted boundary: right before the first tag found, which lies across. */
  lemma AcrossAt(window: seq<byte>, c: seq<byte>)
    requires TagAcross(window, c)
    ensures var i := Find(CTF_TAG, window + c); i < |window| < i + TAG_LEN
  {
    var i := Find(CTF_TAG, window + c);
    if i + TAG_LEN <= |window| {
      TagAtPrefix(CTF_TAG, window, c, i);
    } else if |window| <= i {
      TagAtSuffix(CTF_TAG, window, c, i);
    }
  }

  lemma SlideAcross(w: seq<byte>, window: seq<byte>, c: seq<byte>, rest: seq<byte>, m: nat)
    requires OnTrack(w, window, c + rest, m) && Spaced(w + (window + (c + rest)), 2 * m)
    requires c != [] && |c| <= m && |window| >= TAG_LEN - 1 && TagAcross(window, c)
    ensures var s := Slide(window, c);
            CleanWrite(w, s.written) && OnTrack(w + s.written, s.window, rest, m)
  {
    AcrossAt(window, c);
    hide Find, FindFrom, LeftmostSplit, Spaced, NoTagAcross, TagAcross, CleanWrite;
    var joined, i := window + c, Find(CTF_TAG, window + c);
    var a, b := joined[..i], joined[i..];
    InHand(w, window, c, rest, i);
    WriteClean(w, a, b + rest, m);
    BoundaryBeforeTag(w, joined, rest, 2 * m);
  }

  lemma InHand(w: seq<byte>, window: seq<byte>, c: seq<byte>, rest: seq<byte>, i: nat)
    requires i <= |window + c|
    ensures var joined := window + c;
            && joined + rest == window + (c + rest) == joined[..i] + (joined[i..] + rest)
            && (w + joined[..i]) + (joined[i..] + rest) == w + (joined + rest)
    ensures (w + window) + (c + rest) == w + (window + (c + rest))
  {
  }

  lemma SlideWhole(w: seq<byte>, window: seq<byte>, c: seq<byte>, rest: seq<byte>, m: nat)
    requires OnTrack(w, window, c + rest, m) && Spaced(w + (window + (c + rest)), 2 * m)
    requires c != [] && |c| <= m && (rest == [] || |c| >= TAG_LEN - 1)
    requires |window| >= TAG_LEN - 1 && !TagAcross(window, c)
    ensures var s := Slide(window, c);
            CleanWrite(w, s.written) && OnTrack(w + s.written, s.window, rest, m)
  {
    hide Find, FindFrom, LeftmostSplit, Spaced, NoTagAcross, TagAcross, CleanWrite;
    InHand(w, window, c, rest, 0);
    WriteClean(w, window, c + rest, m);
    BoundaryBetween(w, window, c, rest, 2 * m);
  }

  lemma SlideOnTrack(w: seq<byte>, window: seq<byte>, c: seq<byte>, rest: seq<byte>, m: nat)
    requires OnTrack(w, window, c + rest, m) && Spaced(w + (window + (c + rest)), 2 * m)
    requires |c| <= m && (c == [] || rest == [] || |c| >= TAG_LEN - 1)
    ensures var s := Slide(window, c);
            CleanWrite(w, s.written) && OnTrack(w + s.written, s.window, rest, m)
  {
    if c != [] && |window| >= TAG_LEN - 1 {
      if TagAcross(window, c) {
        SlideAcross(w, window, c, rest, m);
      } else {
        SlideWhole(w, window, c, rest, m);
      }
    } else {
      NothingIsClean(w);
      assert c == [] ==> c + rest == rest && window + c == window;
      assert window == [] ==> window + (c + rest) == c + rest && window + c == c;
      assert w + [] == w;
    }
  }

  lemma NothingIsClean(w: seq<byte>)
    ensures CleanWrite(w, [])
  {
    SplitJoin(CTF_TAG, w);
    assert Last(LeftmostSplit(CTF_TAG, w)) + [] == Last(LeftmostSplit(CTF_TAG, w));
    assert Find(CTF_TAG, []) == -1;
  }

  lemma {:induction false} SpacedIsClean(w: seq<byte>, window: seq<byte>, chunks: seq<seq<byte>>, m: nat)
    requires OnTrack(w, window, Concat(chunks), m) && ChunkSizes(chunks, m)
    requires Spaced(w + (window + Concat(chunks)), 2 * m)
    ensures CleanRun(w, window, chunks)
    decreases |chunks|
  {
    hide NoTagAcross, Spaced, CleanWrite, LeftmostSplit;
    if chunks == [] {
      WriteClean(w, window, [], m);
    } else {
      var c, later := chunks[0], chunks[1..];
      SlideOnTrack(w, window, c, Concat(later), m);
      forall k | 0 <= k < |later|
        ensures |later[k]| <= m && (later[k] == [] || k == |later| - 1 || |later[k]| >= TAG_LEN - 1)
      {
        assert later[k] == chunks[k + 1];
      }
      var s := Slide(window, c);
      InHandSlid(w, window, c, Concat(later));
      hide OnTrack, Slide;
      SpacedIsClean(w + s.written, s.window, later, m);
    }
  }

  lemma InHandSlid(w: seq<byte>, window: seq<byte>, c: seq<byte>, rest: seq<byte>)
    ensures var s := Slide(window, c);
            (w + s.written) + (s.window + rest) == w + (window + (c + rest))
  {
    hide Slide;
    var s := Slide(window, c);
    AssocPairs(w, s.written, s.window, rest);
    Assoc3(window, c, rest);
  }

  /** Chunks of 15 to `m` bytes (the last may be shorter) and tags at least `2 * m` apart
      suffice: dropped bytes and files are exactly the pieces of the stream, and closing
      complains (`expectTag` and nothing found) exactly when there is no tag in the stream. */
  lemma {:induction false} FilesExact(expectTag: bool, disk: Disk, chunks: seq<seq<byte>>, m: nat)
    requires ChunkSizes(chunks, m)
    requires Spaced(Concat(chunks), 2 * m)
    ensures CleanRun([], [], chunks)
    ensures var h := Flush(SaveAll(Start(expectTag, disk), chunks));
            && Logged(h, LeftmostSplit(CTF_TAG, Concat(chunks)))
            && (h.found <==> Find(CTF_TAG, Concat(chunks)) != -1)
  {
    assert [] + ([] + Concat(chunks)) == Concat(chunks);
    SpacedIsClean([], [], chunks, m);
    FilesExactIff(expectTag, disk, chunks);
    OnePiece(CTF_TAG, Concat(chunks));
  }

  ghost predicate Zeros(z: seq<byte>) {
    forall k :: 0 <= k < |z| ==> z[k] == 0
  }

  /** Main result. Without the lower bound on chunks a tag can be lost: here it comes in three parts
      behind some other bytes, the second part too short to be looked at together with both
      others. It is found exactly when the first chunk is shorter than what the window needs
      before it is written. */
  lemma {:induction false} ShortChunkLosesTag(z: seq<byte>)
    requires Zeros(z)
    ensures var chunks := [z + CTF_TAG[..5], CTF_TAG[5..10], CTF_TAG[10..]];
            && Find(CTF_TAG, Concat(chunks)) == |z|
            && (Flush(SaveAll(Start(true, map[]), chunks)).found <==> |z| + 5 < TAG_LEN - 1)
  {
    PartsOfTag(z);
    ThreeChunks(z + CTF_TAG[..5], CTF_TAG[5..10], CTF_TAG[10..]);
  }

  lemma PartsOfTag(z: seq<byte>)
    requires Zeros(z)
    ensures var a, b, c := z + CTF_TAG[..5], CTF_TAG[5..10], CTF_TAG[10..];
            && a + (b + c) == (a + b) + c == z + CTF_TAG
            && Find(CTF_TAG, a) == -1 && Find(CTF_TAG, a + b) == -1 && Find(CTF_TAG, b + c) == -1
            && Find(CTF_TAG, c) == -1 && Find(CTF_TAG, z + CTF_TAG) == |z|
  {
    TagAfterZeros(z);
    NoTagAfterZeros(z, CTF_TAG[..5]);
    NoTagAfterZeros(z, CTF_TAG[..10]);
    NoTagInParts();
    hide Find, FindFrom;
    assert (z + CTF_TAG[..5]) + CTF_TAG[5..10] == z + CTF_TAG[..10];
  }

  lemma {:induction false} ThreeChunks(a: seq<byte>, b: seq<byte>, c: seq<byte>)
    requires a != [] && b != [] && c != [] && |b| < TAG_LEN - 1
    requires Find(CTF_TAG, a) == -1 && Find(CTF_TAG, a + b) == -1 && Find(CTF_TAG, b + c) == -1
    requires Find(CTF_TAG, c) == -1 && Find(CTF_TAG, (a + b) + c) != -1
    ensures Concat([a, b, c]) == a + (b + c)
    ensures Flush(SaveAll(Start(true, map[]), [a, b, c])).found <==> |a| < TAG_LEN - 1
  {
    var h0 := Start(true, map[]);
    ThreeParts(h0, a, b, c);
    assert [] + a == a;
    hide Find, FindFrom, Flush, SaveIntegral, SaveAll, Concat;
    assert Save(h0, a) == h0.(window := a);
    if |a| < TAG_LEN - 1 {
      FoundInTwo(h0.(window := a + b), c);
    } else {
      LostInThree(h0.(window := a), b, c);
    }
  }

  lemma NoTagInParts()
    ensures Find(CTF_TAG, CTF_TAG[5..10]) == -1
    ensures Find(CTF_TAG, CTF_TAG[5..10] + CTF_TAG[10..]) == -1 && Find(CTF_TAG, CTF_TAG[10..]) == -1
  {
  }

  /** A tag that is cut by the boundary of the window is found, now or when the window is flushed. */
  lemma FoundInTwo(h: Handler, c: seq<byte>)
    requires c != [] && TagAcross(h.window, c)
    ensures Flush(Save(h, c)).found
  {
    var joined := h.window + c;
    var i := Find(CTF_TAG, joined);
    assert joined[i..][..TAG_LEN] == CTF_TAG;
    assert TagAt(CTF_TAG, joined[i..], 0);
    hide FindFrom;
  }

  /** No two neighbouring chunks hold a tag: none is found. */
  lemma LostInThree(h: Handler, b: seq<byte>, c: seq<byte>)
    requires !h.found && h.window != [] && |h.window| >= TAG_LEN - 1 && 0 < |b| < TAG_LEN - 1 && c != []
    requires Find(CTF_TAG, h.window) == -1 && Find(CTF_TAG, h.window + b) == -1 && Find(CTF_TAG, b + c) == -1
    ensures !Flush(Save(Save(h, b), c)).found
  {
    hide Find, FindFrom;
    assert Save(h, b) == SaveIntegral(h, h.window).(window := b);
  }

  lemma ThreeParts(h: Handler, a: seq<byte>, b: seq<byte>, c: seq<byte>)
    ensures Concat([a, b, c]) == a + (b + c)
    ensures SaveAll(h, [a, b, c]) == Save(Save(Save(h, a), b), c)
  {
    hide Save;
    var none: seq<seq<byte>> := [];
    assert [a, b, c][1..] == [b, c] && [b, c][1..] == [c] && [c][1..] == none;
    ConcatTwo(b, c);
    var h2 := Save(Save(h, a), b);
    assert SaveAll(h2, [c]) == SaveAll(Save(h2, c), none);
  }

  lemma TagAfterZeros(z: seq<byte>)
    requires Zeros(z)
    ensures Find(CTF_TAG, z + CTF_TAG) == |z|
  {
    var s := z + CTF_TAG;
    assert s[|z|..|z| + TAG_LEN] == CTF_TAG;
    assert TagAt(CTF_TAG, s, |z|);
    forall i | 0 <= i < |z|
      ensures !TagAt(CTF_TAG, s, i)
    {
      assert s[i..i + TAG_LEN][0] == z[i] == 0 != CTF_TAG[0];
    }
    FindIs(CTF_TAG, s, |z|);
  }

  lemma NoTagAfterZeros(z: seq<byte>, t: seq<byte>)
    requires Zeros(z) && |t| < TAG_LEN
    ensures Find(CTF_TAG, z + t) == -1
  {
    var s := z + t;
    forall i | 0 <= i && i + TAG_LEN <= |s|
      ensures !TagAt(CTF_TAG, s, i)
    {
      assert s[i..i + TAG_LEN][0] == s[i] == z[i] == 0;
      assert CTF_TAG[0] != 0;
    }
    FindNone(CTF_TAG, s);
  }
}
