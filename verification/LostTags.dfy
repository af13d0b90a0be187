/** Which streams the network can cut so that the live framer misses a tag. */
module LostTags {
  import opened Sequences
  import opened Splitting
  import opened StreamEnds
  import opened Framing
  import opened StreamParserProxies
  import opened ChunkIndependence

  // ------------------------------------------------------------- parts of a split

  lemma {:induction false} JoinAppend(tag: seq<byte>, a: seq<seq<byte>>, b: seq<seq<byte>>)
    requires a != [] && b != []
    ensures Join(tag, a + b) == Join(tag, a) + tag + Join(tag, b)
    decreases |a|
  {
    assert (a + b)[1..] == a[1..] + b;
    if |a| > 1 {
      JoinAppend(tag, a[1..], b);
    }
  }

  lemma {:induction false} JoinLonger(tag: seq<byte>, a: seq<seq<byte>>, p: seq<byte>, t: seq<byte>)
    ensures Join(tag, a + [p + t]) == Join(tag, a + [p]) + t
    decreases |a|
  {
    if a == [] {
      assert a + [p + t] == [p + t] && a + [p] == [p];
    } else {
      assert (a + [p + t])[1..] == a[1..] + [p + t] && (a + [p])[1..] == a[1..] + [p];
      JoinLonger(tag, a[1..], p, t);
    }
  }

  /** The pieces up to the `k`-th, which now ends inside the tag behind it. */
  function UpToTag(pieces: seq<seq<byte>>, k: nat, j: nat): seq<seq<byte>>
    requires k < |pieces| && j <= TAG_LEN
  {
    pieces[..k] + [pieces[k] + CTF_TAG[..j]]
  }

  lemma CutInTagCuts(pieces: seq<seq<byte>>, k: nat, j: nat)
    requires pieces != [] && Cuts(CTF_TAG, pieces) && k < |pieces| - 1 && j < TAG_LEN
    ensures Cuts(CTF_TAG, UpToTag(pieces, k, j)) && Cuts(CTF_TAG, pieces[k + 1..])
  {
    hide Find, FindFrom;
    var rest := pieces[k + 1..];
    NotYetATag(pieces[k], j);
    assert Last(rest) == Last(pieces);
    forall l | 0 <= l < |rest| - 1
      ensures Find(CTF_TAG, rest[l] + CTF_TAG) == |rest[l]|
    {
      assert rest[l] == pieces[l + k + 1];
    }
  }

  /** The stream in two parts, cut after the bytes `t` of the tag behind a piece. */
  lemma {:induction false} CutInTagJoins(tag: seq<byte>, pieces: seq<seq<byte>>, k: nat, t: seq<byte>)
    requires k < |pieces| - 1
    ensures Join(tag, pieces) == Join(tag, pieces[..k + 1]) + tag + Join(tag, pieces[k + 1..])
    ensures Join(tag, pieces[..k] + [pieces[k] + t]) == Join(tag, pieces[..k + 1]) + t
  {
    hide Join;
    var first, rest := pieces[..k + 1], pieces[k + 1..];
    assert pieces == first + rest;
    JoinAppend(tag, first, rest);
    assert first == pieces[..k] + [pieces[k]];
    JoinLonger(tag, pieces[..k], pieces[k], t);
  }

  // ----------------------------------------------------------- one tag swallowed

  /** All of a tag but its first byte, which is also its last. */
  const TAG_REST := CTF_TAG[1..]

  /** The tag behind a piece shares its last byte with another tag. */
  ghost predicate Overlapped(pieces: seq<seq<byte>>, k: nat)
    requires k < |pieces| - 1
  {
    TAG_REST <= Join(CTF_TAG, pieces[k + 1..])
  }

  lemma SecondByte(s: seq<byte>, i: nat)
    ensures TagAt(CTF_TAG, s, i) ==>
              s[i] == CTF_TAG[0] && s[i + 1] == CTF_TAG[1] && s[i..i + TAG_LEN][1..] == TAG_REST
  {
    if TagAt(CTF_TAG, s, i) {
      assert s[i] == s[i..i + TAG_LEN][0] && s[i + 1] == s[i..i + TAG_LEN][1];
    }
  }

  /** Behind its first byte a tag has no other `_z`. */
  lemma TagStarts(p: nat)
    requires 0 < p < TAG_LEN - 1
    ensures CTF_TAG[p] != CTF_TAG[0] || CTF_TAG[p + 1] != CTF_TAG[1]
  {
  }

  lemma NoTagInRest(w: seq<byte>, j: nat, i: nat)
    requires !(TAG_REST <= w) && 0 < j && j + i < TAG_LEN
    ensures !TagAt(CTF_TAG, CTF_TAG[j..] + w, i)
  {
    var d := CTF_TAG[j..];
    SecondByte(d + w, i);
    assert (d + w)[i] == CTF_TAG[j + i];
    if i + 1 < |d| {
      TagStarts(j + i);
      assert (d + w)[i + 1] == CTF_TAG[j + i + 1];
    } else if |w| >= TAG_LEN - 1 {
      assert (d + w)[i..i + TAG_LEN] == [CTF_TAG[j + i]] + w[..TAG_LEN - 1];
    }
  }

  /** What is left of a tag makes up a tag with the bytes behind it only if the two overlap. */
  lemma {:induction false} RestIsNoTag(w: seq<byte>, j: nat)
    requires !(TAG_REST <= w) && 0 < j <= TAG_LEN
    ensures |LeftmostSplit(CTF_TAG, CTF_TAG[j..] + w)| == |LeftmostSplit(CTF_TAG, w)|
  {
    hide LeftmostSplit;
    var d := CTF_TAG[j..];
    forall i | 0 <= i < |d|
      ensures !TagAt(CTF_TAG, d + w, i)
    {
      NoTagInRest(w, j, i);
    }
    SplitDropPrefix(CTF_TAG, d, w);
  }

  /** One chunk asks for a reset for every tag of what is buffered then. */
  lemma {:induction false} ChunkCounts(bits: bool, p: Proxy, c: seq<byte>)
    ensures ResetCount(Process(bits, p, c).0) == |LeftmostSplit(CTF_TAG, p.buffer + c)| - 1
  {
    var pieces := LeftmostSplit(CTF_TAG, p.buffer + c);
    var packets := Frame(bits, Last(pieces)).packets;
    SinceSettled([], |pieces| - 1, packets);
    assert [] + (Resets(|pieces| - 1) + Packets(packets)) == Resets(|pieces| - 1) + Packets(packets);
  }

  lemma {:induction false} RunTwo(bits: bool, u: seq<byte>, v: seq<byte>)
    ensures var p := Process(bits, START, u).1;
            ResetCount(Run(bits, START, [u, v]).0) ==
              |LeftmostSplit(CTF_TAG, u)| - 1 + |LeftmostSplit(CTF_TAG, p.buffer + v)| - 1
  {
    var x := Process(bits, START, u);
    var y := Process(bits, x.1, v);
    ChunkCounts(bits, START, u);
    ChunkCounts(bits, x.1, v);
    assert [] + u == u;
    CountAppend(x.0, y.0);
    hide Process, LeftmostSplit;
    var none: seq<seq<byte>> := [];
    assert [u, v][1..] == [v] && [v][1..] == none;
    assert Run(bits, y.1, none).0 == [] && y.0 + [] == y.0;
    assert Run(bits, x.1, [v]).0 == y.0;
  }

  /** A whole stream in one chunk: as many resets as tags. */
  lemma {:induction false} OneChunkCounts(bits: bool, s: seq<byte>)
    ensures ResetCount(Run(bits, START, [s]).0) == |LeftmostSplit(CTF_TAG, s)| - 1
  {
    var x := Process(bits, START, s);
    ChunkCounts(bits, START, s);
    assert [] + s == s;
    hide Process, LeftmostSplit;
    var none: seq<seq<byte>> := [];
    assert [s][1..] == none && Run(bits, x.1, none).0 == [] && x.0 + [] == x.0;
  }

  /** The first part of the tag is dropped or taken for the end of a packet. */
  lemma {:induction false} Swallows(bits: bool, u: seq<byte>)
    requires var pieces := LeftmostSplit(CTF_TAG, u);
             |pieces| > 1 && var f := Frame(bits, Last(pieces)); f.corrupt || f.tail == []
    ensures Process(bits, START, u).1.buffer == []
  {
    assert [] + u == u;
  }

  /** A stream with a piece that is not tag-safe, cut inside the tag behind that piece. */
  lemma {:induction false} TagSwallowed(bits: bool, s: seq<byte>, k: nat) returns (chunks: seq<seq<byte>>)
    requires 1 <= k < |LeftmostSplit(CTF_TAG, s)| - 1 && !TagSafe(bits, LeftmostSplit(CTF_TAG, s)[k])
    requires !Overlapped(LeftmostSplit(CTF_TAG, s), k)
    ensures Concat(chunks) == s
    ensures ResetCount(Run(bits, START, chunks).0) == |LeftmostSplit(CTF_TAG, s)| - 2
  {
    hide LeftmostSplit, Find, FindFrom, Frame, TagSafe, Cuts, Join, Process;
    var pieces := LeftmostSplit(CTF_TAG, s);
    var j := UnsafeCut(bits, pieces[k]);
    SplitJoin(CTF_TAG, s);
    CutInTagJoins(CTF_TAG, pieces, k, CTF_TAG[..j]);
    CutInTagCuts(pieces, k, j);
    SplitUnique(CTF_TAG, UpToTag(pieces, k, j));
    SplitUnique(CTF_TAG, pieces[k + 1..]);
    var x, w := Join(CTF_TAG, pieces[..k + 1]), Join(CTF_TAG, pieces[k + 1..]);
    var u, v := x + CTF_TAG[..j], CTF_TAG[j..] + w;
    assert s == u + v;
    ConcatTwo(u, v);
    Swallows(bits, u);
    RestIsNoTag(w, j);
    assert [] + v == v;
    RunTwo(bits, u, v);
    chunks := [u, v];
  }

  /** No tag behind a piece that is not tag-safe shares a byte with another tag. */
  ghost predicate LossShows(bits: bool, s: seq<byte>) {
    var pieces := LeftmostSplit(CTF_TAG, s);
    forall k :: 1 <= k < |pieces| - 1 && !TagSafe(bits, pieces[k]) ==> !Overlapped(pieces, k)
  }

  /** Main result. The number of resets does not depend on how a stream is cut into chunks if and
      only if the stream is tag-safe (unless a tag that can be lost overlaps another). */
  lemma {:induction false} ResetsAgreeIff(bits: bool, s: seq<byte>)
    requires LossShows(bits, s)
    ensures TagSafeStream(bits, s) <==>
            forall chunks :: Concat(chunks) == s ==>
              ResetCount(Run(bits, START, chunks).0) == ResetCount(Run(bits, START, [s]).0)
  {
    hide LeftmostSplit, TagSafe, Concat, Run, ResetCount, Overlapped;
    OneChunkCounts(bits, s);
    if TagSafeStream(bits, s) {
      forall chunks | Concat(chunks) == s
        ensures ResetCount(Run(bits, START, chunks).0) == ResetCount(Run(bits, START, [s]).0)
      {
        ChunkingDoesNotMatter(bits, chunks);
      }
    } else {
      var k :| 1 <= k < |LeftmostSplit(CTF_TAG, s)| - 1 && !TagSafe(bits, LeftmostSplit(CTF_TAG, s)[k]);
      var chunks := TagSwallowed(bits, s, k);
    }
  }

  // ------------------------------------------------------------- tags that overlap

  /** Bytes that hold no `_z` with the tag behind them. */
  predicate NoTagStarts(a: seq<byte>) {
    forall i :: 0 <= i < |a| ==> a[i] != CTF_TAG[0] || (a + CTF_TAG)[i + 1] != CTF_TAG[1]
  }

  lemma SplitBehind(a: seq<byte>, rest: seq<byte>)
    requires NoTagStarts(a)
    ensures LeftmostSplit(CTF_TAG, a + CTF_TAG + rest) == [a] + LeftmostSplit(CTF_TAG, rest)
  {
    hide LeftmostSplit, FindFrom;
    var s := a + CTF_TAG;
    assert s[|a|..|a| + TAG_LEN] == CTF_TAG;
    assert TagAt(CTF_TAG, s, |a|);
    forall i | 0 <= i < |a|
      ensures !TagAt(CTF_TAG, s, i)
    {
      assert s[i] == a[i];
      assert s[i..i + TAG_LEN][0] == s[i] && s[i..i + TAG_LEN][1] == s[i + 1];
    }
    FindIs(CTF_TAG, s, |a|);
    FindAppend(CTF_TAG, s, rest);
    SplitAt(CTF_TAG, a, rest);
  }

  lemma ThreeTags(a: seq<byte>, b: seq<byte>)
    requires a == [0, 0, 64, 0] && b == TAG_REST
    ensures LeftmostSplit(CTF_TAG, CTF_TAG + a + CTF_TAG + b + CTF_TAG) == [[], a, b, []]
  {
    hide LeftmostSplit;
    var t, s := b + CTF_TAG + [], a + CTF_TAG + (b + CTF_TAG + []);
    assert [] + CTF_TAG + s == CTF_TAG + a + CTF_TAG + b + CTF_TAG;
    SplitBehind([], s);
    SplitBehind(a, t);
    SplitBehind(b, []);
    NoTagInEmpty();
    OnePiece(CTF_TAG, []);
  }

  lemma TwoTags(part: seq<byte>)
    requires part == CTF_TAG[4..TAG_LEN - 1]
    ensures LeftmostSplit(CTF_TAG, CTF_TAG[4..] + TAG_REST + CTF_TAG) == [part, [], []]
  {
    hide LeftmostSplit;
    var t := [] + CTF_TAG + [];
    assert part + CTF_TAG + t == CTF_TAG[4..] + TAG_REST + CTF_TAG;
    SplitBehind(part, t);
    SplitBehind([], []);
    NoTagInEmpty();
    OnePiece(CTF_TAG, []);
  }

  lemma OneTag(piece: seq<byte>)
    requires piece == [0, 0, 64, 0]
    ensures LeftmostSplit(CTF_TAG, CTF_TAG + piece + CTF_TAG[..4]) == [[], piece + CTF_TAG[..4]]
  {
    hide LeftmostSplit;
    var t := piece + CTF_TAG[..4];
    assert [] + CTF_TAG + t == CTF_TAG + piece + CTF_TAG[..4];
    SplitBehind([], t);
    FindNone(CTF_TAG, t);
    OnePiece(CTF_TAG, t);
  }

  lemma {:induction false} OnePacket(piece: seq<byte>)
    requires piece == [0, 0, 64, 0]
    ensures !TagSafe(true, piece)
    ensures var u := CTF_TAG + piece + CTF_TAG[..4];
            Process(true, START, u) == ([Reset, Packet(piece + CTF_TAG[..4])], Proxy(true, []))
  {
    var u, cut := CTF_TAG + piece + CTF_TAG[..4], piece + CTF_TAG[..4];
    assert HeaderSize(true, piece) == 8;
    assert HeaderSize(true, cut) == 8 == |cut|;
    TagSafeIff(true, piece);
    OneTag(piece);
    assert [] + u == u;
    assert Frame(true, cut) == Frames([cut], [], false) by {
      assert cut[..8] == cut && cut[8..] == [];
      assert Frame(true, []) == Frames([], [], false);
    }
    hide LeftmostSplit, Frame, TagSafe;
    assert Resets(1) + Packets([cut]) == [Reset, Packet(cut)];
  }

  /** If tags overlap, the rest of a tag that is swallowed can make up a tag with the bytes behind
      it: a packet cut short, then two tags that share a byte, and a third. Cut where the first
      of the two is lost, the stream still causes three resets. */
  lemma {:induction false} OverlapHidesLoss()
    ensures var piece := [0, 0, 64, 0];
            var s := CTF_TAG + piece + CTF_TAG + TAG_REST + CTF_TAG;
            var u, v := CTF_TAG + piece + CTF_TAG[..4], CTF_TAG[4..] + TAG_REST + CTF_TAG;
            && u + v == s && !TagSafeStream(true, s)
            && Process(true, START, u) == ([Reset, Packet(piece + CTF_TAG[..4])], Proxy(true, []))
            && ResetCount(Run(true, START, [u, v]).0) == 3 == ResetCount(Run(true, START, [s]).0)
  {
    var piece := [0, 0, 64, 0];
    var s := CTF_TAG + piece + CTF_TAG + TAG_REST + CTF_TAG;
    var u, v := CTF_TAG + piece + CTF_TAG[..4], CTF_TAG[4..] + TAG_REST + CTF_TAG;
    assert u + v == s;
    hide LeftmostSplit, Process, TagSafe, Run, ResetCount;
    ThreeTags(piece, TAG_REST);
    TwoTags(CTF_TAG[4..TAG_LEN - 1]);
    OneTag(piece);
    OnePacket(piece);
    assert !TagSafe(true, LeftmostSplit(CTF_TAG, s)[1]);
    assert [] + v == v;
    RunTwo(true, u, v);
    OneChunkCounts(true, s);
  }
}
