/** What the live framer delivers does not depend on how the network cuts the stream, as
    long as no packet that a new tag cuts short could be mistaken for a complete one. */
module ChunkIndependence {
  import opened Sequences
  import opened Splitting
  import opened StreamEnds
  import opened Framing
  import opened StreamParserProxies

  const PARTIAL_TAG := CTF_TAG[..TAG_LEN - 1]

  /** The framer fed with a sequence of chunks. */
  function Run(bits: bool, p: Proxy, chunks: seq<seq<byte>>): (r: (seq<Action>, Proxy))
    decreases |chunks|
  {
    if chunks == [] then ([], p)
    else
      var head := Process(bits, p, chunks[0]);
      var tail := Run(bits, head.1, chunks[1..]);
      (head.0 + tail.0, tail.1)
  }

  /** How many resets were asked for, and which packets were forwarded since the last one. */
  function ResetCount(actions: seq<Action>): nat {
    if actions == [] then 0 else ResetCount(Init(actions)) + if Last(actions) == Reset then 1 else 0
  }

  function SinceReset(actions: seq<Action>): seq<seq<byte>> {
    if actions == [] || Last(actions) == Reset then []
    else SinceReset(Init(actions)) + [Last(actions).data]
  }

  /** A piece that a tag may follow: framing it together with any part of that tag (short of
      the whole tag) neither meets a corrupt header nor takes a byte of the tag. */
  predicate TagSafe(bits: bool, piece: seq<byte>) {
    var f := Frame(bits, piece + PARTIAL_TAG);
    !f.corrupt && |f.tail| >= TAG_LEN - 1
  }

  /** All pieces between the first tag and the last one are tag-safe. */
  ghost predicate TagSafeStream(bits: bool, s: seq<byte>) {
    var pieces := LeftmostSplit(CTF_TAG, s);
    forall k :: 1 <= k < |pieces| - 1 ==> TagSafe(bits, pieces[k])
  }

  /** The state and the output that the bytes received so far, `s`, call for. */
  ghost predicate Follows(bits: bool, p: Proxy, actions: seq<Action>, s: seq<byte>) {
    var pieces := LeftmostSplit(CTF_TAG, s);
    && ResetCount(actions) == |pieces| - 1
    && if |pieces| == 1 then actions == [] && p == Proxy(false, KeepTail(s))
       else InPiece(bits, p, SinceReset(actions), Last(pieces))
  }

  /** ... when the last tag was followed by `piece`. */
  ghost predicate InPiece(bits: bool, p: Proxy, packets: seq<seq<byte>>, piece: seq<byte>) {
    var f := Frame(bits, piece);
    && packets == f.packets
    && (!f.corrupt ==> p == Proxy(true, f.tail))
    && (f.corrupt ==> !p.synced && EndsWith(piece, p.buffer))
  }

  // ------------------------------------------------------- counting actions

  lemma {:induction false} SincePackets(a: seq<Action>, packets: seq<seq<byte>>)
    ensures ResetCount(a + Packets(packets)) == ResetCount(a)
    ensures SinceReset(a + Packets(packets)) == SinceReset(a) + packets
    decreases |packets|
  {
    var all := a + Packets(packets);
    if packets == [] {
      assert all == a;
    } else {
      assert Init(all) == a + Packets(Init(packets));
      SincePackets(a, Init(packets));
      assert packets == Init(packets) + [Last(packets)];
      assert SinceReset(a) + packets == (SinceReset(a) + Init(packets)) + [Last(packets)];
    }
  }

  lemma {:induction false} SinceResets(a: seq<Action>, n: nat)
    ensures ResetCount(a + Resets(n)) == ResetCount(a) + n
    ensures n > 0 ==> SinceReset(a + Resets(n)) == []
    decreases n
  {
    var all := a + Resets(n);
    if n == 0 {
      assert all == a;
    } else {
      assert Init(all) == a + Resets(n - 1);
      SinceResets(a, n - 1);
    }
  }

  lemma SinceSettled(a: seq<Action>, n: nat, packets: seq<seq<byte>>)
    ensures ResetCount(a + (Resets(n) + Packets(packets))) == ResetCount(a) + n
    ensures SinceReset(a + (Resets(n) + Packets(packets)))
         == if n > 0 then packets else SinceReset(a) + packets
  {
    SinceResets(a, n);
    SincePackets(a + Resets(n), packets);
    assert a + (Resets(n) + Packets(packets)) == (a + Resets(n)) + Packets(packets);
    assert a + Resets(0) == a;
    assert [] + packets == packets;
  }

  // ------------------------------------------------------ one chunk arrives

  /** Framing a prefix of a tag-safe piece (and part of its tag) leaves the tag alone. */
  lemma SafePrefix(bits: bool, x: seq<byte>, prefix: seq<byte>, rest: seq<byte>)
    requires TagSafe(bits, x) && x + PARTIAL_TAG == prefix + rest
    ensures !Frame(bits, prefix).corrupt
    ensures |prefix| - |Frame(bits, prefix).tail| <= |x|
  {
    FrameAppend(bits, prefix, rest);
    if Frame(bits, prefix).corrupt {
      FrameCorrupt(bits, prefix, rest);
    }
  }

  /** Before the first tag: only the last bytes of junk are kept, yet no tag is missed. */
  lemma {:induction false} UnsyncedChunk(bits: bool, s: seq<byte>, c: seq<byte>)
    requires Find(CTF_TAG, s) == -1
    ensures var before := LeftmostSplit(CTF_TAG, KeepTail(s) + c);
            var now := LeftmostSplit(CTF_TAG, s + c);
            |before| == |now| && (|now| > 1 ==> Last(before) == Last(now))
    ensures KeepTail(KeepTail(s) + c) == KeepTail(s + c)
  {
    hide LeftmostSplit, Find, FindFrom;
    var d, k := s[..|s| - |KeepTail(s)|], KeepTail(s);
    assert s == d + k;
    assert s + c == d + (k + c);
    forall i | 0 <= i < |d|
      ensures !TagAt(CTF_TAG, d + (k + c), i)
    {
      TagAtPrefix(CTF_TAG, s, c, i);
    }
    SplitDropPrefix(CTF_TAG, d, k + c);
  }

  lemma SettleUnsynced(bits: bool, buffer: seq<byte>)
    requires Find(CTF_TAG, buffer) == -1
    ensures Settle(bits, Proxy(false, buffer)) == (Packets([]), Proxy(false, KeepTail(buffer)))
  {
    assert Packets([]) == [];
  }

  /** What is buffered is the end of the piece. */
  lemma BufferIsSuffix(bits: bool, p: Proxy, packets: seq<seq<byte>>, piece: seq<byte>, c: seq<byte>)
    requires InPiece(bits, p, packets, piece)
    ensures |p.buffer| <= |piece|
    ensures piece + c == piece[..|piece| - |p.buffer|] + (p.buffer + c)
  {
    FrameTail(bits, piece);
    assert piece == piece[..|piece| - |p.buffer|] + p.buffer;
  }

  /** Within a piece, while no tag arrives: framing goes on where it stopped. */
  lemma {:induction false} FramedChunk(bits: bool, p: Proxy, packets: seq<seq<byte>>, piece: seq<byte>, c: seq<byte>)
      returns (more: seq<seq<byte>>)
    requires InPiece(bits, p, packets, piece)
    requires Find(CTF_TAG, piece + c) == -1
    ensures Process(bits, p, c).0 == Packets(more)
    ensures InPiece(bits, Process(bits, p, c).1, packets + more, piece + c)
  {
    hide LeftmostSplit, Find, FindFrom, Settle, Frame;
    var f := Frame(bits, piece);
    BufferIsSuffix(bits, p, packets, piece, c);
    NoTagInSuffix(CTF_TAG, piece[..|piece| - |p.buffer|], p.buffer + c);
    if f.corrupt {
      FrameCorrupt(bits, piece, c);
      more := [];
      SettleUnsynced(bits, p.buffer + c);
      assert packets + [] == packets;
    } else {
      SettleFramed(bits, p.buffer + c);
      FrameAppend(bits, piece, c);
      more := Frame(bits, p.buffer + c).packets;
    }
  }

  /** A tag arrives: the packets framed before it did not reach into it. */
  lemma {:induction false} FramedBeforeTag(bits: bool, piece: seq<byte>, c: seq<byte>)
    requires Find(CTF_TAG, piece) == -1 && Find(CTF_TAG, piece + c) != -1
    requires TagSafe(bits, (piece + c)[..Find(CTF_TAG, piece + c)])
    ensures !Frame(bits, piece).corrupt
    ensures |piece| - |Frame(bits, piece).tail| <= Find(CTF_TAG, piece + c)
  {
    hide FindFrom, Frame, TagSafe;
    var s, i := piece + c, Find(CTF_TAG, piece + c);
    if i + TAG_LEN <= |piece| {
      TagAtPrefix(CTF_TAG, piece, c, i);
    }
    var upToTag := s[..i + TAG_LEN - 1];
    assert s[..i] + PARTIAL_TAG == upToTag by {
      assert s[i..i + TAG_LEN] == CTF_TAG;
    }
    assert upToTag == piece + upToTag[|piece|..];
    SafePrefix(bits, s[..i], piece, upToTag[|piece|..]);
  }

  lemma TagChunk(bits: bool, p: Proxy, packets: seq<seq<byte>>, piece: seq<byte>, c: seq<byte>)
    requires InPiece(bits, p, packets, piece) && Find(CTF_TAG, piece) == -1
    requires Find(CTF_TAG, piece + c) != -1
    requires TagSafe(bits, LeftmostSplit(CTF_TAG, piece + c)[0])
    ensures p.synced
    ensures var before := LeftmostSplit(CTF_TAG, p.buffer + c);
            var now := LeftmostSplit(CTF_TAG, piece + c);
            |before| == |now| > 1 && Last(before) == Last(now)
  {
    FramedBeforeTag(bits, piece, c);
    BufferIsSuffix(bits, p, packets, piece, c);
    SplitDropPrefix(CTF_TAG, piece[..|piece| - |p.buffer|], p.buffer + c);
  }

  /** The pieces of a longer stream: those already cut stay, the last one is cut again. */
  lemma PieceOf(s: seq<byte>, c: seq<byte>, rest: seq<byte>)
    requires |LeftmostSplit(CTF_TAG, Last(LeftmostSplit(CTF_TAG, s)) + c)| > 1
    ensures var k := |LeftmostSplit(CTF_TAG, s)| - 1;
            var all := LeftmostSplit(CTF_TAG, s + c + rest);
            var now := LeftmostSplit(CTF_TAG, Last(LeftmostSplit(CTF_TAG, s)) + c);
            k < |all| - 1 && all[k] == now[0]
  {
    hide LeftmostSplit, Find, FindFrom;
    var piece := Last(LeftmostSplit(CTF_TAG, s));
    assert s + c + rest == s + (c + rest);
    SplitAppend(CTF_TAG, s, c + rest);
    assert piece + (c + rest) == (piece + c) + rest;
    SplitAppend(CTF_TAG, piece + c, rest);
  }

  /** Still no tag: nothing is emitted, and the end of the junk is kept. */
  lemma NoTagFollows(bits: bool, s: seq<byte>, c: seq<byte>)
    requires Find(CTF_TAG, s + c) == -1 && Find(CTF_TAG, s) == -1
    ensures Process(bits, Proxy(false, KeepTail(s)), c) == ([], Proxy(false, KeepTail(s + c)))
    ensures Follows(bits, Proxy(false, KeepTail(s + c)), [], s + c)
  {
    hide LeftmostSplit, Find, FindFrom, Frame, Settle;
    UnsyncedChunk(bits, s, c);
    OnePiece(CTF_TAG, s + c);
    OnePiece(CTF_TAG, KeepTail(s) + c);
    SettleUnsynced(bits, KeepTail(s) + c);
    assert Packets([]) == [];
  }

  /** The first tags arrive. */
  lemma FirstTagFollows(bits: bool, s: seq<byte>, c: seq<byte>)
    requires Find(CTF_TAG, s) == -1 && |LeftmostSplit(CTF_TAG, s + c)| > 1
    ensures var r := Process(bits, Proxy(false, KeepTail(s)), c);
            Follows(bits, r.1, r.0, s + c)
  {
    hide LeftmostSplit, Find, FindFrom, Frame, KeepTail;
    UnsyncedChunk(bits, s, c);
    var now := LeftmostSplit(CTF_TAG, s + c);
    var settled := Resets(|now| - 1) + Packets(Frame(bits, Last(now)).packets);
    SinceSettled([], |now| - 1, Frame(bits, Last(now)).packets);
    assert [] + settled == settled;
  }

  lemma {:induction false} NextTagFollows(bits: bool, p: Proxy, actions: seq<Action>, piece: seq<byte>, c: seq<byte>)
    requires InPiece(bits, p, SinceReset(actions), piece) && Find(CTF_TAG, piece) == -1
    requires |LeftmostSplit(CTF_TAG, piece + c)| > 1
    requires TagSafe(bits, LeftmostSplit(CTF_TAG, piece + c)[0])
    ensures var r := Process(bits, p, c);
            && ResetCount(actions + r.0) == ResetCount(actions) + |LeftmostSplit(CTF_TAG, piece + c)| - 1
            && InPiece(bits, r.1, SinceReset(actions + r.0), Last(LeftmostSplit(CTF_TAG, piece + c)))
  {
    TagChunk(bits, p, SinceReset(actions), piece, c);
    var now := LeftmostSplit(CTF_TAG, piece + c);
    SinceSettled(actions, |now| - 1, Frame(bits, Last(now)).packets);
  }

  /** One chunk keeps the framer where the stream calls for. */
  lemma ChunkFollows(bits: bool, p: Proxy, actions: seq<Action>, s: seq<byte>, c: seq<byte>, rest: seq<byte>)
    requires Follows(bits, p, actions, s)
    requires TagSafeStream(bits, s + c + rest)
    ensures Follows(bits, Process(bits, p, c).1, actions + Process(bits, p, c).0, s + c)
  {
    hide Process, Settle, Find, FindFrom, InPiece, TagSafe, ResetCount, SinceReset;
    var pieces := LeftmostSplit(CTF_TAG, s);
    var piece := Last(pieces);
    SplitJoin(CTF_TAG, s);
    SplitAppend(CTF_TAG, s, c);
    var now := LeftmostSplit(CTF_TAG, piece + c);
    var r := Process(bits, p, c);
    if |pieces| == 1 {
      if |now| == 1 {
        OnePiece(CTF_TAG, s + c);
        NoTagFollows(bits, s, c);
      } else {
        FirstTagFollows(bits, s, c);
      }
      assert actions + r.0 == r.0;
    } else if |now| == 1 {
      var more := FramedChunk(bits, p, SinceReset(actions), piece, c);
      SincePackets(actions, more);
    } else {
      PieceOf(s, c, rest);
      NextTagFollows(bits, p, actions, piece, c);
    }
  }

  lemma {:induction false} RunFollows(bits: bool, p: Proxy, actions: seq<Action>, s: seq<byte>, chunks: seq<seq<byte>>)
    requires Follows(bits, p, actions, s)
    requires TagSafeStream(bits, s + Concat(chunks))
    ensures Follows(bits, Run(bits, p, chunks).1, actions + Run(bits, p, chunks).0, s + Concat(chunks))
    decreases |chunks|
  {
    hide Follows, TagSafeStream, Process;
    if chunks == [] {
      assert s + Concat(chunks) == s && actions + Run(bits, p, chunks).0 == actions;
    } else {
      var c, later := chunks[0], chunks[1..];
      var head := Process(bits, p, c);
      assert s + Concat(chunks) == s + c + Concat(later);
      ChunkFollows(bits, p, actions, s, c, Concat(later));
      RunFollows(bits, head.1, actions + head.0, s + c, later);
      assert actions + (head.0 + Run(bits, head.1, later).0) == (actions + head.0) + Run(bits, head.1, later).0;
    }
  }

  lemma StartFollows(bits: bool)
    ensures Follows(bits, START, [], [])
  {
    NoTagInEmpty();
    assert LeftmostSplit(CTF_TAG, []) == [[]];
  }

  lemma FollowsMeans(bits: bool, p: Proxy, actions: seq<Action>, s: seq<byte>)
    requires Follows(bits, p, actions, s)
    ensures var pieces := LeftmostSplit(CTF_TAG, s);
            var f := Frame(bits, Last(pieces));
            && ResetCount(actions) == |pieces| - 1
            && (|pieces| > 1 ==> SinceReset(actions) == f.packets)
            && (|pieces| > 1 && !f.corrupt ==> p == Proxy(true, f.tail))
            && (|pieces| > 1 && f.corrupt ==> !p.synced && EndsWith(Last(pieces), p.buffer))
            && (|pieces| == 1 ==> actions == [] && p == Proxy(false, KeepTail(s)))
  {
    hide LeftmostSplit, Frame, KeepTail, ResetCount, SinceReset;
  }

  /** Main result. Whatever the chunking of a tag-safe stream: as many resets as there are
      tags, then exactly the complete packets after the last tag, in order; and, unless a
      corrupt header was met behind it, the same final state. Without a tag nothing is
      forwarded. */
  lemma {:induction false} ChunkingDoesNotMatter(bits: bool, chunks: seq<seq<byte>>)
    requires TagSafeStream(bits, Concat(chunks))
    ensures var s := Concat(chunks);
            var pieces := LeftmostSplit(CTF_TAG, s);
            var f := Frame(bits, Last(pieces));
            var (actions, p) := Run(bits, START, chunks);
            && ResetCount(actions) == |pieces| - 1
            && (|pieces| > 1 ==> SinceReset(actions) == f.packets)
            && (|pieces| > 1 && !f.corrupt ==> p == Proxy(true, f.tail))
            && (|pieces| > 1 && f.corrupt ==> !p.synced && EndsWith(Last(pieces), p.buffer))
            && (|pieces| == 1 ==> actions == [] && p == Proxy(false, KeepTail(s)))
  {
    hide Follows, TagSafeStream, LeftmostSplit, Frame, Run, Concat, KeepTail, ResetCount, SinceReset;
    StartFollows(bits);
    assert [] + Concat(chunks) == Concat(chunks);
    RunFollows(bits, START, [], [], chunks);
    var r := Run(bits, START, chunks);
    assert [] + r.0 == r.0;
    FollowsMeans(bits, r.1, r.0, Concat(chunks));
  }

  /** Behind a corrupt header the state does depend on the chunking: bytes that come in the
      same chunk are dropped, later ones are kept. */
  lemma {:induction false} CorruptStateDependsOnChunks()
    ensures var s := CTF_TAG + [0, 0, 0, 0];
            && Run(true, START, [s, [1]]).1 == Proxy(false, [1])
            && Run(true, START, [s + [1]]).1 == Proxy(false, [])
  {
    var s := CTF_TAG + [0, 0, 0, 0];
    CorruptPiece([0, 0, 0, 0]);
    CorruptPiece([0, 0, 0, 0, 1]);
    assert s + [1] == CTF_TAG + [0, 0, 0, 0, 1];
    assert Process(true, START, [1]).1 == Proxy(false, [1]) by {
      assert [] + [1] == [1] && Find(CTF_TAG, [1]) == -1;
      OnePiece(CTF_TAG, [1]);
    }
    hide Process;
    var none: seq<seq<byte>> := [];
    assert [s, [1]][1..] == [[1]] && [[1]][1..] == none && [s + [1]][1..] == none;
    assert Run(true, START, [[1]]).1 == Process(true, START, [1]).1;
  }

  /** A tag and a corrupt header in one chunk. */
  lemma CorruptPiece(piece: seq<byte>)
    requires 4 <= |piece| < TAG_LEN && piece[2] == piece[3] == 0
    ensures Process(true, START, CTF_TAG + piece).1 == START
  {
    assert START.buffer + (CTF_TAG + piece) == CTF_TAG + piece;
    TagIsSplit();
    SplitAppend(CTF_TAG, CTF_TAG, piece);
    assert [] + piece == piece;
    OnePiece(CTF_TAG, piece);
    assert LeftmostSplit(CTF_TAG, CTF_TAG + piece) == [[], piece];
  }

  // ------------------------------------------- exactly which tags are never lost

  /** `piece`, then a tag, in two chunks cut after `j` bytes of the tag. */
  function CutInTag(bits: bool, piece: seq<byte>, j: nat): (seq<Action>, Proxy)
    requires j <= TAG_LEN
  {
    Run(bits, Proxy(true, []), [piece + CTF_TAG[..j], CTF_TAG[j..]])
  }

  /** Tag safety in terms of the piece alone: its header is not corrupt, and if its last
      packet is cut short, then by at least a whole tag. (Part of the tag itself, read as a
      header, announces more than 3000 bytes.) */
  lemma TagSafeIff(bits: bool, piece: seq<byte>)
    ensures var f := Frame(bits, piece);
            TagSafe(bits, piece) <==>
              !f.corrupt && (|f.tail| < 4 || HeaderSize(bits, f.tail) >= |f.tail| + TAG_LEN)
  {
    var f := Frame(bits, piece);
    FrameAppend(bits, piece, PARTIAL_TAG);
    var g := f.tail + PARTIAL_TAG;
    if f.corrupt {
      FrameCorrupt(bits, piece, PARTIAL_TAG);
    } else if |f.tail| >= 4 {
      HeaderAppend(bits, f.tail, PARTIAL_TAG);
    } else {
      assert HeaderSize(bits, g) >= 3040 by {
        PartialTagAsHeader(bits, f.tail);
      }
    }
  }

  lemma PartialTagAsHeader(bits: bool, t: seq<byte>)
    requires |t| < 4
    ensures HeaderSize(bits, t + PARTIAL_TAG) >= 3040
    ensures t == [] && bits ==> HeaderSize(bits, t + PARTIAL_TAG) == 3470
  {
    var s := t + PARTIAL_TAG;
    if |t| == 0 {
      assert s[2] == 0x70 && s[3] == 0x6c;
    } else if |t| == 1 {
      assert s[2] == 0x7a && s[3] == 0x70;
    } else if |t| == 2 {
      assert s[2] == 0x5f && s[3] == 0x7a;
    } else {
      assert s[3] == 0x5f;
    }
  }

  lemma TagIsSplit()
    ensures LeftmostSplit(CTF_TAG, CTF_TAG) == [[], []]
  {
    assert TagAt(CTF_TAG, CTF_TAG, 0);
    assert CTF_TAG == [] + CTF_TAG + [];
    SplitAt(CTF_TAG, [], []);
    NoTagInEmpty();
  }

  lemma {:induction false} TagPieceTag(piece: seq<byte>)
    requires Find(CTF_TAG, piece + CTF_TAG) == |piece|
    ensures LeftmostSplit(CTF_TAG, CTF_TAG + (piece + CTF_TAG)) == [[], piece, []]
  {
    TagIsSplit();
    assert [] + (piece + CTF_TAG) == piece + CTF_TAG == piece + CTF_TAG + [];
    SplitAppend(CTF_TAG, CTF_TAG, piece + CTF_TAG);
    SplitAt(CTF_TAG, piece, []);
    NoTagInEmpty();
  }

  lemma AfterTagFollows(bits: bool)
    ensures Follows(bits, Proxy(true, []), [Reset], CTF_TAG) && ResetCount([Reset]) == 1
  {
    TagIsSplit();
    assert Init([Reset]) == [];
    assert Frame(bits, []) == Frames([], [], false);
  }

  /** A tag-safe piece: however the tag behind it is cut, it is recognised. */
  lemma SafeTagRecognised(bits: bool, piece: seq<byte>, j: nat)
    requires j <= TAG_LEN && TagSafe(bits, piece)
    requires Find(CTF_TAG, piece + CTF_TAG) == |piece|
    ensures ResetCount(CutInTag(bits, piece, j).0) == 1
  {
    hide TagSafe, Find, FindFrom, LeftmostSplit, Run, InPiece;
    var chunks := [piece + CTF_TAG[..j], CTF_TAG[j..]];
    ConcatTwo(piece + CTF_TAG[..j], CTF_TAG[j..]);
    assert Concat(chunks) == piece + CTF_TAG;
    TagPieceTag(piece);
    AfterTagFollows(bits);
    RunFollows(bits, Proxy(true, []), [Reset], CTF_TAG, chunks);
    CountAppend([Reset], CutInTag(bits, piece, j).0);
  }

  lemma {:induction false} CountAppend(a: seq<Action>, b: seq<Action>)
    ensures ResetCount(a + b) == ResetCount(a) + ResetCount(b)
    decreases |b|
  {
    if b == [] {
      assert a + b == a;
    } else {
      assert Init(a + b) == a + Init(b);
      CountAppend(a, Init(b));
    }
  }

  /** A chunk without a tag never asks for a reset. */
  lemma NoTagNoReset(bits: bool, p: Proxy, c: seq<byte>)
    requires Find(CTF_TAG, p.buffer + c) == -1
    ensures ResetCount(Process(bits, p, c).0) == 0
  {
    if p.synced {
      SettleFramed(bits, p.buffer + c);
      var packets := Frame(bits, p.buffer + c).packets;
      SincePackets([], packets);
      assert [] + Packets(packets) == Packets(packets);
    }
  }

  /** Part of the tag behind a piece is no tag yet. */
  lemma NotYetATag(piece: seq<byte>, j: nat)
    requires j < TAG_LEN && Find(CTF_TAG, piece + CTF_TAG) == |piece|
    ensures Find(CTF_TAG, piece + CTF_TAG[..j]) == -1
  {
    hide FindFrom;
    var c1, c2 := piece + CTF_TAG[..j], CTF_TAG[j..];
    assert piece + CTF_TAG == c1 + c2;
    if Find(CTF_TAG, c1) != -1 {
      FindAppend(CTF_TAG, c1, c2);
    }
  }

  /** A tag cut in two, whose first part the framer dropped or took for the end of a packet. */
  lemma {:induction false} LostInTwo(bits: bool, piece: seq<byte>, j: nat)
    requires 0 < j < TAG_LEN
    requires Find(CTF_TAG, piece + CTF_TAG) == |piece|
    requires var f := Frame(bits, piece + CTF_TAG[..j]); f.corrupt || f.tail == []
    ensures ResetCount(CutInTag(bits, piece, j).0) == 0
  {
    hide Find, FindFrom, LeftmostSplit, Frame;
    var c1, c2 := piece + CTF_TAG[..j], CTF_TAG[j..];
    NotYetATag(piece, j);
    assert [] + c1 == c1 && [] + c2 == c2;
    SettleFramed(bits, c1);
    var p := Process(bits, Proxy(true, []), c1).1;
    assert p.buffer == [];
    NoTagNoReset(bits, Proxy(true, []), c1);
    SecondPart(j);
    NoTagNoReset(bits, p, c2);
    CountAppend(Process(bits, Proxy(true, []), c1).0, Process(bits, p, c2).0);
    hide Process;
    var none: seq<seq<byte>> := [];
    assert [c1, c2][1..] == [c2] && [c2][1..] == none;
    var y := Process(bits, p, c2);
    assert Run(bits, y.1, none).0 == [] && y.0 + [] == y.0;
    assert Run(bits, p, [c2]).0 == y.0;
  }

  lemma SecondPart(j: nat)
    requires 0 < j < TAG_LEN
    ensures Find(CTF_TAG, CTF_TAG[j..]) == -1
  {
  }

  /** Where to cut the tag behind a piece that is not tag-safe. */
  lemma UnsafeCut(bits: bool, piece: seq<byte>) returns (j: nat)
    requires !TagSafe(bits, piece)
    ensures 0 < j < TAG_LEN
    ensures var f := Frame(bits, piece + CTF_TAG[..j]); f.corrupt || f.tail == []
  {
    var f := Frame(bits, piece);
    TagSafeIff(bits, piece);
    j := if f.corrupt then 1 else HeaderSize(bits, f.tail) - |f.tail|;
    FrameAppend(bits, piece, CTF_TAG[..j]);
    if f.corrupt {
      FrameCorrupt(bits, piece, CTF_TAG[..j]);
    } else {
      HeaderAppend(bits, f.tail, CTF_TAG[..j]);
      assert Frame(bits, f.tail + CTF_TAG[..j]).tail == [];
    }
  }

  /** Main result. The tag behind a piece is recognised however it is cut in two exactly when
      the piece is tag-safe. */
  lemma TagRecognisedIff(bits: bool, piece: seq<byte>)
    requires Find(CTF_TAG, piece + CTF_TAG) == |piece|
    ensures TagSafe(bits, piece) <==>
            forall j: nat :: j <= TAG_LEN ==> ResetCount(CutInTag(bits, piece, j).0) == 1
  {
    if TagSafe(bits, piece) {
      forall j: nat | j <= TAG_LEN
        ensures ResetCount(CutInTag(bits, piece, j).0) == 1
      {
        SafeTagRecognised(bits, piece, j);
      }
    } else {
      var j := UnsafeCut(bits, piece);
      LostInTwo(bits, piece, j);
      assert ResetCount(CutInTag(bits, piece, j).0) != 1;
    }
  }

  /** For instance: four bytes of an eight-byte packet, then a tag. The tag is lost when it
      arrives in two parts, the first of four bytes. */
  lemma ShortCutLosesTag()
    ensures ResetCount(CutInTag(true, [0, 0, 64, 0], 4).0) == 0
  {
    var piece := [0, 0, 64, 0];
    var s := piece + CTF_TAG;
    assert TagAt(CTF_TAG, s, 4);
    forall i | 0 <= i < 4
      ensures !TagAt(CTF_TAG, s, i)
    {
      assert s[i..i + TAG_LEN][0] == s[i] == piece[i];
    }
    FindIs(CTF_TAG, s, 4);
    var cut := piece + CTF_TAG[..4];
    assert HeaderSize(true, cut) == 8 == |cut|;
    LostInTwo(true, piece, 4);
  }
}
