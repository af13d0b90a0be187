/** The offline framer: it copies the packets of a trace file and leaves out a last packet
    that was only partly written. */
module PrepareDirs {
  import opened Sequences
  import opened Splitting
  import opened Framing
  import opened StreamParserProxies
  import opened ChunkIndependence

  /** `int.from_bytes(b, "little")`; a read at the end of the file may return fewer bytes. */
  function FromLittleEndian(b: seq<byte>): nat {
    if b == [] then 0 else b[0] as int + 256 * FromLittleEndian(b[1..])
  }

  /** `f.read(n)` at position `pos`. */
  function Read(file: seq<byte>, pos: nat, n: nat): (b: seq<byte>)
    requires pos <= |file|
    ensures |b| <= n && pos + |b| <= |file| && b == file[pos..pos + |b|]
    ensures |b| < n ==> pos + |b| == |file|
  {
    if pos + n <= |file| then file[pos..pos + n] else file[pos..]
  }

  /** The packets before the first one that is nothing but a header. */
  function BeforeBareHeader(packets: seq<seq<byte>>): seq<seq<byte>> {
    if packets == [] || |packets[0]| <= 4 then [] else [packets[0]] + BeforeBareHeader(packets[1..])
  }

  /** What of a trace file is kept. */
  function Kept(s: seq<byte>): seq<byte> {
    Concat(BeforeBareHeader(Frame(true, s).packets))
  }

  lemma TwoBytes(b: seq<byte>)
    requires |b| == 2
    ensures FromLittleEndian(b) == b[0] as int + 256 * b[1] as int
  {
    assert FromLittleEndian(b[1..]) == b[1] as int + 256 * FromLittleEndian([]);
  }

  /** The reader's loop meets either the next packet to keep or the end of what is kept. */
  lemma KeptStep(s: seq<byte>)
    ensures !Stuck(true, s) && HeaderSize(true, s) > 4 ==>
              Kept(s) == s[..HeaderSize(true, s)] + Kept(s[HeaderSize(true, s)..])
    ensures Stuck(true, s) || HeaderSize(true, s) <= 4 ==> Kept(s) == []
  {
    if !Stuck(true, s) {
      var n := HeaderSize(true, s);
      var later := Frame(true, s[n..]).packets;
      assert Frame(true, s).packets == [s[..n]] + later;
      assert ([s[..n]] + later)[1..] == later;
      if n > 4 {
        var kept := BeforeBareHeader(later);
        assert BeforeBareHeader([s[..n]] + later) == [s[..n]] + kept;
        assert ([s[..n]] + kept)[1..] == kept;
      }
    }
  }

  method PrepareDir(trace: seq<byte>) returns (ctf: seq<byte>)
    ensures ctf == Kept(trace)
  {
    hide Kept;
    ctf := [];
    var pos := 0;
    assert trace[0..] == trace;
    while true
      invariant 0 <= pos <= |trace|
      invariant ctf + Kept(trace[pos..]) == Kept(trace)
      decreases |trace| - pos
    {
      var left := trace[pos..];
      KeptStep(left);
      var streamId := Read(trace, pos, 2);
      pos := pos + |streamId|;
      var packetSize := Read(trace, pos, 2);
      pos := pos + |packetSize|;
      var packetSizeBytes := FromLittleEndian(packetSize) / 8;
      if |packetSize| == 2 {
        TwoBytes(packetSize);
        assert packetSizeBytes == HeaderSize(true, left);
      } else if |packetSize| == 1 {
        assert FromLittleEndian(packetSize) == packetSize[0] as int + 256 * FromLittleEndian(packetSize[1..]);
      }
      if packetSizeBytes <= 4 {
        assert ctf + [] == ctf;
        break;
      }
      var packet := Read(trace, pos, packetSizeBytes - 4);
      pos := pos + |packet|;
      if |packet| != packetSizeBytes - 4 {
        assert ctf + [] == ctf;
        break;
      }
      assert left[..packetSizeBytes] == streamId + packetSize + packet;
      assert left[packetSizeBytes..] == trace[pos..];
      assert (ctf + streamId + packetSize + packet) + Kept(trace[pos..])
          == ctf + (left[..packetSizeBytes] + Kept(trace[pos..]));
      ctf := ctf + streamId + packetSize + packet;
    }
  }

  // ------------------------------------------------------------- properties

  lemma {:induction false} BeforeBareHeaderIsPrefix(packets: seq<seq<byte>>)
    ensures BeforeBareHeader(packets) <= packets
    ensures forall p :: p in BeforeBareHeader(packets) ==> |p| > 4
    ensures BeforeBareHeader(packets) == packets <==> forall p :: p in packets ==> |p| > 4
    decreases |packets|
  {
    if packets != [] {
      BeforeBareHeaderIsPrefix(packets[1..]);
      assert packets == [packets[0]] + packets[1..];
      var kept := BeforeBareHeader(packets);
      if |packets[0]| > 4 && kept == packets {
        assert kept[1..] == BeforeBareHeader(packets[1..]);
      }
    }
  }

  lemma {:induction false} ConcatPrefix(a: seq<seq<byte>>, b: seq<seq<byte>>)
    requires a <= b && forall p :: p in b ==> |p| > 0
    ensures Concat(a) == Concat(b) <==> a == b
  {
    var rest := b[|a|..];
    assert b == a + rest;
    ConcatAppend(a, rest);
    if rest != [] {
      assert rest[0] in b;
    }
  }

  /** A kept trace is complete: filtering it again changes nothing. */
  lemma KeptIsStable(s: seq<byte>)
    ensures Kept(Kept(s)) == Kept(s)
  {
    var packets := Frame(true, s).packets;
    var kept := BeforeBareHeader(packets);
    FrameConcat(true, s);
    BeforeBareHeaderIsPrefix(packets);
    BeforeBareHeaderIsPrefix(kept);
    FrameUnique(true, kept, []);
    assert Concat(kept) + [] == Concat(kept);
  }

  /** Offline and live framing agree: for a trace without tags, the bytes kept offline are
      the packets that the live framer forwards for that trace behind a start tag, whatever
      the chunking, exactly when no packet of the trace is a bare header. */
  lemma {:induction false} OfflineAgreesWithLive(s: seq<byte>, chunks: seq<seq<byte>>)
    requires Find(CTF_TAG, s) == -1
    requires Concat(chunks) == CTF_TAG + s
    ensures Kept(s) == Concat(SinceReset(Run(true, START, chunks).0)) <==>
            forall p :: p in Frame(true, s).packets ==> |p| != 4
  {
    ForwardedBehindTag(s, chunks);
    var packets := Frame(true, s).packets;
    FrameConcat(true, s);
    BeforeBareHeaderIsPrefix(packets);
    ConcatPrefix(BeforeBareHeader(packets), packets);
  }

  /** For instance a bare header in front of a packet of five bytes: the live framer forwards
      both, offline nothing is kept. */
  lemma BareHeaderStops()
    ensures var header, packet := [0, 0, 32, 0], [0, 0, 40, 0, 7];
            && Frame(true, header + packet).packets == [header, packet]
            && Kept(header + packet) == []
            && forall chunks :: Concat(chunks) == CTF_TAG + (header + packet) ==>
                 SinceReset(Run(true, START, chunks).0) == [header, packet]
  {
    var header, packet := [0, 0, 32, 0], [0, 0, 40, 0, 7];
    var s := header + packet;
    assert Concat([header, packet]) + [] == s by {
      ConcatTwo(header, packet);
    }
    FrameUnique(true, [header, packet], []);
    assert Find(CTF_TAG, s) == -1;
    forall chunks | Concat(chunks) == CTF_TAG + s
      ensures SinceReset(Run(true, START, chunks).0) == [header, packet]
    {
      ForwardedBehindTag(s, chunks);
    }
  }

  lemma ForwardedBehindTag(s: seq<byte>, chunks: seq<seq<byte>>)
    requires Find(CTF_TAG, s) == -1
    requires Concat(chunks) == CTF_TAG + s
    ensures SinceReset(Run(true, START, chunks).0) == Frame(true, s).packets
  {
    TagIsSplit();
    SplitAppend(CTF_TAG, CTF_TAG, s);
    assert [] + s == s;
    assert LeftmostSplit(CTF_TAG, CTF_TAG + s) == [[], s];
    ChunkingDoesNotMatter(true, chunks);
  }
}
