/** The live framer of the trace server: it finds the start tag in a stream that arrives in
    arbitrary chunks, asks for a reset at every tag and forwards complete packets. */
module StreamParserProxies {
  import opened Sequences
  import opened Splitting
  import opened Framing
  import opened Options

  datatype Action = Reset | Packet(data: seq<byte>)

  /** The state of the framer between two calls. */
  datatype Proxy = Proxy(synced: bool, buffer: seq<byte>)

  const START := Proxy(false, [])

  function Resets(n: nat): (r: seq<Action>) {
    seq(n, _ => Reset)
  }

  function Packets(packets: seq<seq<byte>>): seq<Action> {
    seq(|packets|, i requires 0 <= i < |packets| => Packet(packets[i]))
  }

  /** The last bytes of data that was dropped, in case a tag is cut in two. */
  function KeepTail(s: seq<byte>): (r: seq<byte>)
    ensures |r| <= |CTF_TAG| && |r| <= |s| && r == s[|s| - |r|..]
    ensures r == s || |r| == |CTF_TAG|
  {
    if |s| > |CTF_TAG| then s[|s| - |CTF_TAG|..] else s
  }

  /** What becomes of buffered bytes: one reset for every tag; bytes before a tag are gone;
      the piece after the last tag is framed. */
  function Settle(bits: bool, p: Proxy): (r: (seq<Action>, Proxy)) {
    var pieces := LeftmostSplit(CTF_TAG, p.buffer);
    if |pieces| == 1 && !p.synced then ([], Proxy(false, KeepTail(p.buffer)))
    else
      var f := Frame(bits, Last(pieces));
      (Resets(|pieces| - 1) + Packets(f.packets),
       if f.corrupt then START else Proxy(true, f.tail))
  }

  function Process(bits: bool, p: Proxy, data: seq<byte>): (r: (seq<Action>, Proxy)) {
    Settle(bits, p.(buffer := p.buffer + data))
  }

  /** Among what one chunk causes, no packet is forwarded before a reset: a piece that ends with a
      tag is not framed any more. */
  lemma ResetsFirst(bits: bool, p: Proxy, data: seq<byte>)
    ensures var actions, n := Process(bits, p, data).0, |LeftmostSplit(CTF_TAG, p.buffer + data)| - 1;
            n <= |actions| && forall k :: 0 <= k < |actions| ==> (actions[k] == Reset <==> k < n)
  {
    hide LeftmostSplit, Frame;
  }

  // ------------------------------------------------- one iteration of the loop

  lemma ResetsCons(n: nat)
    ensures Resets(n + 1) == [Reset] + Resets(n)
  {
  }

  lemma SettleTag(bits: bool, p: Proxy)
    requires Find(CTF_TAG, p.buffer) != -1
    ensures var rest := Settle(bits, Proxy(true, p.buffer[Find(CTF_TAG, p.buffer) + |CTF_TAG|..]));
            Settle(bits, p) == ([Reset] + rest.0, rest.1)
  {
    var i := Find(CTF_TAG, p.buffer);
    var a, after := p.buffer[..i], p.buffer[i + |CTF_TAG|..];
    var pieces := LeftmostSplit(CTF_TAG, after);
    assert LeftmostSplit(CTF_TAG, p.buffer) == [a] + pieces;
    hide LeftmostSplit, Find, FindFrom, Frame, Resets, Packets;
    ResetsCons(|pieces| - 1);
    AppendToLast([a], pieces, []);
    var packets := Packets(Frame(bits, Last(pieces)).packets);
    assert ([Reset] + Resets(|pieces| - 1)) + packets == [Reset] + (Resets(|pieces| - 1) + packets);
  }

  lemma SettleFramed(bits: bool, buffer: seq<byte>)
    requires Find(CTF_TAG, buffer) == -1
    ensures var f := Frame(bits, buffer);
            Settle(bits, Proxy(true, buffer)) == (Packets(f.packets), if f.corrupt then START else Proxy(true, f.tail))
  {
    assert Resets(0) + Packets(Frame(bits, buffer).packets) == Packets(Frame(bits, buffer).packets);
  }

  lemma PacketsCons(p: seq<byte>, packets: seq<seq<byte>>)
    ensures Packets([p] + packets) == [Packet(p)] + Packets(packets)
  {
  }

  lemma SettlePacket(bits: bool, buffer: seq<byte>)
    requires Find(CTF_TAG, buffer) == -1 && !Stuck(bits, buffer)
    ensures var n := HeaderSize(bits, buffer);
            var rest := Settle(bits, Proxy(true, buffer[n..]));
            Settle(bits, Proxy(true, buffer)) == ([Packet(buffer[..n])] + rest.0, rest.1)
  {
    var n := HeaderSize(bits, buffer);
    SettleFramed(bits, buffer);
    FirstPacket(bits, buffer);
    NoTagInSuffix(CTF_TAG, buffer[..n], buffer[n..]);
    SettleFramed(bits, buffer[n..]);
    PacketsCons(buffer[..n], Frame(bits, buffer[n..]).packets);
  }

  /** `whole` is what comes of `actions` so far and of what state `p` still has in store. */
  ghost predicate Remaining(bits: bool, whole: (seq<Action>, Proxy), actions: seq<Action>, p: Proxy) {
    whole == (actions + Settle(bits, p).0, Settle(bits, p).1)
  }

  lemma Untouched(bits: bool, p: Proxy, data: seq<byte>)
    ensures Remaining(bits, Process(bits, p, data), [], p.(buffer := p.buffer + data))
  {
    var r := Process(bits, p, data);
    assert [] + r.0 == r.0;
  }

  lemma AfterTag(bits: bool, whole: (seq<Action>, Proxy), actions: seq<Action>, p: Proxy)
    requires Find(CTF_TAG, p.buffer) != -1 && Remaining(bits, whole, actions, p)
    ensures Remaining(bits, whole, actions + [Reset], Proxy(true, p.buffer[Find(CTF_TAG, p.buffer) + |CTF_TAG|..]))
  {
    SettleTag(bits, p);
    var rest := Settle(bits, Proxy(true, p.buffer[Find(CTF_TAG, p.buffer) + |CTF_TAG|..]));
    assert (actions + [Reset]) + rest.0 == actions + ([Reset] + rest.0);
  }

  lemma AfterPacket(bits: bool, whole: (seq<Action>, Proxy), actions: seq<Action>, buffer: seq<byte>)
    requires Find(CTF_TAG, buffer) == -1 && !Stuck(bits, buffer)
    requires Remaining(bits, whole, actions, Proxy(true, buffer))
    ensures var n := HeaderSize(bits, buffer);
            Remaining(bits, whole, actions + [Packet(buffer[..n])], Proxy(true, buffer[n..]))
  {
    SettlePacket(bits, buffer);
    var n := HeaderSize(bits, buffer);
    var rest := Settle(bits, Proxy(true, buffer[n..]));
    assert (actions + [Packet(buffer[..n])]) + rest.0 == actions + ([Packet(buffer[..n])] + rest.0);
  }

  lemma AtRest(bits: bool, whole: (seq<Action>, Proxy), actions: seq<Action>, p: Proxy)
    requires Find(CTF_TAG, p.buffer) == -1 && (p.synced ==> Stuck(bits, p.buffer))
    requires Remaining(bits, whole, actions, p)
    ensures whole.0 == actions
    ensures whole.1 == if !p.synced then Proxy(false, KeepTail(p.buffer))
                       else if Corrupt(bits, p.buffer) then START else p
  {
    if p.synced {
      SettleFramed(bits, p.buffer);
    }
    assert actions + [] == actions;
  }

  lemma NoTagInEmpty()
    ensures Find(CTF_TAG, []) == -1
  {
  }

  lemma KeepTailNoTag(s: seq<byte>)
    requires Find(CTF_TAG, s) == -1
    ensures Find(CTF_TAG, KeepTail(s)) == -1
  {
    var d := s[..|s| - |KeepTail(s)|];
    assert d + KeepTail(s) == s;
    NoTagInSuffix(CTF_TAG, d, KeepTail(s));
  }

  class StreamParserProxy {
    var buffer: seq<byte>
    var expectedSize: Option<nat>
    const sizeIsBits: bool
    var isSynced: bool

    /** Between calls no tag is buffered, and the buffer is bounded by what is awaited:
        the tag when not synchronised, a header, or the packet of the size that was read. */
    ghost predicate Valid()
      reads this
    {
      && Find(CTF_TAG, buffer) == -1
      && (!isSynced ==> expectedSize == None && |buffer| <= |CTF_TAG|)
      && (isSynced && expectedSize == None ==> |buffer| < 4)
      && (expectedSize.Some? ==>
            && 4 <= |buffer| < expectedSize.value
            && expectedSize.value == HeaderSize(sizeIsBits, buffer)
            && (sizeIsBits ==> expectedSize.value <= 8191))
    }

    ghost function State(): Proxy
      reads this
    {
      Proxy(isSynced, buffer)
    }

    constructor (sizeIsBits: bool := true)
      ensures Valid() && State() == START && this.sizeIsBits == sizeIsBits
    {
      buffer := [];
      expectedSize := None;
      this.sizeIsBits := sizeIsBits;
      isSynced := false;
    }

    /** Handles one chunk; the generator of the original, run to its end. */
    method ProcessData(data: seq<byte>) returns (actions: seq<Action>)
      requires Valid()
      modifies this
      ensures Valid()
      ensures actions == Process(sizeIsBits, old(State()), data).0
      ensures State() == Process(sizeIsBits, old(State()), data).1
    {
      hide Process, Settle, Remaining, LeftmostSplit, Frame, Find, FindFrom, HeaderSize;
      actions := [];
      ghost var whole := Process(sizeIsBits, State(), data);
      Untouched(sizeIsBits, State(), data);
      buffer := buffer + data;
      if expectedSize.Some? {
        HeaderAppend(sizeIsBits, old(buffer), data);
      }
      while true
        invariant expectedSize.Some? ==>
            && isSynced && |buffer| >= 4
            && expectedSize.value == HeaderSize(sizeIsBits, buffer) >= 4
        invariant Remaining(sizeIsBits, whole, actions, State())
        decreases |buffer|
      {
        var tagIdx := Find(CTF_TAG, buffer);
        if tagIdx != -1 {
          AfterTag(sizeIsBits, whole, actions, State());
          buffer := buffer[tagIdx + |CTF_TAG|..];
          isSynced := true;
          expectedSize := None;
          actions := actions + [Reset];
          continue;
        }
        ghost var p := State();
        if !isSynced {
          var keepLen := |CTF_TAG|;
          AtRest(sizeIsBits, whole, actions, p);
          KeepTailNoTag(buffer);
          if |buffer| > keepLen {
            buffer := buffer[|buffer| - keepLen..];
          }
          break;
        }
        if expectedSize == None {
          if |buffer| >= 4 {
            var size := HeaderSize(sizeIsBits, buffer);
            expectedSize := Some(size);
            if size < 4 {
              AtRest(sizeIsBits, whole, actions, p);
              NoTagInEmpty();
              buffer := [];
              expectedSize := None;
              isSynced := false;
              break;
            }
          } else {
            AtRest(sizeIsBits, whole, actions, p);
            break;
          }
        }
        if expectedSize.Some? {
          if |buffer| >= expectedSize.value {
            AfterPacket(sizeIsBits, whole, actions, buffer);
            var packet := buffer[..expectedSize.value];
            buffer := buffer[expectedSize.value..];
            expectedSize := None;
            actions := actions + [Packet(packet)];
            continue;
          } else {
            AtRest(sizeIsBits, whole, actions, p);
            break;
          }
        }
      }
    }
  }
}
