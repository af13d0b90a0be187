/** The serial link of the micro_speech sample: the frame a sender emits, and the byte-driven
    receiver that collects 49 payloads into the input of one inference. */
module UartFrames {
  import opened Sequences
  import opened Splitting

  type int8 = i: int | -128 <= i < 128

  const PAYLOAD_SIZE := 40
  const INPUT_SHAPE := 1960
  const HEADER: seq<byte> := [0xAA, 0xBB]
  const FOOTER_BYTE: byte := 0x0A

  function ToSigned(b: byte): (i: int8)
    ensures i % 256 == b
  {
    if b < 128 then b else b - 256
  }

  function ToUnsigned(i: int8): (b: byte)
    ensures b == i % 256
  {
    if i < 0 then i + 256 else i
  }

  /** A byte on the line and the number it stands for have the same bits, in both directions. */
  lemma TwosComplement(b: byte, i: int8)
    ensures b == i % 256 <==> ToSigned(b) == i
    ensures b == i % 256 <==> ToUnsigned(i) == b
  {
  }

  datatype State = WaitHeader | WaitSync | Payload | Footer

  /** `payload`: the bytes of the current payload read so far; `inferences`: the inputs on
      which inference was run. */
  datatype Receiver = Receiver(state: State, payload: seq<int8>, input: seq<int8>, inferences: seq<seq<int8>>)

  ghost predicate ValidReceiver(r: Receiver) {
    && |r.input| <= INPUT_SHAPE
    && (r.state == Payload ==> |r.payload| < PAYLOAD_SIZE)
    && (r.state == Footer ==> |r.payload| == PAYLOAD_SIZE)
  }

  /** A complete payload arrived: as much as fits goes to the input; a full input is handed to
      the inference, and emptied when the inference succeeds. */
  function Accept(input: seq<int8>, inferences: seq<seq<int8>>, payload: seq<int8>, ok: bool)
      : (seq<int8>, seq<seq<int8>>)
  {
    var n := if |input| + |payload| <= INPUT_SHAPE then |payload|
             else if |input| <= INPUT_SHAPE then INPUT_SHAPE - |input|
             else 0;
    var full := input + payload[..n];
    if |full| < INPUT_SHAPE then (full, inferences)
    else (if ok then [] else full, inferences + [full])
  }

  /** One byte; `ok` tells whether an inference run now succeeds. */
  function Next(r: Receiver, b: byte, ok: bool): Receiver {
    match r.state
    case WaitHeader => if b == 0xAA then r.(state := WaitSync) else r
    case WaitSync =>
      if b == 0xBB then r.(state := Payload, payload := [])
      else if b != 0xAA then r.(state := WaitHeader)
      else r
    case Payload =>
      var p := r.payload + [ToSigned(b)];
      r.(payload := p, state := if |p| >= PAYLOAD_SIZE then Footer else Payload)
    case Footer =>
      if b == FOOTER_BYTE then
        var (input, inferences) := Accept(r.input, r.inferences, r.payload, ok);
        r.(state := WaitHeader, input := input, inferences := inferences)
      else r.(state := WaitHeader)
  }

  /** `oks(k)`: whether the inference number `k` succeeds. */
  function Feed(r: Receiver, s: seq<byte>, oks: nat -> bool): Receiver {
    if s == [] then r else
      var before := Feed(r, Init(s), oks);
      Next(before, Last(s), oks(|before.inferences|))
  }

  /** What the sender emits for a payload. */
  function Frame(payload: seq<int8>): seq<byte> {
    HEADER + seq(|payload|, i requires 0 <= i < |payload| => ToUnsigned(payload[i])) + [FOOTER_BYTE]
  }

  // -------------------------------------------------------------------- lemmas

  lemma {:induction false} FeedAppend(r: Receiver, a: seq<byte>, b: seq<byte>, oks: nat -> bool)
    ensures Feed(r, a + b, oks) == Feed(Feed(r, a, oks), b, oks)
    decreases |b|
  {
    if b == [] {
      assert a + b == a;
    } else {
      assert Init(a + b) == a + Init(b);
      FeedAppend(r, a, Init(b), oks);
    }
  }

  lemma {:induction false} FeedValid(r: Receiver, s: seq<byte>, oks: nat -> bool)
    requires ValidReceiver(r)
    ensures ValidReceiver(Feed(r, s, oks))
    decreases |s|
  {
    if s != [] {
      FeedValid(r, Init(s), oks);
    }
  }

  /** Without a header nothing happens but waiting: for the sync byte just after an `AA`. */
  lemma {:induction false} WaitingForHeader(r: Receiver, s: seq<byte>, oks: nat -> bool)
    requires r.state == WaitHeader && Find(HEADER, s) == -1
    ensures Feed(r, s, oks) == r.(state := if s != [] && Last(s) == 0xAA then WaitSync else WaitHeader)
    decreases |s|
  {
    if s != [] {
      var init, b := Init(s), Last(s);
      assert s == init + [b];
      if Find(HEADER, init) != -1 {
        FindAppend(HEADER, init, [b]);
      }
      WaitingForHeader(r, init, oks);
      if init != [] {
        assert s[|s| - 2..|s|] == [Last(init), b];
        assert !TagAt(HEADER, s, |s| - 2);
      }
    }
  }

  /** Main result. From waiting, the receiver starts a payload exactly after the first header
      in the stream, wherever that is. */
  lemma PayloadAfterFirstHeader(r: Receiver, s: seq<byte>, oks: nat -> bool)
    requires r.state == WaitHeader
    ensures Find(HEADER, s) == -1 <==>
              forall n :: 0 <= n <= |s| ==> Feed(r, s[..n], oks).state in {WaitHeader, WaitSync}
    ensures Find(HEADER, s) != -1 ==>
              Feed(r, s[..Find(HEADER, s) + 2], oks) == r.(state := Payload, payload := [])
  {
    var i := Find(HEADER, s);
    if i == -1 {
      forall n | 0 <= n <= |s|
        ensures Feed(r, s[..n], oks).state in {WaitHeader, WaitSync}
      {
        assert s == s[..n] + s[n..];
        if Find(HEADER, s[..n]) != -1 {
          FindAppend(HEADER, s[..n], s[n..]);
        }
        WaitingForHeader(r, s[..n], oks);
      }
    } else {
      var one := s[..i + 1];
      assert s[i] == s[i..i + 2][0] && s[i + 1] == s[i..i + 2][1];
      assert s == one + s[i + 1..];
      if Find(HEADER, one) != -1 {
        FindAppend(HEADER, one, s[i + 1..]);
      }
      WaitingForHeader(r, one, oks);
      assert Init(s[..i + 2]) == one;
      assert Feed(r, s[..i + 2], oks).state == Payload;
    }
  }

  /** The bytes of a payload are read back as they were before sending. */
  lemma {:induction false} ReadPayload(r: Receiver, payload: seq<int8>, oks: nat -> bool)
    requires r.state == Payload && r.payload == [] && |payload| <= PAYLOAD_SIZE
    ensures var bytes := seq(|payload|, i requires 0 <= i < |payload| => ToUnsigned(payload[i]));
            Feed(r, bytes, oks)
              == r.(payload := payload, state := if |payload| == PAYLOAD_SIZE then Footer else Payload)
    decreases |payload|
  {
    var bytes := seq(|payload|, i requires 0 <= i < |payload| => ToUnsigned(payload[i]));
    if payload != [] {
      var init := Init(payload);
      assert Init(bytes) == seq(|init|, i requires 0 <= i < |init| => ToUnsigned(init[i]));
      ReadPayload(r, init, oks);
      assert payload == init + [Last(payload)];
      assert ToSigned(Last(bytes)) == Last(payload);
    }
  }

  /** Gaps and frames by turns, ending with a gap. */
  function Stream(gaps: seq<seq<byte>>, payloads: seq<seq<int8>>): seq<byte>
    requires |gaps| == |payloads| + 1
  {
    if payloads == [] then gaps[0]
    else Stream(Init(gaps), Init(payloads)) + (Frame(Last(payloads)) + Last(gaps))
  }

  /** The receiver after accepting payloads one after the other. */
  function AcceptAll(payloads: seq<seq<int8>>, oks: nat -> bool): (seq<int8>, seq<seq<int8>>) {
    if payloads == [] then ([], [])
    else
      var (input, inferences) := AcceptAll(Init(payloads), oks);
      Accept(input, inferences, Last(payloads), oks(|inferences|))
  }

  ghost predicate Gaps(gaps: seq<seq<byte>>) {
    forall k :: 0 <= k < |gaps| ==> Find(HEADER, gaps[k]) == -1
  }

  ghost predicate Payloads(payloads: seq<seq<int8>>) {
    forall k :: 0 <= k < |payloads| ==> |payloads[k]| == PAYLOAD_SIZE
  }

  lemma HeaderRead(r: Receiver, oks: nat -> bool)
    requires r.state in {WaitHeader, WaitSync}
    ensures Feed(r, HEADER, oks) == r.(state := Payload, payload := [])
  {
    var one := Init(HEADER);
    assert one == [0xAA];
    assert Init(one) == [];
    assert Feed(r, one, oks) == r.(state := WaitSync);
  }

  /** Header, payload and one more byte, behind any gap, even one that ends with `AA`: the
      payload is accepted exactly when that byte is the footer. */
  lemma FooterDecides(r: Receiver, payload: seq<int8>, b: byte, oks: nat -> bool)
    requires r.state in {WaitHeader, WaitSync} && |payload| == PAYLOAD_SIZE
    ensures var bytes := seq(|payload|, i requires 0 <= i < |payload| => ToUnsigned(payload[i]));
            var a := if b == FOOTER_BYTE then Accept(r.input, r.inferences, payload, oks(|r.inferences|))
                     else (r.input, r.inferences);
            Feed(r, HEADER + bytes + [b], oks) == Receiver(WaitHeader, payload, a.0, a.1)
  {
    var bytes := seq(|payload|, i requires 0 <= i < |payload| => ToUnsigned(payload[i]));
    FeedAppend(r, HEADER + bytes, [b], oks);
    FeedAppend(r, HEADER, bytes, oks);
    HeaderRead(r, oks);
    ReadPayload(Feed(r, HEADER, oks), payload, oks);
    assert Init([b]) == [];
  }

  /** Main result. Whatever the gaps between frames (as long as they hold no header): the
      receiver accepts exactly the payloads that were sent, in order. */
  lemma {:induction false} RoundTrip(gaps: seq<seq<byte>>, payloads: seq<seq<int8>>, oks: nat -> bool)
    requires |gaps| == |payloads| + 1 && Gaps(gaps) && Payloads(payloads)
    ensures var r := Feed(Receiver(WaitHeader, [], [], []), Stream(gaps, payloads), oks);
            (r.input, r.inferences) == AcceptAll(payloads, oks) && r.state in {WaitHeader, WaitSync}
    decreases |payloads|
  {
    var r0 := Receiver(WaitHeader, [], [], []);
    if payloads == [] {
      WaitingForHeader(r0, gaps[0], oks);
    } else {
      RoundTrip(Init(gaps), Init(payloads), oks);
      var before, frame, gap := Stream(Init(gaps), Init(payloads)), Frame(Last(payloads)), Last(gaps);
      FeedAppend(r0, before, frame + gap, oks);
      var r1 := Feed(r0, before, oks);
      FeedAppend(r1, frame, gap, oks);
      FooterDecides(r1, Last(payloads), FOOTER_BYTE, oks);
      WaitingForHeader(Feed(r1, frame, oks), gap, oks);
    }
  }

  function Flatten(payloads: seq<seq<int8>>): seq<int8> {
    if payloads == [] then [] else Flatten(Init(payloads)) + Last(payloads)
  }

  lemma {:induction false} FlattenLength(payloads: seq<seq<int8>>)
    requires Payloads(payloads)
    ensures |Flatten(payloads)| == PAYLOAD_SIZE * |payloads|
    decreases |payloads|
  {
    if payloads != [] {
      FlattenLength(Init(payloads));
    }
  }

  const FRAMES := 49

  /** The payloads of the frames `FRAMES * k` up to `FRAMES * (k + 1)`. */
  function Block(payloads: seq<seq<int8>>, k: nat): seq<int8>
    requires FRAMES * (k + 1) <= |payloads|
  {
    Flatten(payloads[FRAMES * k..FRAMES * (k + 1)])
  }

  /** The first payload of the block that is being filled. */
  function BlockStart(n: nat): (r: nat)
    ensures r <= n < r + FRAMES && r == FRAMES * (n / FRAMES)
  {
    FRAMES * (n / FRAMES)
  }

  lemma NextBlock(n: nat)
    ensures (n + 1) % FRAMES != 0 ==> BlockStart(n + 1) == BlockStart(n) && (n + 1) / FRAMES == n / FRAMES
    ensures (n + 1) % FRAMES == 0 ==>
              BlockStart(n + 1) == n + 1 == BlockStart(n) + FRAMES && (n + 1) / FRAMES == n / FRAMES + 1
    ensures n + 1 - BlockStart(n) == FRAMES <==> (n + 1) % FRAMES == 0
  {
  }

  lemma SameBlocks(payloads: seq<seq<int8>>, k: nat)
    requires payloads != [] && FRAMES * (k + 1) <= |payloads| - 1
    ensures Block(payloads, k) == Block(Init(payloads), k)
  {
    assert payloads[FRAMES * k..FRAMES * (k + 1)] == Init(payloads)[FRAMES * k..FRAMES * (k + 1)];
  }

  /** One more payload goes to the block that is being filled. */
  lemma {:induction false} AcceptIntoBlock(block: seq<seq<int8>>, last: seq<int8>, inferences: seq<seq<int8>>)
    requires Payloads(block) && |last| == PAYLOAD_SIZE && |block| < FRAMES
    ensures var a := Accept(Flatten(block), inferences, last, true);
            if |block| + 1 < FRAMES then a == (Flatten(block + [last]), inferences)
            else a == ([], inferences + [Flatten(block + [last])])
  {
    FlattenLength(block);
    assert Init(block + [last]) == block;
    assert last[..|last|] == last;
  }

  /** Inference was run on every full block; the block being filled is the input. */
  ghost predicate Served(payloads: seq<seq<int8>>, input: seq<int8>, inferences: seq<seq<int8>>) {
    && |inferences| == |payloads| / FRAMES
    && input == Flatten(payloads[BlockStart(|payloads|)..])
    && forall k: nat :: k < |inferences| ==> inferences[k] == Block(payloads, k)
  }

  lemma ServedBlocks(init: seq<seq<int8>>, payloads: seq<seq<int8>>, input: seq<int8>, inferences: seq<seq<int8>>)
    requires Served(init, input, inferences) && payloads != [] && Init(payloads) == init
    ensures |inferences| * FRAMES <= |init|
    ensures forall k: nat :: k < |inferences| ==> inferences[k] == Block(payloads, k)
  {
    hide Flatten, Block;
    forall k: nat | k < |inferences|
      ensures inferences[k] == Block(payloads, k)
    {
      SameBlocks(payloads, k);
    }
  }

  /** One more frame, which fills the block or does not. */
  lemma ServedNext(payloads: seq<seq<int8>>, input: seq<int8>, inferences: seq<seq<int8>>)
    requires payloads != [] && Payloads(payloads) && Served(Init(payloads), input, inferences)
    ensures var a := Accept(input, inferences, Last(payloads), true); Served(payloads, a.0, a.1)
  {
    hide Flatten, Accept, Block, BlockStart;
    var init, n := Init(payloads), BlockStart(|payloads| - 1);
    ServedBlocks(init, payloads, input, inferences);
    NextBlock(|init|);
    AcceptIntoBlock(init[n..], Last(payloads), inferences);
    assert init[n..] + [Last(payloads)] == payloads[n..];
    if |payloads| % FRAMES == 0 {
      LastBlock(payloads, n);
    }
  }

  /** Main result. When inferences succeed, every 49th frame triggers one, on the payloads of
      the last 49 frames; the payloads since then are the input so far. */
  lemma {:induction false} InferenceEvery49Frames(payloads: seq<seq<int8>>, oks: nat -> bool)
    requires Payloads(payloads) && forall k: nat :: oks(k)
    ensures var (input, inferences) := AcceptAll(payloads, oks);
            && |inferences| == |payloads| / FRAMES
            && input == Flatten(payloads[BlockStart(|payloads|)..])
            && forall k: nat :: k < |inferences| ==> inferences[k] == Block(payloads, k)
    decreases |payloads|
  {
    hide Flatten, Accept, Block, BlockStart;
    if payloads != [] {
      InferenceEvery49Frames(Init(payloads), oks);
      var (input, inferences) := AcceptAll(Init(payloads), oks);
      ServedNext(payloads, input, inferences);
    } else {
      NothingServed();
    }
  }

  lemma NothingServed()
    ensures Served([], [], [])
  {
    var none: seq<seq<int8>> := [];
    assert none[0..] == none;
  }

  lemma LastBlock(payloads: seq<seq<int8>>, n: nat)
    requires |payloads| % FRAMES == 0 && n + FRAMES == |payloads|
    ensures Block(payloads, n / FRAMES) == Flatten(payloads[n..])
    ensures Flatten(payloads[|payloads|..]) == []
  {
    assert FRAMES * (n / FRAMES) == n;
    assert payloads[n..n + FRAMES] == payloads[n..];
  }

  /** The input is full exactly when the last inference failed. */
  lemma {:induction false} FullIffFailed(payloads: seq<seq<int8>>, oks: nat -> bool)
    ensures var (input, inferences) := AcceptAll(payloads, oks);
            && |input| <= INPUT_SHAPE
            && (|input| == INPUT_SHAPE <==> inferences != [] && !oks(|inferences| - 1))
            && (|input| == INPUT_SHAPE ==> Last(inferences) == input)
    decreases |payloads|
  {
    if payloads != [] {
      FullIffFailed(Init(payloads), oks);
      var (input, inferences) := AcceptAll(Init(payloads), oks);
      AcceptFull(input, inferences, Last(payloads), oks(|inferences|));
    }
  }

  /** What a payload does to an input that is full, or that it fills. */
  lemma AcceptFull(input: seq<int8>, inferences: seq<seq<int8>>, payload: seq<int8>, ok: bool)
    requires |input| <= INPUT_SHAPE
    ensures var a := Accept(input, inferences, payload, ok);
            && |a.0| <= INPUT_SHAPE
            && (a.1 == inferences ==> |a.0| < INPUT_SHAPE && |input| < INPUT_SHAPE)
            && (a.1 == inferences || (|a.1| == |inferences| + 1 && a.0 == if ok then [] else Last(a.1)))
            && (a.1 != inferences ==> |Last(a.1)| == INPUT_SHAPE)
    ensures |input| == INPUT_SHAPE ==>
              Accept(input, inferences, payload, ok) == (if ok then [] else input, inferences + [input])
  {
    if |input| == INPUT_SHAPE {
      assert input + payload[..0] == input;
    }
  }

  function Repeat(input: seq<int8>, n: nat): seq<seq<int8>> {
    seq(n, _ => input)
  }

  /** Main result. Once an inference has failed, every further frame repeats it on the very same
      input, and the payloads of these frames are dropped, as long as it fails; when it succeeds
      the input is emptied. */
  lemma {:induction false} FailedInferenceRepeats(payloads: seq<seq<int8>>, more: seq<seq<int8>>, oks: nat -> bool)
    requires var n := |AcceptAll(payloads, oks).1|;
             n > 0 && forall k :: n - 1 <= k < n - 1 + |more| ==> !oks(k)
    ensures var (input, inferences) := AcceptAll(payloads, oks);
            var ok := oks(|inferences| - 1 + |more|);
            more != [] ==>
              AcceptAll(payloads + more, oks)
                == (if ok then [] else Last(inferences), inferences + Repeat(Last(inferences), |more|))
    decreases |more|
  {
    var (input, inferences) := AcceptAll(payloads, oks);
    FullIffFailed(payloads, oks);
    hide Accept;
    if more != [] {
      var init, last := Init(more), Last(more);
      FailedInferenceRepeats(payloads, init, oks);
      assert Init(payloads + more) == payloads + init && Last(payloads + more) == last;
      var before := inferences + Repeat(Last(inferences), |init|);
      if init == [] {
        assert payloads + init == payloads && before == inferences;
      }
      AcceptFull(input, before, last, oks(|before|));
      assert before + [input] == inferences + Repeat(Last(inferences), |more|);
    }
  }

  // -------------------------------------------------------------------- resync

  /** Bytes without `AA` that certainly suffice to get back to waiting for a header. */
  function Distance(r: Receiver): nat {
    match r.state
    case WaitHeader => 0
    case WaitSync => PAYLOAD_SIZE + 2
    case Payload => if |r.payload| < PAYLOAD_SIZE then PAYLOAD_SIZE + 1 - |r.payload| else 0
    case Footer => 1
  }

  lemma {:induction false} BackToHeader(r: Receiver, s: seq<byte>, oks: nat -> bool)
    requires ValidReceiver(r) && 0xAA !in s && |s| >= Distance(r)
    ensures Feed(r, s, oks).state == WaitHeader
    decreases |s|
  {
    if s != [] {
      var b, rest := s[0], s[1..];
      assert s == [b] + rest;
      FeedAppend(r, [b], rest, oks);
      assert Init([b]) == [];
      var r1 := Feed(r, [b], oks);
      assert r1 == Next(r, b, oks(|r.inferences|));
      FeedValid(r, [b], oks);
      assert b in s;
      BackToHeader(r1, rest, oks);
    }
  }

  /** Main result. From every reachable state, 42 bytes other than `AA` lead back to waiting
      for a header. */
  lemma Resync(s0: seq<byte>, s: seq<byte>, oks: nat -> bool)
    requires |s| >= PAYLOAD_SIZE + 2 && 0xAA !in s
    ensures Feed(Receiver(WaitHeader, [], [], []), s0 + s, oks).state == WaitHeader
  {
    var r0 := Receiver(WaitHeader, [], [], []);
    FeedValid(r0, s0, oks);
    FeedAppend(r0, s0, s, oks);
    BackToHeader(Feed(r0, s0, oks), s, oks);
  }

  /** 41 bytes do not suffice: behind an `AA`, `BB` and 40 more bytes are read as a frame. */
  lemma ResyncIsTight(payload: seq<int8>, oks: nat -> bool)
    requires |payload| == PAYLOAD_SIZE
    ensures var s := [0xBB] + seq(|payload|, i requires 0 <= i < |payload| => ToUnsigned(payload[i]));
            |s| == 41 && Feed(Receiver(WaitHeader, [], [], []), [0xAA] + s, oks).state == Footer
  {
    var r0 := Receiver(WaitHeader, [], [], []);
    var bytes := seq(|payload|, i requires 0 <= i < |payload| => ToUnsigned(payload[i]));
    assert [0xAA] + ([0xBB] + bytes) == HEADER + bytes;
    FeedAppend(r0, HEADER, bytes, oks);
    HeaderRead(r0, oks);
    ReadPayload(Feed(r0, HEADER, oks), payload, oks);
  }

  // ------------------------------------------------------- sender and receiver

  /** `send_data_via_uart`: `out` is what was put on the line. */
  method SendDataViaUart(data: array<int8>) returns (out: seq<byte>)
    requires data.Length == PAYLOAD_SIZE
    ensures out == Frame(data[..])
  {
    out := [0xAA];
    out := out + [0xBB];
    for i := 0 to PAYLOAD_SIZE
      invariant |out| == 2 + i && out[..2] == HEADER
      invariant forall k :: 0 <= k < i ==> out[2 + k] == ToUnsigned(data[k])
    {
      out := out + [ToUnsigned(data[i])];
    }
    out := out + [FOOTER_BYTE];
  }

  class MicroSpeech {
    const inputBuffer: array<int8>
    var inputIndex: nat
    const currentPayload: array<int8>
    var bytesRead: nat
    var state: State
    ghost var inferences: seq<seq<int8>>

    ghost predicate Valid()
      reads this, inputBuffer, currentPayload
    {
      && inputBuffer.Length == INPUT_SHAPE && currentPayload.Length == PAYLOAD_SIZE && inputBuffer != currentPayload
      && inputIndex <= INPUT_SHAPE && bytesRead <= PAYLOAD_SIZE
      && ValidReceiver(Abstract())
    }

    ghost function Abstract(): Receiver
      reads this, inputBuffer, currentPayload
    {
      Receiver(state, if bytesRead <= currentPayload.Length then currentPayload[..bytesRead] else [],
               if inputIndex <= inputBuffer.Length then inputBuffer[..inputIndex] else [], inferences)
    }

    constructor ()
      ensures Valid() && fresh(inputBuffer) && fresh(currentPayload)
      ensures Abstract() == Receiver(WaitHeader, [], [], [])
    {
      inputBuffer := new int8[INPUT_SHAPE];
      currentPayload := new int8[PAYLOAD_SIZE];
      inputIndex, bytesRead, state, inferences := 0, 0, WaitHeader, [];
    }

    /** Runs the inference on the full input; `ok` tells whether every step of it succeeds. */
    method HandleInferenceCycle(ok: bool)
      requires inputBuffer.Length == INPUT_SHAPE == inputIndex
      modifies `inputIndex, `inferences
      ensures inferences == old(inferences) + [inputBuffer[..]]
      ensures inputIndex == if ok then 0 else INPUT_SHAPE
    {
      inferences := inferences + [inputBuffer[..]];
      if !ok {
        return;
      }
      inputIndex := 0;
    }

    /** A complete payload is copied into the input, as far as it fits. */
    method TakePayload(ok: bool)
      requires Valid() && bytesRead == PAYLOAD_SIZE
      modifies `inputIndex, `inferences, inputBuffer
      ensures inputIndex <= INPUT_SHAPE && currentPayload[..] == old(currentPayload[..])
      ensures (inputBuffer[..inputIndex], inferences)
           == old(Accept(inputBuffer[..inputIndex], inferences, currentPayload[..], ok))
    {
      ghost var input := inputBuffer[..inputIndex];
      var i := 0;
      while i < PAYLOAD_SIZE && inputIndex < INPUT_SHAPE
        invariant 0 <= i <= PAYLOAD_SIZE && inputIndex == |input| + i <= INPUT_SHAPE
        invariant inputBuffer[..inputIndex] == input + currentPayload[..i]
        invariant inferences == old(inferences)
      {
        inputBuffer[inputIndex] := currentPayload[i];
        inputIndex := inputIndex + 1;
        i := i + 1;
      }
      if inputIndex >= INPUT_SHAPE {
        assert inputBuffer[..INPUT_SHAPE] == inputBuffer[..];
        HandleInferenceCycle(ok);
      }
    }

    method ProcessUartByte(recvByte: byte, ok: bool)
      requires Valid()
      modifies this, inputBuffer, currentPayload
      ensures Valid()
      ensures Abstract() == Next(old(Abstract()), recvByte, ok)
    {
      match state {
        case WaitHeader =>
          if recvByte == 0xAA {
            state := WaitSync;
          }
        case WaitSync =>
          if recvByte == 0xBB {
            state := Payload;
            bytesRead := 0;
          } else if recvByte != 0xAA {
            state := WaitHeader;
          }
        case Payload =>
          currentPayload[bytesRead] := ToSigned(recvByte);
          bytesRead := bytesRead + 1;
          assert currentPayload[..bytesRead] == old(currentPayload[..bytesRead]) + [ToSigned(recvByte)];
          if bytesRead >= PAYLOAD_SIZE {
            state := Footer;
          }
        case Footer =>
          if recvByte == FOOTER_BYTE {
            assert currentPayload[..bytesRead] == currentPayload[..];
            TakePayload(ok);
          }
          state := WaitHeader;
      }
    }
  }
}
