/** Packet framing of a trace without tags: every packet starts with a 4-byte header whose
    third and fourth bytes hold the packet's own size (in bits or in bytes, little endian). */
module Framing {
  import opened Sequences
  import opened Splitting

  /** The packet size in bytes that a header announces. */
  function HeaderSize(bits: bool, s: seq<byte>): (n: nat)
    requires |s| >= 4
    ensures n < 0x10000
    ensures bits ==> n <= 8191
  {
    var field: int := s[2] as int + 256 * s[3] as int;
    if bits then field / 8 else field
  }

  /** Complete packets, the bytes after them, and whether those bytes start with a header
      that announces less than a header. */
  datatype Frames = Frames(packets: seq<seq<byte>>, tail: seq<byte>, corrupt: bool)

  /** The tail cannot be framed (yet): no header, a corrupt one, or an incomplete packet. */
  predicate Stuck(bits: bool, s: seq<byte>) {
    |s| < 4 || HeaderSize(bits, s) < 4 || |s| < HeaderSize(bits, s)
  }

  predicate Corrupt(bits: bool, s: seq<byte>) {
    |s| >= 4 && HeaderSize(bits, s) < 4
  }

  function Frame(bits: bool, s: seq<byte>): (f: Frames)
    ensures Stuck(bits, f.tail) && f.corrupt == Corrupt(bits, f.tail)
    ensures |f.tail| <= |s|
    decreases |s|
  {
    if Stuck(bits, s) then Frames([], s, Corrupt(bits, s))
    else
      var n := HeaderSize(bits, s);
      var f := Frame(bits, s[n..]);
      Frames([s[..n]] + f.packets, f.tail, f.corrupt)
  }

  /** `p` is one complete packet of the length its header announces. */
  ghost predicate IsPacket(bits: bool, p: seq<byte>) {
    |p| >= 4 && HeaderSize(bits, p) == |p|
  }

  lemma HeaderAppend(bits: bool, s: seq<byte>, t: seq<byte>)
    requires |s| >= 4
    ensures HeaderSize(bits, s + t) == HeaderSize(bits, s)
  {
    assert (s + t)[2] == s[2] && (s + t)[3] == s[3];
  }

  /** The header of a device: the stream's identifier, then a field in little endian. */
  function Header(id0: byte, id1: byte, field: nat): (h: seq<byte>)
    requires field < 0x10000
    ensures |h| == 4
  {
    [id0, id1, field % 256, field / 256]
  }

  /** Main result. Every size can be announced and is read back: in bytes as it is, in bits up to
      seven bits more than the whole bytes. */
  lemma HeaderRoundTrip(bits: bool, id0: byte, id1: byte, n: nat, more: nat, rest: seq<byte>)
    requires if bits then n <= 8191 && more < 8 else n < 0x10000 && more == 0
    ensures HeaderSize(bits, Header(id0, id1, if bits then 8 * n + more else n) + rest) == n
  {
    var field := if bits then 8 * n + more else n;
    var s := Header(id0, id1, field) + rest;
    assert s[2] == field % 256 && s[3] == field / 256;
  }

  lemma FrameCons(bits: bool, p: seq<byte>, rest: seq<byte>)
    requires IsPacket(bits, p)
    ensures var f := Frame(bits, rest);
            Frame(bits, p + rest) == Frames([p] + f.packets, f.tail, f.corrupt)
  {
    var s := p + rest;
    HeaderAppend(bits, p, rest);
    Slices(p, rest);
  }

  /** The first packet of bytes that can be framed. */
  lemma FirstPacket(bits: bool, s: seq<byte>)
    requires !Stuck(bits, s)
    ensures IsPacket(bits, s[..HeaderSize(bits, s)])
    ensures s == s[..HeaderSize(bits, s)] + s[HeaderSize(bits, s)..]
  {
  }

  lemma ConcatCons(x: seq<byte>, xs: seq<seq<byte>>, t: seq<byte>)
    ensures Concat([x] + xs) + t == x + (Concat(xs) + t)
  {
    assert ([x] + xs)[1..] == xs;
  }

  /** Framing cuts without losing a byte, and every piece is a packet. */
  lemma {:induction false} FrameConcat(bits: bool, s: seq<byte>)
    ensures Concat(Frame(bits, s).packets) + Frame(bits, s).tail == s
    ensures forall p :: p in Frame(bits, s).packets ==> IsPacket(bits, p)
    decreases |s|
  {
    if !Stuck(bits, s) {
      var p, rest := s[..HeaderSize(bits, s)], s[HeaderSize(bits, s)..];
      FirstPacket(bits, s);
      FrameConcat(bits, rest);
      var f := Frame(bits, rest);
      ConcatCons(p, f.packets, f.tail);
    }
  }

  /** Framing is the only such cut: packets followed by bytes that cannot be framed. */
  lemma {:induction false} FrameUnique(bits: bool, packets: seq<seq<byte>>, tail: seq<byte>)
    requires forall p :: p in packets ==> IsPacket(bits, p)
    requires Stuck(bits, tail)
    ensures Frame(bits, Concat(packets) + tail) == Frames(packets, tail, Corrupt(bits, tail))
    decreases |packets|
  {
    if packets == [] {
      assert Concat(packets) + tail == tail;
    } else {
      FrameUnique(bits, packets[1..], tail);
      assert packets == [packets[0]] + packets[1..];
      ConcatCons(packets[0], packets[1..], tail);
      FrameCons(bits, packets[0], Concat(packets[1..]) + tail);
    }
  }

  /** Framing can be done incrementally: packets are final, the tail is framed again. */
  lemma FrameAppend(bits: bool, s: seq<byte>, t: seq<byte>)
    ensures var f := Frame(bits, s); var g := Frame(bits, f.tail + t);
            Frame(bits, s + t) == Frames(f.packets + g.packets, g.tail, g.corrupt)
  {
    var f := Frame(bits, s);
    var g := Frame(bits, f.tail + t);
    FrameConcat(bits, s);
    FrameConcat(bits, f.tail + t);
    ConcatAppend(f.packets, g.packets);
    Assoc3(Concat(f.packets), f.tail, t);
    Assoc3(Concat(f.packets), Concat(g.packets), g.tail);
    FrameUnique(bits, f.packets + g.packets, g.tail);
  }

  /** What is framed is a prefix of the stream. */
  lemma FrameTail(bits: bool, s: seq<byte>)
    ensures var f := Frame(bits, s);
            s == s[..|s| - |f.tail|] + f.tail
  {
    FrameConcat(bits, s);
    Slices(Concat(Frame(bits, s).packets), Frame(bits, s).tail);
  }

  /** A corrupt header stops framing for good. */
  lemma FrameCorrupt(bits: bool, s: seq<byte>, t: seq<byte>)
    requires Frame(bits, s).corrupt
    ensures Frame(bits, s + t).packets == Frame(bits, s).packets && Frame(bits, s + t).corrupt
  {
    FrameAppend(bits, s, t);
    var f := Frame(bits, s);
    HeaderAppend(bits, f.tail, t);
    assert f.packets + [] == f.packets;
  }
}
