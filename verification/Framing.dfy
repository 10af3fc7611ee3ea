/** The byte format of PiVisionEthTermConnection: a little-endian payload size followed by the payload
    (C++/src/pivision_ethtermconnection.cpp:145-164, 236-253), as values. */
module Framing {
  import opened Bytes

  type Payload = p: seq<Byte> | |p| < U32 witness []

  function Frame(p: Payload): seq<Byte> {
    Le32(|p|) + p
  }

  /** What a sequence of Send calls puts on the wire. */
  function Wire(ps: seq<Payload>): seq<Byte> {
    if ps == [] then [] else Frame(ps[0]) + Wire(ps[1..])
  }

  /** The length announced by the next header in `stream`. */
  function HeaderOf(stream: seq<Byte>): (n: nat)
    requires |stream| >= 4
    ensures n < U32
  {
    FromLe32(stream[..4]);
    FromLe(stream[..4])
  }

  predicate HasFrame(stream: seq<Byte>) {
    |stream| >= 4 && |stream| >= 4 + HeaderOf(stream)
  }

  function FirstPayload(stream: seq<Byte>): Payload
    requires HasFrame(stream)
  {
    stream[4..4 + HeaderOf(stream)]
  }

  function AfterFirst(stream: seq<Byte>): (rest: seq<Byte>)
    requires HasFrame(stream)
    ensures |rest| < |stream|
  {
    stream[4 + HeaderOf(stream)..]
  }

  /** The complete frames at the front of a byte stream. */
  function Frames(stream: seq<Byte>): seq<Payload>
    decreases |stream|
  {
    if HasFrame(stream) then [FirstPayload(stream)] + Frames(AfterFirst(stream)) else []
  }

  /** What remains of a byte stream after its complete frames. */
  function Leftover(stream: seq<Byte>): seq<Byte>
    decreases |stream|
  {
    if HasFrame(stream) then Leftover(AfterFirst(stream)) else stream
  }

  lemma FrameParses(p: Payload, rest: seq<Byte>)
    ensures var s := Frame(p) + rest;
      HasFrame(s) && FirstPayload(s) == p && AfterFirst(s) == rest
  {
    var s := Frame(p) + rest;
    assert s[..4] == Le32(|p|);
    Le32RoundTrip(|p|);
  }

  /** Parsing loses nothing: a stream is its first frame and the rest. */
  lemma FrameOfParse(stream: seq<Byte>)
    requires HasFrame(stream)
    ensures stream == Frame(FirstPayload(stream)) + AfterFirst(stream)
  {
    Le32OfBytes(stream[..4]);
    assert stream == stream[..4] + FirstPayload(stream) + AfterFirst(stream);
  }

  /** Round trip: parsing what was sent gives back the payloads, in order and whatever they contain. */
  lemma {:induction false} FramesOfWire(ps: seq<Payload>)
    ensures Frames(Wire(ps)) == ps && Leftover(Wire(ps)) == []
    decreases |ps|
  {
    if ps != [] {
      FrameParses(ps[0], Wire(ps[1..]));
      FramesOfWire(ps[1..]);
    }
  }

  lemma {:induction false} WireAppend(ps: seq<Payload>, p: Payload)
    ensures Wire(ps + [p]) == Wire(ps) + Frame(p)
    decreases |ps|
  {
    if ps == [] {
      assert (ps + [p])[1..] == [];
    } else {
      assert (ps + [p])[1..] == ps[1..] + [p];
      WireAppend(ps[1..], p);
    }
  }

  lemma PrefixFrame(stream: seq<Byte>, cut: nat)
    requires cut <= |stream| && HasFrame(stream[..cut])
    ensures HasFrame(stream) && FirstPayload(stream) == FirstPayload(stream[..cut])
    ensures |stream| - |AfterFirst(stream)| <= cut
    ensures AfterFirst(stream[..cut]) == AfterFirst(stream)[..cut - (|stream| - |AfterFirst(stream)|)]
  {
    assert stream[..cut][..4] == stream[..4];
  }

  lemma PrefixCons(p: Payload, a: seq<Payload>, b: seq<Payload>)
    requires a <= b
    ensures [p] + a <= [p] + b
  {
  }

  /** Cutting a stream short only drops frames at the end: no payload is altered, reordered or invented. */
  lemma {:induction false} FramesOfPrefix(stream: seq<Byte>, cut: nat)
    requires cut <= |stream|
    ensures Frames(stream[..cut]) <= Frames(stream)
    decreases |stream|
  {
    if HasFrame(stream[..cut]) {
      PrefixFrame(stream, cut);
      var rest := AfterFirst(stream);
      FramesOfPrefix(rest, cut - (|stream| - |rest|));
      PrefixCons(FirstPayload(stream), Frames(AfterFirst(stream[..cut])), Frames(rest));
    }
  }

  /** However much of the wire reaches the other end, it parses to the first of the payloads sent. */
  lemma FramesOfWirePrefix(ps: seq<Payload>, cut: nat)
    requires cut <= |Wire(ps)|
    ensures Frames(Wire(ps)[..cut]) <= ps
  {
    FramesOfWire(ps);
    FramesOfPrefix(Wire(ps), cut);
  }
}
