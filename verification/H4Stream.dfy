// The H4 transport as a language: packets, their framing on the UART (section 2
// of Vol 4 Part A of the Bluetooth Core Specification) and the byte-at-a-time
// reader that chunked reassembly must agree with.
module H4Stream {
  type Byte = b: int | 0 <= b < 256

  const ACL: Byte := 2
  const EVENT: Byte := 4
  const MAX_ACL_PAYLOAD: nat := 1021
  const MAX_PACKET: nat := 1025
  const INITIAL_READ: nat := 3
  const READ_BUFFER: nat := 1026

  // One controller-to-host packet: its H4 type and its header plus payload.
  datatype Packet = Packet(kind: Byte, data: seq<Byte>)

  predicate Kind(b: Byte) {
    b == EVENT || b == ACL
  }

  function Header(kind: Byte): nat {
    if kind == EVENT then 2 else 4
  }

  function MaxPayload(kind: Byte): nat {
    if kind == EVENT then 255 else MAX_ACL_PAYLOAD
  }

  // The length field of a complete header (section 5.4 of Vol 4 Part E).
  function Payload(kind: Byte, data: seq<Byte>): nat
    requires Header(kind) <= |data|
  {
    if kind == EVENT then data[1] else data[2] as int + 256 * data[3] as int
  }

  predicate ValidPacket(p: Packet) {
    && Kind(p.kind)
    && Header(p.kind) <= |p.data|
    && Payload(p.kind, p.data) <= MaxPayload(p.kind)
    && |p.data| == Header(p.kind) + Payload(p.kind, p.data)
  }

  // An event, and data for a connection, spelled out byte by byte.
  function EventOf(code: Byte, parameters: seq<Byte>): Packet
    requires |parameters| < 256
  {
    Packet(4, [code, |parameters|] + parameters)
  }

  function DataOf(handle: nat, payload: seq<Byte>): Packet
    requires handle < 0x10000 && |payload| < 0x10000
  {
    Packet(2, [handle % 256, handle / 256, |payload| % 256, |payload| / 256] + payload)
  }

  // These, with no more payload than the controller may send, are the packets.
  lemma PacketsSpelled(p: Packet)
    ensures ValidPacket(p) <==>
              || (exists code, parameters: seq<Byte> :: |parameters| < 256 && p == EventOf(code, parameters))
              || (exists handle: nat, payload: seq<Byte> :: handle < 0x10000 && |payload| <= MAX_ACL_PAYLOAD && p == DataOf(handle, payload))
  {
    if ValidPacket(p) && p.kind == 4 {
      assert p == EventOf(p.data[0], p.data[2..]);
    } else if ValidPacket(p) {
      var d := p.data;
      var handle: nat := d[0] as int + 256 * d[1] as int;
      assert handle % 256 == d[0] && handle / 256 == d[1];
      assert |d[4..]| % 256 == d[2] && |d[4..]| / 256 == d[3];
      assert p == DataOf(handle, d[4..]);
    }
    forall handle: nat, payload: seq<Byte> | handle < 0x10000 && |payload| <= MAX_ACL_PAYLOAD && p == DataOf(handle, payload)
      ensures ValidPacket(p)
    {
      assert |payload| == |payload| % 256 + 256 * (|payload| / 256);
    }
  }

  predicate AllValid(ps: seq<Packet>) {
    forall p :: p in ps ==> ValidPacket(p)
  }

  // The framing of FdoWriteDeviceIO: the type byte, then the packet.
  function Frame(p: Packet): seq<Byte> {
    [p.kind] + p.data
  }

  function Frames(ps: seq<Packet>): seq<Byte> {
    if ps == [] then [] else Frame(ps[0]) + Frames(ps[1..])
  }

  lemma {:induction false} FramesConcat(a: seq<Packet>, b: seq<Packet>)
    ensures Frames(a + b) == Frames(a) + Frames(b)
  {
    hide Frame, Frames;
    if a == [] {
      NoFrames();
      assert a + b == b && [] + Frames(b) == Frames(b);
    } else {
      FramesConcat(a[1..], b);
      assert (a + b)[0] == a[0] && (a + b)[1..] == a[1..] + b;
      FramesFirst(a);
      FramesFirst(a + b);
      Associative(Frame(a[0]), Frames(a[1..]), Frames(b));
    }
  }

  lemma Associative(a: seq<Byte>, b: seq<Byte>, c: seq<Byte>)
    ensures a + (b + c) == (a + b) + c
  {
  }

  lemma FramesFirst(ps: seq<Packet>)
    requires ps != []
    ensures Frames(ps) == Frame(ps[0]) + Frames(ps[1..])
  {
    hide Frame;
  }

  // ----- the byte-at-a-time reader -----

  datatype Phase = Idle | Partial(kind: Byte, data: seq<Byte>) | Broken

  datatype Reading = Reading(phase: Phase, packets: seq<Packet>)

  // A packet that has begun and is not complete.
  predicate Pending(s: Phase) {
    s.Partial? ==>
      && Kind(s.kind)
      && (Header(s.kind) <= |s.data| ==>
            && Payload(s.kind, s.data) <= MaxPayload(s.kind)
            && |s.data| < Header(s.kind) + Payload(s.kind, s.data))
  }

  function Feed(s: Phase, b: Byte): Reading {
    match s
    case Broken => Reading(Broken, [])
    case Idle => Reading(if Kind(b) then Partial(b, []) else Broken, [])
    case Partial(kind, data) => Settle(kind, data + [b])
  }

  // What a packet prefix amounts to: still open, refused, or complete.
  function Settle(kind: Byte, data: seq<Byte>): Reading {
    if |data| < Header(kind) then Reading(Partial(kind, data), [])
    else if Payload(kind, data) > MaxPayload(kind) then Reading(Broken, [])
    else if |data| < Header(kind) + Payload(kind, data) then Reading(Partial(kind, data), [])
    else Reading(Idle, [Packet(kind, data)])
  }

  function FeedAll(s: Phase, bytes: seq<Byte>): Reading
    decreases |bytes|
  {
    if bytes == [] then Reading(s, [])
    else
      var first := Feed(s, bytes[0]);
      var rest := FeedAll(first.phase, bytes[1..]);
      Reading(rest.phase, first.packets + rest.packets)
  }

  // Chunk independence: reading a then b is reading a + b.
  lemma {:induction false} FeedConcat(s: Phase, a: seq<Byte>, b: seq<Byte>)
    ensures var first := FeedAll(s, a);
            var second := FeedAll(first.phase, b);
            FeedAll(s, a + b) == Reading(second.phase, first.packets + second.packets)
    decreases |a|
  {
    if a == [] {
      assert a + b == b;
    } else {
      FeedConcat(Feed(s, a[0]).phase, a[1..], b);
      assert (a + b)[1..] == a[1..] + b;
    }
  }

  // Any two ways of splitting one stream into reads give the same packets and
  // leave the reader in the same state.
  function FeedChunks(s: Phase, chunks: seq<seq<Byte>>): Reading
    decreases |chunks|
  {
    if chunks == [] then Reading(s, [])
    else
      var first := FeedAll(s, chunks[0]);
      var rest := FeedChunks(first.phase, chunks[1..]);
      Reading(rest.phase, first.packets + rest.packets)
  }

  function Joined(chunks: seq<seq<Byte>>): seq<Byte> {
    if chunks == [] then [] else chunks[0] + Joined(chunks[1..])
  }

  lemma {:induction false} ChunksDoNotMatter(s: Phase, chunks: seq<seq<Byte>>)
    ensures FeedChunks(s, chunks) == FeedAll(s, Joined(chunks))
    decreases |chunks|
  {
    if chunks != [] {
      var first := FeedAll(s, chunks[0]);
      ChunksDoNotMatter(first.phase, chunks[1..]);
      FeedConcat(s, chunks[0], Joined(chunks[1..]));
    }
  }

  lemma SplitsAgree(s: Phase, a: seq<seq<Byte>>, b: seq<seq<Byte>>)
    requires Joined(a) == Joined(b)
    ensures FeedChunks(s, a) == FeedChunks(s, b)
  {
    ChunksDoNotMatter(s, a);
    ChunksDoNotMatter(s, b);
  }

  lemma {:induction false} BrokenStays(bytes: seq<Byte>)
    ensures FeedAll(Broken, bytes) == Reading(Broken, [])
  {
    if bytes != [] {
      BrokenStays(bytes[1..]);
    }
  }

  // Filling a packet that stays open for the whole chunk but perhaps its end.
  lemma {:induction false} FillOpen(kind: Byte, data: seq<Byte>, chunk: seq<Byte>)
    requires Pending(Partial(kind, data)) && chunk != []
    requires Header(kind) <= |data| ==> |data| + |chunk| <= Header(kind) + Payload(kind, data)
    requires |data| < Header(kind) ==> |data| + |chunk| <= Header(kind)
    ensures FeedAll(Partial(kind, data), chunk) == Settle(kind, data + chunk)
    decreases |chunk|
  {
    var next := data + [chunk[0]];
    if |chunk| == 1 {
      assert data + chunk == next;
      assert FeedAll(Feed(Partial(kind, data), chunk[0]).phase, chunk[1..]) == Reading(Settle(kind, next).phase, []);
    } else {
      assert Settle(kind, next) == Reading(Partial(kind, next), []);
      FillOpen(kind, next, chunk[1..]);
      assert next + chunk[1..] == data + chunk;
    }
  }

  // ----- reading inverts framing -----

  lemma ReadsOneFrame(p: Packet)
    requires ValidPacket(p)
    ensures FeedAll(Idle, Frame(p)) == Reading(Idle, [p])
  {
    var partial := Partial(p.kind, []);
    BodyFills(p);
    assert Frame(p) == [p.kind] + p.data;
    assert FeedAll(Idle, [p.kind]) == Reading(partial, []) by {
      assert FeedAll(partial, []) == Reading(partial, []);
    }
    hide FeedAll, Frame;
    FeedConcat(Idle, [p.kind], p.data);
    assert [] + [p] == [p];
  }

  lemma BodyFills(p: Packet)
    requires ValidPacket(p)
    ensures FeedAll(Partial(p.kind, []), p.data) == Reading(Idle, [p])
  {
    hide FeedAll;
    var h := Header(p.kind);
    var head, body := p.data[..h], p.data[h..];
    assert p.data == head + body;
    FillOpen(p.kind, [], head);
    assert [] + head == head;
    assert Payload(p.kind, head) == Payload(p.kind, p.data);
    if body == [] {
      assert head == p.data;
    } else {
      FillOpen(p.kind, head, body);
      FeedConcat(Partial(p.kind, []), head, body);
      assert [] + [p] == [p];
    }
  }

  lemma {:induction false} ReadsFrames(ps: seq<Packet>)
    requires AllValid(ps)
    ensures FeedAll(Idle, Frames(ps)) == Reading(Idle, ps)
  {
    if ps != [] {
      ReadsOneFrame(ps[0]);
      ReadsFrames(ps[1..]);
      FeedConcat(Idle, Frame(ps[0]), Frames(ps[1..]));
    }
  }

  // The bytes a phase has consumed without completing a packet.
  function Held(s: Phase): seq<Byte> {
    match s
    case Partial(kind, data) => [kind] + data
    case _ => []
  }

  lemma FeedIsLossless(s: Phase, b: Byte)
    requires Pending(s) && !Feed(s, b).phase.Broken?
    ensures var r := Feed(s, b);
            && Pending(r.phase) && AllValid(r.packets)
            && Held(s) + [b] == Frames(r.packets) + Held(r.phase)
  {
    if s.Partial? {
      var data := s.data + [b];
      assert Held(s) + [b] == [s.kind] + data;
      if Feed(s, b).phase == Idle {
        var p := Packet(s.kind, data);
        assert Frames([p]) == Frame(p) + Frames([]);
      }
    }
  }

  // Nothing is lost, invented or reordered: while the reader is not broken, the
  // stream is exactly the frames of the packets it produced, then what it holds.
  lemma {:induction false} ReadingIsLossless(s: Phase, bytes: seq<Byte>)
    requires Pending(s) && !FeedAll(s, bytes).phase.Broken?
    ensures var r := FeedAll(s, bytes);
            && Pending(r.phase) && AllValid(r.packets)
            && Held(s) + bytes == Frames(r.packets) + Held(r.phase)
    decreases |bytes|
  {
    hide Feed, ValidPacket, Frames, Held;
    if bytes == [] {
      NoFrames();
      assert Held(s) + bytes == Held(s) == [] + Held(s);
    } else {
      var first := Feed(s, bytes[0]);
      if first.phase.Broken? {
        BrokenStays(bytes[1..]);
      }
      FeedIsLossless(s, bytes[0]);
      ReadingIsLossless(first.phase, bytes[1..]);
      var rest := FeedAll(first.phase, bytes[1..]);
      FramesConcat(first.packets, rest.packets);
      calc {
        Held(s) + bytes;
        { assert bytes == [bytes[0]] + bytes[1..]; }
        (Held(s) + [bytes[0]]) + bytes[1..];
        Frames(first.packets) + (Held(first.phase) + bytes[1..]);
        Frames(first.packets) + Frames(rest.packets) + Held(rest.phase);
      }
    }
  }

  lemma NoFrames()
    ensures Frames([]) == []
  {
  }

  function Zeros(n: nat): seq<Byte> {
    seq(n, _ => 0)
  }

  // Any open packet can still be completed.
  lemma Completion(s: Phase) returns (tail: seq<Byte>)
    requires Pending(s) && s.Partial?
    ensures ValidPacket(Packet(s.kind, s.data + tail))
  {
    if |s.data| < Header(s.kind) {
      tail := Zeros(Header(s.kind) - |s.data|);
      var done := s.data + tail;
      assert done[Header(s.kind) - 1] == 0;
      var rest := Zeros(Payload(s.kind, done));
      assert s.data + (tail + rest) == done + rest;
      tail := tail + rest;
    } else {
      tail := Zeros(Header(s.kind) + Payload(s.kind, s.data) - |s.data|);
    }
  }

  // A stream the reader accepts so far is a prefix of well-formed frames,
  lemma AcceptedIsPrefix(bytes: seq<Byte>) returns (ps: seq<Packet>)
    requires !FeedAll(Idle, bytes).phase.Broken?
    ensures AllValid(ps) && bytes <= Frames(ps)
  {
    hide FeedAll, ValidPacket, Frames, Frame, Held;
    var r := FeedAll(Idle, bytes);
    ReadingIsLossless(Idle, bytes);
    HeldIs(r.phase);
    assert Held(Idle) + bytes == bytes;
    ps := r.packets;
    if r.phase.Partial? {
      var tail := Completion(r.phase);
      var last := Packet(r.phase.kind, r.phase.data + tail);
      ps := ps + [last];
      FramesConcat(r.packets, [last]);
      OneFrame(last);
      assert Frames(r.packets) + (Held(r.phase) + tail) == bytes + tail;
    }
  }

  lemma HeldIs(s: Phase)
    ensures Held(Idle) == [] && (s == Idle ==> Held(s) == [])
    ensures s.Partial? ==> Held(s) == [s.kind] + s.data
  {
  }

  lemma OneFrame(p: Packet)
    ensures Frames([p]) == Frame(p) == [p.kind] + p.data
  {
    assert Frames([p]) == Frame(p) + Frames([]);
  }

  // and no prefix of well-formed frames ever breaks it.
  lemma PrefixIsAccepted(bytes: seq<Byte>, ps: seq<Packet>)
    requires AllValid(ps) && bytes <= Frames(ps)
    ensures !FeedAll(Idle, bytes).phase.Broken?
  {
    hide FeedAll, Frames;
    ReadsFrames(ps);
    var rest := Frames(ps)[|bytes|..];
    FeedConcat(Idle, bytes, rest);
    assert bytes + rest == Frames(ps);
    BrokenStays(rest);
  }

  // The reader breaks exactly on streams that no sequence of well-formed
  // packets could have begun with.
  lemma BrokenExactly(bytes: seq<Byte>)
    ensures FeedAll(Idle, bytes).phase.Broken? <==> !exists ps :: AllValid(ps) && bytes <= Frames(ps)
  {
    hide FeedAll, Frames;
    if exists ps :: AllValid(ps) && bytes <= Frames(ps) {
      var ps :| AllValid(ps) && bytes <= Frames(ps);
      PrefixIsAccepted(bytes, ps);
    } else if !FeedAll(Idle, bytes).phase.Broken? {
      var ps := AcceptedIsPrefix(bytes);
    }
  }

  // ----- sizing the next read -----

  function NextRead(s: Phase): nat
    requires Pending(s)
  {
    match s
    case Partial(kind, data) =>
      if |data| < Header(kind) then Header(kind) - |data| else Header(kind) + Payload(kind, data) - |data|
    case _ => INITIAL_READ
  }

  // A read is never empty, always fits the buffer and never reaches beyond the
  // packet being assembled: fewer bytes complete nothing, and exactly that many
  // complete at most the one packet, with nothing of the next one consumed.
  lemma NextReadStopsInPacket(s: Phase, bytes: seq<Byte>)
    requires Pending(s) && !s.Broken? && |bytes| <= NextRead(s)
    ensures 0 < NextRead(s) <= READ_BUFFER
    ensures |bytes| < NextRead(s) ==> FeedAll(s, bytes).packets == []
    ensures FeedAll(s, bytes).packets != [] ==> |FeedAll(s, bytes).packets| == 1 && FeedAll(s, bytes).phase == Idle
  {
    if bytes != [] {
      if s.Partial? {
        FillOpen(s.kind, s.data, bytes);
      } else if Kind(bytes[0]) && |bytes| > 1 {
        FillOpen(bytes[0], [], bytes[1..]);
      } else {
        BrokenStays(bytes[1..]);
      }
    }
  }
}
