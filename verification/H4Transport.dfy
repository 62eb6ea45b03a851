// The receive side of the Bluetooth driver (cyw-bluetooth/io.c): reassembly of
// UART reads into packets, and first-in first-out matching of packets to the
// read requests of the upper layer.
module H4Transport {
  import opened H4Stream

  const COMMAND: Byte := 1
  const MAX_COMMAND: nat := 258
  const MAX_EVENT: nat := 257
  const MAX_LIST: nat := 256

  datatype Status = Success | ProtocolError | InsufficientResources | BufferOverflow

  datatype Segment = Type | HeaderBytes | PayloadBytes

  // A queued read request: its identity and how large a packet it can take.
  datatype ReadRequest = ReadRequest(id: nat, capacity: nat)

  // A completed request: the packet copied out, or refused as too large.
  datatype Completion = Completion(request: ReadRequest, packet: Packet)
  {
    predicate Delivered() {
      |packet.data| <= request.capacity
    }
  }

  // ----- HCIContextValidate (cyw-bluetooth/Fdo.c) -----

  predicate ContextValidate(kind: Byte, data: seq<Byte>) {
    if kind == COMMAND then
      3 <= |data| <= MAX_COMMAND && |data| == data[2] as int + 3
    else if kind == EVENT then
      2 <= |data| <= MAX_EVENT && |data| == data[1] as int + 2
    else if kind == ACL then
      4 <= |data| <= MAX_PACKET && |data| == data[2] as int + 256 * data[3] as int + 4
    else
      false
  }

  // The write side accepts exactly the packets the read side can reassemble:
  // what it frames, the reader hands back unchanged.
  lemma ValidatedFramesReadBack(kind: Byte, data: seq<Byte>)
    requires Kind(kind)
    ensures ContextValidate(kind, data) <==> FeedAll(Idle, Frame(Packet(kind, data))) == Reading(Idle, [Packet(kind, data)])
  {
    var p := Packet(kind, data);
    if ContextValidate(kind, data) {
      ReadsOneFrame(p);
    } else if FeedAll(Idle, Frame(p)) == Reading(Idle, [p]) {
      ReadingIsLossless(Idle, Frame(p));
      assert AllValid([p]);
      MemberValid([p], 0);
    }
  }

  lemma MemberValid(ps: seq<Packet>, i: nat)
    requires AllValid(ps) && i < |ps|
    ensures ValidPacket(ps[i])
  {
  }

  // ----- FIFO matching -----

  function Of(kind: Byte, ps: seq<Packet>): seq<Packet> {
    if ps == [] then []
    else Of(kind, ps[..|ps| - 1]) + (if ps[|ps| - 1].kind == kind then [ps[|ps| - 1]] else [])
  }

  lemma OfAppend(kind: Byte, ps: seq<Packet>, p: Packet)
    ensures Of(kind, ps + [p]) == Of(kind, ps) + (if p.kind == kind then [p] else [])
  {
    assert (ps + [p])[..|ps|] == ps;
  }

  function Requests(cs: seq<Completion>): seq<ReadRequest> {
    seq(|cs|, i requires 0 <= i < |cs| => cs[i].request)
  }

  function Packets(cs: seq<Completion>): seq<Packet> {
    seq(|cs|, i requires 0 <= i < |cs| => cs[i].packet)
  }

  // One direction of the transport: prefetched packets waiting for requests,
  // requests waiting for packets, the completions so far, in order, and how many
  // requests have been queued but not yet tried to match.
  datatype Channel = Channel(list: seq<Packet>, queue: seq<ReadRequest>, completed: seq<Completion>, owed: nat)

  const EMPTY: Channel := Channel([], [], [], 0)

  // A packet and a request wait side by side only for a match that is owed, and
  // the list stays within its bound.
  predicate Balanced(c: Channel) {
    (|c.list| <= c.owed || |c.queue| <= c.owed) && |c.list| <= MAX_LIST
  }

  // The two heads, if both exist, complete together.
  function Match(c: Channel): Channel {
    if c.list == [] || c.queue == [] then c
    else c.(list := c.list[1..], queue := c.queue[1..], completed := c.completed + [Completion(c.queue[0], c.list[0])])
  }

  // The three sections under the queue lock: ReadRequestComplete for a packet,
  // the queueing of a request, and ReadRequestComplete for a request.
  function Arrive(c: Channel, p: Packet): Channel {
    Match(c.(list := c.list + [p]))
  }

  function Queued(c: Channel, r: ReadRequest): Channel {
    c.(queue := c.queue + [r], owed := c.owed + 1)
  }

  function Matched(c: Channel): Channel
    requires 0 < c.owed
  {
    Match(c.(owed := c.owed - 1))
  }

  // Matching conserves both sequences and pairs them position by position.
  lemma MatchConserves(c: Channel)
    ensures Packets(Match(c).completed) + Match(c).list == Packets(c.completed) + c.list
    ensures Requests(Match(c).completed) + Match(c).queue == Requests(c.completed) + c.queue
  {
    var d := Match(c);
    if d != c {
      assert Packets(d.completed) == Packets(c.completed) + [c.list[0]];
      assert Requests(d.completed) == Requests(c.completed) + [c.queue[0]];
    }
  }

  datatype Event = Arrival(packet: Packet) | Asked(request: ReadRequest) | Tried

  function Step(c: Channel, e: Event): Channel {
    match e
    case Arrival(p) => if |c.list| >= MAX_LIST then c else Arrive(c, p)
    case Asked(r) => Queued(c, r)
    case Tried => if c.owed == 0 then c else Matched(c)
  }

  function Run(c: Channel, es: seq<Event>): Channel {
    if es == [] then c else Step(Run(c, es[..|es| - 1]), es[|es| - 1])
  }

  // The packets that found room, and the requests, in order of arrival.
  function Accepted(c: Channel, es: seq<Event>): seq<Packet> {
    if es == [] then []
    else
      var e := es[|es| - 1];
      Accepted(c, es[..|es| - 1])
      + (if e.Arrival? && |Run(c, es[..|es| - 1]).list| < MAX_LIST then [e.packet] else [])
  }

  function AskedFor(es: seq<Event>): seq<ReadRequest> {
    if es == [] then []
    else AskedFor(es[..|es| - 1]) + (if es[|es| - 1].Asked? then [es[|es| - 1].request] else [])
  }

  lemma StepBalanced(c: Channel, e: Event)
    requires Balanced(c)
    ensures Balanced(Step(c, e))
  {
  }

  // Over every interleaving of packets, requests and matches: the i-th completion
  // pairs the i-th request with the i-th accepted packet, and once no match is
  // owed as many pairs are completed as both sequences allow.
  lemma {:induction false} FifoRun(es: seq<Event>)
    ensures var c := Run(EMPTY, es);
            && Balanced(c)
            && Packets(c.completed) + c.list == Accepted(EMPTY, es)
            && Requests(c.completed) + c.queue == AskedFor(es)
  {
    if es != [] {
      FifoRun(es[..|es| - 1]);
      var before := Run(EMPTY, es[..|es| - 1]);
      StepBalanced(before, es[|es| - 1]);
      StepConserves(before, es[|es| - 1]);
    }
  }

  lemma StepConserves(c: Channel, e: Event)
    ensures Packets(Step(c, e).completed) + Step(c, e).list == Packets(c.completed) + c.list + (if e.Arrival? && |c.list| < MAX_LIST then [e.packet] else [])
    ensures Requests(Step(c, e).completed) + Step(c, e).queue == Requests(c.completed) + c.queue + (if e.Asked? then [e.request] else [])
  {
    hide Match;
    match e {
      case Arrival(p) =>
        MatchConserves(c.(list := c.list + [p]));
        assert Packets(c.completed) + (c.list + [p]) == Packets(c.completed) + c.list + [p];
      case Asked(r) =>
        assert Requests(c.completed) + (c.queue + [r]) == Requests(c.completed) + c.queue + [r];
      case Tried =>
        if 0 < c.owed {
          MatchConserves(c.(owed := c.owed - 1));
        }
    }
  }

  lemma FifoPairs(es: seq<Event>, i: nat)
    ensures var c, accepted, asked := Run(EMPTY, es), Accepted(EMPTY, es), AskedFor(es);
            && |c.completed| <= (if |accepted| < |asked| then |accepted| else |asked|) <= |c.completed| + c.owed
            && (i < |c.completed| ==> c.completed[i] == Completion(asked[i], accepted[i]))
  {
    FifoRun(es);
    var c := Run(EMPTY, es);
    if i < |c.completed| {
      assert (Packets(c.completed) + c.list)[i] == c.completed[i].packet;
      assert (Requests(c.completed) + c.queue)[i] == c.completed[i].request;
    }
  }

  // ----- the driver object -----

  class Transport {
    // UART_READ_CONTEXT
    var segment: Segment
    var bytesRead: nat
    var bytesToRead: nat
    var kind: Byte
    const raw: array<Byte>
    // FDO_EXTENSION: the two lists and queues of prefetched packets and requests
    var events: Channel
    var acl: Channel
    // Packets assembled since the pump started, in order.
    ghost var emitted: seq<Packet>

    ghost predicate Valid()
      reads this, raw
    {
      && raw.Length == MAX_PACKET
      && Conserved()
      && match segment
         case Type => bytesToRead == 0
         case HeaderBytes => Kind(kind) && bytesRead < Header(kind) && bytesToRead == Header(kind) - bytesRead
         case PayloadBytes =>
           && Kind(kind)
           && Payload(kind, raw[..]) <= MaxPayload(kind)
           && bytesRead < Payload(kind, raw[..])
           && bytesToRead == Payload(kind, raw[..]) - bytesRead
    }

    // Every packet assembled is, in order, either completed or still listed.
    ghost predicate Conserved()
      reads this`events, this`acl, this`emitted
    {
      && Balanced(events) && Balanced(acl)
      && Packets(events.completed) + events.list == Of(EVENT, emitted)
      && Packets(acl.completed) + acl.list == Of(ACL, emitted)
    }

    // What has been read of the packet in progress.
    ghost function Phase(): Phase
      requires Valid()
      reads this, raw
      ensures Pending(Phase()) && !Phase().Broken?
    {
      match segment
      case Type => Idle
      case HeaderBytes => Partial(kind, raw[..bytesRead])
      case PayloadBytes =>
        assert Payload(kind, raw[..]) == Payload(kind, raw[..Header(kind) + bytesRead]);
        Partial(kind, raw[..Header(kind) + bytesRead])
    }

    // ReadSegmentStateSet(GET_PKT_TYPE), on a fresh context.
    constructor ()
      ensures Valid() && Phase() == Idle && emitted == [] && fresh(raw)
      ensures events == acl == EMPTY
    {
      segment, bytesRead, bytesToRead, kind := Type, 0, 0, 0;
      raw := new Byte[MAX_PACKET];
      events, acl := EMPTY, EMPTY;
      emitted := [];
    }

    // FdoDevD0Entry: drop the prefetched packets and start over. Requests that
    // already wait keep waiting.
    method Restart()
      requires raw.Length == MAX_PACKET && Balanced(events) && Balanced(acl)
      modifies this
      ensures Valid() && Phase() == Idle && emitted == []
      ensures events == old(events).(list := [], completed := []) && acl == old(acl).(list := [], completed := [])
    {
      events, acl := events.(list := [], completed := []), acl.(list := [], completed := []);
      segment, bytesRead, bytesToRead, kind := Type, 0, 0, 0;
      emitted := [];
    }

    // IOCTL_BTHX_READ_HCI: queue the request, then match the two heads. Between
    // the two the lock is free: packets arrive, other requests come and match.
    method Read(packetKind: Byte, request: ReadRequest) returns (ghost es: seq<Event>)
      requires Valid() && Kind(packetKind)
      modifies this`events, this`acl, this`emitted
      ensures Valid() && Phase() == old(Phase())
      ensures var done := Step(Run(Step(old(if packetKind == EVENT then events else acl), Asked(request)), es), Tried);
              if packetKind == EVENT then events == done && acl == old(acl) else acl == done && events == old(events)
    {
      hide Run, Match;
      Queue(packetKind, request);
      es := Meanwhile(packetKind);
      MatchHeads(packetKind);
    }

    method Queue(packetKind: Byte, request: ReadRequest)
      requires Valid() && Kind(packetKind)
      modifies this`events, this`acl
      ensures Valid() && Phase() == old(Phase())
      ensures events == (if packetKind == EVENT then Queued(old(events), request) else old(events))
      ensures acl == (if packetKind == EVENT then old(acl) else Queued(old(acl), request))
    {
      if packetKind == EVENT {
        events := events.(queue := events.queue + [request], owed := events.owed + 1);
      } else {
        acl := acl.(queue := acl.queue + [request], owed := acl.owed + 1);
      }
    }

    method MatchHeads(packetKind: Byte)
      requires Valid() && Kind(packetKind)
      modifies this`events, this`acl
      ensures Valid() && Phase() == old(Phase())
      ensures events == (if packetKind == EVENT then Step(old(events), Tried) else old(events))
      ensures acl == (if packetKind == EVENT then old(acl) else Step(old(acl), Tried))
    {
      var channel := if packetKind == EVENT then events else acl;
      StepBalanced(channel, Tried);
      StepConserves(channel, Tried);
      if channel.owed == 0 {
        return;
      }
      channel := ReadRequestComplete(channel.(owed := channel.owed - 1));
      if packetKind == EVENT {
        events := channel;
      } else {
        acl := channel;
      }
    }

    // Others at work on the same list and queue.
    method Meanwhile(packetKind: Byte) returns (ghost es: seq<Event>)
      requires Valid() && Kind(packetKind)
      modifies this`events, this`acl, this`emitted
      ensures Valid() && Phase() == old(Phase())
      ensures var done := Run(old(if packetKind == EVENT then events else acl), es);
              if packetKind == EVENT then events == done && acl == old(acl) else acl == done && events == old(events)
    {
      hide Match, Of;
      es := [];
      var rounds: nat :| true;
      for round := 0 to rounds
        invariant Valid() && Phase() == old(Phase())
        invariant var done := Run(old(if packetKind == EVENT then events else acl), es);
                  if packetKind == EVENT then events == done && acl == old(acl) else acl == done && events == old(events)
      {
        ghost var e := Another(packetKind);
        assert (es + [e])[..|es|] == es;
        es := es + [e];
      }
    }

    method Another(packetKind: Byte) returns (ghost e: Event)
      requires Valid() && Kind(packetKind)
      modifies this`events, this`acl, this`emitted
      ensures Valid() && Phase() == old(Phase())
      ensures var done := Step(old(if packetKind == EVENT then events else acl), e);
              if packetKind == EVENT then events == done && acl == old(acl) else acl == done && events == old(events)
    {
      hide Match, Of;
      var actor: nat, request: ReadRequest :| true;
      if actor == 0 {
        Queue(packetKind, request);
        e := Asked(request);
      } else if actor == 1 {
        MatchHeads(packetKind);
        e := Tried;
      } else {
        var packet := Sample(packetKind);
        var status := Complete(packet, true);
        e := Arrival(packet);
      }
    }

    // Some whole packet of that kind.
    method Sample(packetKind: Byte) returns (packet: Packet)
      requires Kind(packetKind)
      ensures ValidPacket(packet) && packet.kind == packetKind
    {
      assert ValidPacket(Packet(packetKind, if packetKind == EVENT then [0, 0] else [0, 0, 0, 0]));
      var data: seq<Byte> :| ValidPacket(Packet(packetKind, data));
      packet := Packet(packetKind, data);
    }

    // Lines 537-540 and the completion that follows: take both heads.
    method ReadRequestComplete(channel: Channel) returns (matched: Channel)
      ensures matched == Match(channel)
    {
      matched := channel;
      if channel.list != [] && channel.queue != [] {
        var entry, request := channel.list[0], channel.queue[0];
        matched := channel.(list := channel.list[1..], queue := channel.queue[1..], completed := channel.completed + [Completion(request, entry)]);
      }
    }

    // The list for packets of that kind takes no more.
    predicate Full(packetKind: Byte)
      reads this`events, this`acl
    {
      |if packetKind == EVENT then events.list else acl.list| >= MAX_LIST
    }

    // ReadH4PacketComplete: put the packet on its list, then match. `memory`
    // says whether the pool can hold another list entry.
    method Complete(packet: Packet, memory: bool) returns (status: Status)
      requires ValidPacket(packet) && Conserved()
      modifies this`events, this`acl, this`emitted
      ensures Conserved()
      ensures status == (if !memory then InsufficientResources
                         else if old(Full(packet.kind)) then BufferOverflow
                         else Success)
      ensures status == Success ==>
                && emitted == old(emitted) + [packet]
                && events == (if packet.kind == EVENT then Arrive(old(events), packet) else old(events))
                && acl == (if packet.kind == EVENT then old(acl) else Arrive(old(acl), packet))
      ensures status != Success ==> emitted == old(emitted) && events == old(events) && acl == old(acl)
    {
      if !memory {
        return InsufficientResources;
      }
      if Full(packet.kind) {
        return BufferOverflow;
      }
      var channel := if packet.kind == EVENT then events else acl;
      OfAppend(EVENT, emitted, packet);
      OfAppend(ACL, emitted, packet);
      assert Packets(channel.completed) + (channel.list + [packet]) == Packets(channel.completed) + channel.list + [packet];
      channel := channel.(list := channel.list + [packet]);
      MatchConserves(channel);
      channel := ReadRequestComplete(channel);
      if packet.kind == EVENT {
        events := channel;
      } else {
        acl := channel;
      }
      emitted := emitted + [packet];
      status := Success;
    }

    // RtlCopyMemory of `chunk` into the packet under construction.
    method Copy(at: nat, chunk: seq<Byte>)
      requires at + |chunk| <= raw.Length
      modifies raw
      ensures raw[..at + |chunk|] == old(raw[..at]) + chunk
      ensures raw[..at] == old(raw[..at])
    {
      for i := 0 to |chunk|
        invariant raw[..at + i] == old(raw[..at]) + chunk[..i]
      {
        raw[at + i] := chunk[i];
        assert chunk[..i + 1] == chunk[..i] + [chunk[i]];
        assert raw[..at + i + 1] == raw[..at + i] + [raw[at + i]];
      }
      assert raw[..at] == raw[..at + |chunk|][..at];
    }

    // What `consumed` bytes since phase `s` have led to: the packets emitted
    // since then, and the packet prefix now held in `raw`, settled.
    ghost predicate Reached(s: H4Stream.Phase, consumed: seq<Byte>, since: nat, held: Reading)
      reads this`emitted
    {
      since <= |emitted| && FeedAll(s, consumed) == Reading(held.phase, emitted[since..] + held.packets)
    }

    // Lines 150-155: the type byte.
    method ReadType(b: Byte, ghost s: H4Stream.Phase, ghost consumed: seq<Byte>, ghost since: nat) returns (known: bool)
      requires Reached(s, consumed, since, Reading(Idle, []))
      modifies this`segment, this`bytesRead, this`kind
      ensures known <==> Kind(b)
      ensures known ==>
                && segment == HeaderBytes && bytesRead == 0 && kind == b
                && Reached(s, consumed + [b], since, Reading(Partial(kind, []), []))
      ensures !known ==> Reached(s, consumed + [b], since, Reading(Broken, []))
    {
      FeedConcat(s, consumed, [b]);
      assert FeedAll(Feed(Idle, b).phase, []) == Reading(Feed(Idle, b).phase, []);
      assert FeedAll(Idle, [b]) == Feed(Idle, b);
      known := Kind(b);
      if known {
        kind, segment, bytesRead := b, HeaderBytes, 0;
      }
    }

    // Lines 157-166: header bytes. Returns whether the header is complete.
    method ReadHeader(chunk: seq<Byte>, ghost s: H4Stream.Phase, ghost consumed: seq<Byte>, ghost since: nat) returns (complete: bool)
      requires raw.Length == MAX_PACKET && segment == HeaderBytes && Kind(kind)
      requires bytesRead < Header(kind) && |chunk| <= Header(kind) - bytesRead
      requires Reached(s, consumed, since, Reading(Partial(kind, raw[..bytesRead]), []))
      modifies this`segment, this`bytesRead, this`bytesToRead, raw
      ensures complete <==> old(bytesRead) + |chunk| == Header(kind)
      ensures complete ==>
                && segment == PayloadBytes && bytesRead == 0
                && Reached(s, consumed + chunk, since, Settle(kind, raw[..Header(kind)]))
      ensures !complete ==>
                && segment == HeaderBytes && bytesRead == old(bytesRead) + |chunk| && bytesToRead == Header(kind) - bytesRead
                && Reached(s, consumed + chunk, since, Reading(Partial(kind, raw[..bytesRead]), []))
    {
      ghost var data := raw[..bytesRead];
      Copy(bytesRead, chunk);
      Advance(s, consumed, since, kind, data, chunk);
      bytesRead := bytesRead + |chunk|;
      bytesToRead := Header(kind) - bytesRead;
      complete := bytesToRead == 0;
      if complete {
        segment, bytesRead := PayloadBytes, 0;
      }
    }

    lemma Advance(s: H4Stream.Phase, consumed: seq<Byte>, since: nat, kind: Byte, data: seq<Byte>, chunk: seq<Byte>)
      requires Pending(Partial(kind, data))
      requires Reached(s, consumed, since, Reading(Partial(kind, data), []))
      requires |data| < Header(kind) ==> |data| + |chunk| <= Header(kind)
      requires Header(kind) <= |data| ==> |data| + |chunk| <= Header(kind) + Payload(kind, data)
      ensures Reached(s, consumed + chunk, since, Settle(kind, data + chunk))
    {
      if chunk == [] {
        assert consumed + chunk == consumed && data + chunk == data;
      } else {
        FillOpen(kind, data, chunk);
        FeedConcat(s, consumed, chunk);
      }
    }

    // As much of the header as the buffer still holds.
    method FillHeader(buffer: seq<Byte>, at: nat, ghost s: H4Stream.Phase, ghost since: nat) returns (next: nat, complete: bool)
      requires raw.Length == MAX_PACKET && segment == HeaderBytes && Kind(kind) && bytesRead < Header(kind) && at <= |buffer|
      requires Reached(s, buffer[..at], since, Reading(Partial(kind, raw[..bytesRead]), []))
      modifies this`segment, this`bytesRead, this`bytesToRead, raw
      ensures at <= next <= |buffer| && (at < |buffer| ==> at < next)
      ensures complete ==> segment == PayloadBytes && bytesRead == 0 && Reached(s, buffer[..next], since, Settle(kind, raw[..Header(kind)]))
      ensures !complete ==>
                && next == |buffer| && segment == HeaderBytes && bytesRead < Header(kind) && bytesToRead == Header(kind) - bytesRead
                && Reached(s, buffer[..next], since, Reading(Partial(kind, raw[..bytesRead]), []))
    {
      hide FeedAll;
      var count := if |buffer| - at < Header(kind) - bytesRead then |buffer| - at else Header(kind) - bytesRead;
      Extend(buffer, at, at + count);
      complete := ReadHeader(buffer[at..at + count], s, buffer[..at], since);
      next := at + count;
    }

    // Lines 168-176: payload bytes.
    method CopyPayload(chunk: seq<Byte>, ghost s: H4Stream.Phase, ghost consumed: seq<Byte>, ghost since: nat)
      requires raw.Length == MAX_PACKET && Kind(kind)
      requires Payload(kind, raw[..]) <= MaxPayload(kind) && bytesRead + |chunk| <= Payload(kind, raw[..])
      requires Reached(s, consumed, since, Settle(kind, raw[..Header(kind) + bytesRead]))
      modifies this`bytesRead, this`bytesToRead, raw
      ensures Payload(kind, raw[..]) == old(Payload(kind, raw[..]))
      ensures bytesRead == old(bytesRead) + |chunk| && bytesToRead == Payload(kind, raw[..]) - bytesRead
      ensures Reached(s, consumed + chunk, since, Settle(kind, raw[..Header(kind) + bytesRead]))
    {
      hide FeedAll;
      var header := Header(kind);
      var payload := Payload(kind, raw[..]);
      ghost var data := raw[..header + bytesRead];
      assert Payload(kind, data) == payload;
      ghost var before := raw[..];
      Copy(header + bytesRead, chunk);
      assert raw[..header] == data[..header] == before[..header];
      assert Payload(kind, raw[..]) == Payload(kind, raw[..header]);
      if bytesRead < payload {
        Advance(s, consumed, since, kind, data, chunk);
      } else {
        assert chunk == [] && consumed + chunk == consumed && data + chunk == data;
      }
      bytesRead := bytesRead + |chunk|;
      bytesToRead := payload - bytesRead;
    }

    // Lines 168-181: payload bytes, and the packet if they complete it.
    method ReadPayload(chunk: seq<Byte>, memory: bool, ghost s: H4Stream.Phase, ghost consumed: seq<Byte>, ghost since: nat) returns (status: Status)
      requires raw.Length == MAX_PACKET && segment == PayloadBytes && Kind(kind) && Conserved()
      requires Payload(kind, raw[..]) <= MaxPayload(kind) && bytesRead + |chunk| <= Payload(kind, raw[..])
      requires Reached(s, consumed, since, Settle(kind, raw[..Header(kind) + bytesRead]))
      modifies this`segment, this`bytesRead, this`bytesToRead, this`kind, this`events, this`acl, this`emitted, raw
      ensures old(emitted) <= emitted && Conserved()
      ensures status == Success ==> Valid() && Reached(s, consumed + chunk, since, Reading(Phase(), []))
      // A packet is lost only for want of memory or of room on its list.
      ensures status != Success ==>
                && status == (if memory then BufferOverflow else InsufficientResources)
                && exists p :: Reached(s, consumed + chunk, since, Reading(Idle, [p])) && (memory ==> Full(p.kind))
    {
      hide FeedAll, Conserved;
      CopyPayload(chunk, s, consumed, since);
      ghost var data := raw[..Header(kind) + bytesRead];
      assert Payload(kind, data) == Payload(kind, raw[..]);
      status := Success;
      if bytesToRead == 0 {
        status := Deliver(memory, s, consumed + chunk, since);
      }
    }

    // The packet is whole.
    method Deliver(memory: bool, ghost s: H4Stream.Phase, ghost consumed: seq<Byte>, ghost since: nat) returns (status: Status)
      requires raw.Length == MAX_PACKET && Kind(kind) && Conserved() && bytesToRead == 0
      requires Payload(kind, raw[..]) <= MaxPayload(kind)
      requires Reached(s, consumed, since, Settle(kind, raw[..Header(kind) + Payload(kind, raw[..])]))
      modifies this`segment, this`bytesRead, this`kind, this`events, this`acl, this`emitted
      ensures old(emitted) <= emitted && Conserved()
      ensures status == Success ==> Valid() && Reached(s, consumed, since, Reading(Phase(), []))
      ensures status == (if !memory then InsufficientResources else if old(Full(kind)) then BufferOverflow else Success)
      ensures status != Success ==> exists p :: Reached(s, consumed, since, Reading(Idle, [p])) && (memory ==> Full(p.kind))
    {
      hide FeedAll, Conserved;
      var packet := Packet(kind, raw[..Header(kind) + Payload(kind, raw[..])]);
      assert Payload(kind, packet.data) == Payload(kind, raw[..]);
      ghost var before := emitted;
      assert Reached(s, consumed, since, Reading(Idle, [packet]));
      status := Complete(packet, memory);
      segment, bytesRead, kind := Type, 0, 0;
      if status == Success {
        assert emitted[since..] == before[since..] + [packet];
      }
    }

    // ReadH4PacketReassemble. On success the whole buffer was consumed exactly
    // as the byte-at-a-time reader would; every error names its exact cause.
    method Reassemble(buffer: seq<Byte>, memory: nat -> bool) returns (status: Status)
      requires Valid()
      modifies this, raw
      // Even after an error the lists and queues are in order, and the reader can
      // be restarted.
      ensures old(emitted) <= emitted && Conserved() && raw.Length == MAX_PACKET
      ensures status == Success ==>
                Valid() && FeedAll(old(Phase()), buffer) == Reading(Phase(), emitted[|old(emitted)|..])
      ensures status == ProtocolError ==>
                FeedAll(old(Phase()), buffer) == Reading(Broken, emitted[|old(emitted)|..])
      // A whole packet is lost only where memory runs out or its list is full.
      ensures status in {InsufficientResources, BufferOverflow} ==>
                exists n, p :: && 0 < n <= |buffer|
                               && FeedAll(old(Phase()), buffer[..n]) == Reading(Idle, emitted[|old(emitted)|..] + [p])
                               && (status == BufferOverflow ==> Full(p.kind))
      ensures status == InsufficientResources ==> exists k: nat :: k <= |buffer| && !memory(k)
    {
      ghost var s, since := Phase(), |emitted|;
      var at := 0;
      StartReached(s);
      while at < |buffer|
        invariant Valid() && at <= |buffer| && old(emitted) <= emitted
        invariant Reached(s, buffer[..at], since, Reading(Phase(), []))
      {
        hide FeedAll;
        at, status := ReassembleOnce(buffer, at, memory, s, since);
        if status != Success {
          return;
        }
      }
      assert buffer[..at] == buffer;
      status := Success;
    }

    lemma StartReached(s: H4Stream.Phase)
      ensures Reached(s, [], |emitted|, Reading(s, []))
    {
    }

    // One pass of the loop: at most one packet is advanced.
    method ReassembleOnce(buffer: seq<Byte>, at: nat, memory: nat -> bool, ghost s: H4Stream.Phase, ghost since: nat) returns (next: nat, status: Status)
      requires Valid() && at < |buffer| && Reached(s, buffer[..at], since, Reading(Phase(), []))
      modifies this, raw
      ensures old(emitted) <= emitted && Conserved()
      ensures status == Success ==> Valid() && at < next <= |buffer| && Reached(s, buffer[..next], since, Reading(Phase(), []))
      ensures status == ProtocolError ==> Reached(s, buffer, since, Reading(Broken, []))
      ensures status in {InsufficientResources, BufferOverflow} ==>
                && at < next <= |buffer|
                && exists p :: Reached(s, buffer[..next], since, Reading(Idle, [p])) && (status == BufferOverflow ==> Full(p.kind))
      ensures status == InsufficientResources ==> exists k: nat :: k <= |buffer| && !memory(k)
    {
      hide FeedAll;
      var ready;
      next, status, ready := ReachPayload(buffer, at, s, since);
      if ready {
        var payload := Payload(kind, raw[..]);
        var count := if |buffer| - next < payload - bytesRead then |buffer| - next else payload - bytesRead;
        Extend(buffer, next, next + count);
        status := ReadPayload(buffer[next..next + count], memory(next), s, buffer[..next], since);
        next := next + count;
      }
    }

    // Lines 150-171: type and header bytes, up to a payload length in range.
    // `ready` says that payload bytes, if only zero of them, come next.
    method ReachPayload(buffer: seq<Byte>, at: nat, ghost s: H4Stream.Phase, ghost since: nat) returns (next: nat, status: Status, ready: bool)
      requires Valid() && at < |buffer| && Reached(s, buffer[..at], since, Reading(Phase(), []))
      modifies this`segment, this`bytesRead, this`bytesToRead, this`kind, raw
      ensures status == Success || (status == ProtocolError && !ready)
      ensures status == ProtocolError ==> Reached(s, buffer, since, Reading(Broken, []))
      ensures status == Success && !ready ==> Valid() && at < next <= |buffer| && Reached(s, buffer[..next], since, Reading(Phase(), []))
      ensures ready ==>
                && at <= next <= |buffer| && segment == PayloadBytes && Kind(kind)
                && Payload(kind, raw[..]) <= MaxPayload(kind) && bytesRead <= Payload(kind, raw[..])
                && (at == next ==> bytesRead < Payload(kind, raw[..]))
                && Reached(s, buffer[..next], since, Settle(kind, raw[..Header(kind) + bytesRead]))
    {
      hide FeedAll;
      next, status, ready := at, Success, false;
      if segment == Type {
        assert buffer[..at + 1] == buffer[..at] + [buffer[at]];
        var known := ReadType(buffer[at], s, buffer[..at], since);
        next := at + 1;
        if !known {
          Refused(s, buffer, next, since);
          return next, ProtocolError, false;
        }
      }
      if segment == HeaderBytes {
        var complete;
        next, complete := FillHeader(buffer, next, s, since);
        if !complete {
          return;
        }
      } else {
        SettledIsOpen();
      }
      assert Payload(kind, raw[..]) == Payload(kind, raw[..Header(kind)]) == Payload(kind, raw[..Header(kind) + bytesRead]);
      if Payload(kind, raw[..]) > MaxPayload(kind) {
        Refused(s, buffer, next, since);
        return next, ProtocolError, false;
      }
      ready := true;
    }

    lemma SettledIsOpen()
      requires Valid() && segment == PayloadBytes
      ensures Settle(kind, raw[..Header(kind) + bytesRead]) == Reading(Phase(), [])
    {
    }

    lemma Extend(buffer: seq<Byte>, at: nat, next: nat)
      requires at <= next <= |buffer|
      ensures buffer[..at] + buffer[at..next] == buffer[..next]
    {
    }

    lemma Refused(s: H4Stream.Phase, buffer: seq<Byte>, at: nat, since: nat)
      requires at <= |buffer| && Reached(s, buffer[..at], since, Reading(Broken, []))
      ensures Reached(s, buffer, since, Reading(Broken, []))
    {
      FeedConcat(s, buffer[..at], buffer[at..]);
      assert buffer[..at] + buffer[at..] == buffer;
      BrokenStays(buffer[at..]);
    }

    // The size of the next read (lines 306-308). The fallback to the whole
    // buffer is never used: the size is exactly what the packet still needs.
    method SizeNextRead() returns (size: nat)
      requires Valid()
      ensures size == NextRead(Phase())
    {
      if segment == Type {
        return INITIAL_READ;
      }
      if bytesToRead == 0 {
        assert false;
      }
      size := bytesToRead;
    }
  }
}
