// The firmware mailbox (pi5-mailbox/mailbox.c, pi5-mailbox/driver.c): one DMA
// buffer that belongs to the firmware from the sending of its address until the
// matching reply. The firmware may write it at any time in between, and may
// answer wrongly or never.
module Mailbox {
  const WORDS: nat := 64
  const REQUEST_OK: nat := 0x80000000
  const REQUEST_FAILED: nat := 0x80000001

  datatype Result = Ok | Invalid | Timeout | ForeignReply | Malformed | FirmwareError | Faulted

  // What has happened to the buffer and the channel: the CPU wrote or freed the
  // buffer, sent its address with these contents, read a reply, gave up.
  datatype Event = Poke | Free | Send(message: nat, contents: seq<nat>) | Reply(message: nat) | Fault

  // What the other side of the channel will do: is it quiet before a transfer, does
  // room appear in time, and what is read in answer, if anything is.
  datatype Channel = Channel(idle: bool, room: bool, answer: Answer)
  datatype Answer = Silence | Says(reply: nat)

  // The message that the firmware still holds.
  datatype Held = Nothing | Holds(message: nat)

  function Outstanding(log: seq<Event>): Held {
    if log == [] then Nothing
    else
      var e, before := log[|log| - 1], Outstanding(log[..|log| - 1]);
      if e.Send? then Holds(e.message)
      else if e.Reply? && before == Holds(e.message) then Nothing
      else before
  }

  predicate Down(log: seq<Event>) {
    log != [] && (log[|log| - 1] == Fault || Down(log[..|log| - 1]))
  }

  // Every word offered to the firmware is the address of the buffer with the
  // number of the property channel in its low bits.
  ghost predicate Addressed(log: seq<Event>, address: nat) {
    forall k :: 0 <= k < |log| && log[k].Send? ==> log[k].message % 16 == 8 && log[k].message - 8 == address
  }

  // After some stores by the CPU, the deeds.
  ghost predicate Did(before: seq<Event>, after: seq<Event>, deeds: seq<Event>) {
    && before <= after
    && |before| + |deeds| <= |after|
    && after[|after| - |deeds|..] == deeds
    && (forall k :: |before| <= k < |after| - |deeds| ==> after[k] == Poke)
  }

  lemma DidMore(before: seq<Event>, after: seq<Event>, deeds: seq<Event>, e: Event)
    requires Did(before, after, deeds)
    ensures Did(before, after + [e], deeds + [e])
  {
    var longer := after + [e];
    assert longer[|longer| - |deeds + [e]|..] == deeds + [e];
  }

  lemma DidMuch(before: seq<Event>, after: seq<Event>, deeds: seq<Event>)
    requires Did(before, after, deeds)
    ensures |before| + |deeds| <= |after|
  {
  }

  lemma DidExchange(before: seq<Event>, staged: seq<Event>, send: Event, answer: Event)
    requires Did(before, staged, [])
    ensures before <= staged
    ensures Did(before, staged + [send] + [answer], [send, answer])
    ensures Did(before, staged + [send] + [answer] + [Event.Fault], [send, answer, Event.Fault])
  {
    DidMore(before, staged, [], send);
    DidMore(before, staged + [send], [send], answer);
    DidMore(before, staged + [send] + [answer], [send, answer], Event.Fault);
    assert [] + [send] == [send] && [send] + [answer] == [send, answer];
    assert [send, answer] + [Event.Fault] == [send, answer, Event.Fault];
  }

  // The CPU touches the buffer, and sends, only while the firmware holds no
  // message, so at most one is ever outstanding; after a fault nothing is sent.
  predicate Disciplined(log: seq<Event>) {
    log == [] ||
    var e, before := log[|log| - 1], log[..|log| - 1];
    && Disciplined(before)
    && (e.Poke? || e.Free? || e.Send? ==> Outstanding(before) == Nothing)
    && (e.Send? ==> !Down(before))
  }

  lemma Append(log: seq<Event>, e: Event)
    ensures Outstanding(log + [e]) == (if e.Send? then Holds(e.message) else if e.Reply? && Outstanding(log) == Holds(e.message) then Nothing else Outstanding(log))
    ensures Down(log + [e]) <==> Down(log) || e == Fault
    ensures Disciplined(log + [e]) <==>
              && Disciplined(log)
              && (e.Poke? || e.Free? || e.Send? ==> Outstanding(log) == Nothing)
              && (e.Send? ==> !Down(log))
    ensures forall address: nat :: Addressed(log, address) && (e.Send? ==> address % 16 == 0 && e.message == address + 8) ==> Addressed(log + [e], address)
  {
    assert (log + [e])[..|log|] == log;
  }

  lemma {:induction false} DisciplinedAt(log: seq<Event>, i: nat)
    requires Disciplined(log) && i < |log|
    ensures Disciplined(log[..i])
    ensures log[i].Poke? || log[i].Free? || log[i].Send? ==> Outstanding(log[..i]) == Nothing
    ensures log[i].Send? ==> !Down(log[..i])
    decreases |log|
  {
    var n := |log| - 1;
    if i < n {
      DisciplinedAt(log[..n], i);
      assert log[..n][..i] == log[..i];
    }
  }

  lemma {:induction false} DownAt(log: seq<Event>, i: nat)
    requires i < |log| && log[i] == Fault
    ensures Down(log)
  {
    if i < |log| - 1 {
      DownAt(log[..|log| - 1], i);
    }
  }

  // ----- messages -----

  // A property request: total size, code, tag, length, zero, the data, end tag.
  function Request(tag: nat, data: seq<nat>): (r: seq<nat>)
    requires |data| <= WORDS - 6
    ensures |r| == WORDS
  {
    [4 * |data| + 24, 0, tag, 4 * |data|, 0] + data + Zeros(WORDS - 5 - |data|)
  }

  function Zeros(n: nat): (r: seq<nat>)
    ensures |r| == n
  {
    seq(n, _ => 0)
  }

  function Payload(contents: seq<nat>, n: nat): seq<nat>
    requires 5 + n <= |contents|
  {
    contents[5..5 + n]
  }

  lemma RequestCarriesData(tag: nat, data: seq<nat>)
    requires |data| <= WORDS - 6
    ensures var r := Request(tag, data); Payload(r, |data|) == data && r[r[0] / 4 - 1] == 0 && r[2] == tag && r[3] / 4 == |data|
  {
  }

  // The lengths a reply may report: the full payload, or the exact exceptions.
  predicate LengthFits(tag: nat, bytes: nat, length: nat) {
    || length == REQUEST_OK + bytes
    || ((tag == 0x30087 || tag == 0x38087) && bytes == 8 && length == 0x80000004)
    || (tag == 0x38002 && bytes == 12 && length == 0x80000008)
    || (((tag == 0x48017 && bytes == 36) || (tag == 0x48013 && bytes == 4)) && length == 0)
  }

  predicate Echoes(contents: seq<nat>, tag: nat, n: nat)
    requires |contents| == WORDS && n <= WORDS - 6
  {
    contents[0] == 4 * n + 24 && contents[2] == tag && contents[3] == 4 * n && contents[n + 5] == 0
  }

  // How the contents of a returned buffer are judged.
  function Verdict(contents: seq<nat>, tag: nat, n: nat): (r: Result)
    requires |contents| == WORDS && n <= WORDS - 6
    ensures r == Ok || r == FirmwareError || r == Malformed
  {
    if !Echoes(contents, tag, n) then Malformed
    else if contents[1] == REQUEST_FAILED then FirmwareError
    else if contents[1] != REQUEST_OK || !LengthFits(tag, 4 * n, contents[4]) then Malformed
    else Ok
  }

  // A reply is taken exactly when it is the request for its own payload again, but
  // for the code that says success and the length that the firmware reports.
  lemma VerdictIsEcho(contents: seq<nat>, tag: nat, n: nat)
    requires |contents| == WORDS && 0 < n <= WORDS - 6
    ensures Verdict(contents, tag, n) == Ok <==>
              && LengthFits(tag, 4 * n, contents[4])
              && contents[..n + 6] == Request(tag, Payload(contents, n))[1 := 0x80000000][4 := contents[4]][..n + 6]
    ensures Verdict(contents, tag, n) == FirmwareError <==>
              var q := Request(tag, Payload(contents, n));
              contents[..n + 6] == q[1 := 0x80000001][4 := contents[4]][..n + 6]
  {
    EchoAt(contents, tag, n, REQUEST_OK);
    EchoAt(contents, tag, n, REQUEST_FAILED);
  }

  lemma EchoAt(contents: seq<nat>, tag: nat, n: nat, code: nat)
    requires |contents| == WORDS && 0 < n <= WORDS - 6
    ensures Echoes(contents, tag, n) && contents[1] == code <==>
              contents[..n + 6] == Request(tag, Payload(contents, n))[1 := code][4 := contents[4]][..n + 6]
  {
    var r := Request(tag, Payload(contents, n))[1 := code][4 := contents[4]];
    assert r[5..5 + n] == contents[5..5 + n] && r[n + 5] == 0;
    if Echoes(contents, tag, n) && contents[1] == code {
      assert r[..n + 6] == r[..5] + r[5..5 + n] + [r[n + 5]];
      assert contents[..n + 6] == contents[..5] + contents[5..5 + n] + [contents[n + 5]];
      assert r[..5] == contents[..5];
    }
    if contents[..n + 6] == r[..n + 6] {
      assert forall k :: 0 <= k < n + 6 ==> contents[..n + 6][k] == contents[k] && r[..n + 6][k] == r[k];
    }
  }

  // MbxReplyIdMatches.
  predicate IdMatches(tag: nat, requested: nat, returned: nat) {
    || returned == requested
    || (tag == 0x40017 && (requested == 2 || requested == 7) && returned % 256 == requested)
    || (tag == 0x30047 && 1 <= requested <= 16 && returned == 0)
  }

  predicate AddressFits(address: nat) {
    address % 16 == 0 && 0xc0000000 <= address <= 0xffffffff - 255
  }

  // MbxEncodeAddress.
  function EncodeAddress(logical: nat, physical: nat, bytes: nat): (r: Held)
    // What is accepted is the bus alias of a physical range below 1 GiB, in words
    // that leave the channel bits of a message free.
    ensures r.Holds? ==> r.message == physical + 0xc0000000 && r.message % 16 == 0 && 0xc0000000 <= r.message && r.message + bytes <= 0x1_0000_0000
    ensures r.Nothing? <==> bytes == 0 || physical + bytes > 0x40000000 || physical % 16 != 0 || (logical != physical && logical != physical + 0xc0000000)
  {
    if bytes == 0 || bytes > 0x40000000 || logical % 16 != 0 || physical % 16 != 0 || physical > 0x40000000 - bytes then Nothing
    else if logical == physical + 0xc0000000 then Holds(logical)
    else if logical == physical then Holds(logical + 0xc0000000)
    else Nothing
  }

  // ----- the transport -----

  class Transport {
    const buffer: array<nat>
    const address: nat
    var present: bool
    var fault: bool
    var unsafe: bool
    var transactions: nat
    var failures: nat
    var timeouts: nat
    var foreignReplies: nat
    var lastReply: nat
    ghost var log: seq<Event>

    ghost predicate Sane()
      reads this
    {
      && buffer.Length == WORDS && Disciplined(log) && Addressed(log, address)
      && (unsafe <==> Outstanding(log) != Nothing)
      && (fault <==> Down(log))
    }

    // Between calls an uncertain buffer has faulted the transport, for good.
    ghost predicate Valid()
      reads this
    {
      Sane() && (unsafe ==> fault)
    }

    constructor (busAddress: nat)
      ensures Valid() && !fault && !unsafe && present && address == busAddress && fresh(buffer) && log == []
    {
      buffer := new nat[WORDS](_ => 0);
      address := busAddress;
      present, fault, unsafe := true, false, false;
      transactions, failures, timeouts, foreignReplies, lastReply := 0, 0, 0, 0, 0;
      log := [];
    }

    method Fail(result: Result, fatal: bool) returns (r: Result)
      requires Sane()
      modifies this`fault, this`failures, this`timeouts, this`foreignReplies, this`log
      ensures Sane() && r == result && fault == (old(fault) || fatal)
      ensures log == (if fatal then old(log) + [Event.Fault] else old(log))
      ensures failures == old(failures) + 1
      ensures timeouts == old(timeouts) + (if result == Timeout then 1 else 0)
      ensures foreignReplies == old(foreignReplies) + (if result == ForeignReply then 1 else 0)
    {
      hide Outstanding, Down, Disciplined, Addressed;
      failures := failures + 1;
      if fatal {
        Append(log, Event.Fault);
        fault := true;
        log := log + [Event.Fault];
      }
      if result == Timeout {
        timeouts := timeouts + 1;
      }
      if result == ForeignReply {
        foreignReplies := foreignReplies + 1;
      }
      r := result;
    }

    // One word written by the CPU.
    method Poke(i: nat, word: nat)
      requires Sane() && !unsafe && i < WORDS
      modifies buffer, this`log
      ensures Sane() && buffer[..] == old(buffer[..])[i := word] && log == old(log) + [Event.Poke]
    {
      hide Outstanding, Down, Disciplined, Addressed;
      Append(log, Event.Poke);
      ghost var before := buffer[..];
      buffer[i] := word;
      assert buffer[..] == before[i := word];
      log := log + [Event.Poke];
    }

    method WriteRequest(tag: nat, data: seq<nat>)
      requires Sane() && !unsafe && |data| <= WORDS - 6
      modifies buffer, this`log
      ensures Sane() && buffer[..] == Request(tag, data) && Did(old(log), log, [])
    {
      hide Outstanding, Down, Disciplined, Addressed;
      for i := 0 to WORDS
        invariant Sane() && Did(old(log), log, [])
        invariant forall k :: 0 <= k < i ==> buffer[k] == 0
      {
        ghost var before := buffer[..];
        Poke(i, 0);
        assert forall k :: 0 <= k < i ==> buffer[..][k] == before[k];
      }
      assert buffer[..] == Zeros(WORDS);
      Poke(0, 4 * |data| + 24);
      Poke(2, tag);
      Poke(3, 4 * |data|);
      ghost var head := Zeros(WORDS)[0 := 4 * |data| + 24][2 := tag][3 := 4 * |data|];
      for i := 0 to |data|
        invariant Sane() && Did(old(log), log, [])
        invariant buffer[..] == head[..5] + data[..i] + head[5 + i..]
      {
        Poke(5 + i, data[i]);
        assert buffer[..] == head[..5] + data[..i + 1] + head[5 + i + 1..];
      }
      assert data[..|data|] == data && head[..5] == [4 * |data| + 24, 0, tag, 4 * |data|, 0];
      assert head[5 + |data|..] == Zeros(WORDS - 5 - |data|);
      assert buffer[..] == Request(tag, data);
    }

    // The firmware, which owns the buffer, leaves anything at all in it.
    method Firmware()
      requires buffer.Length == WORDS && unsafe
      modifies buffer
    {
      for i := 0 to WORDS {
        var word: nat :| true;
        buffer[i] := word;
      }
    }

    // MbxTransfer. The caller's data is replaced only on success, by the payload
    // of a reply that echoes the request; exactly the request is sent, once, under
    // the address of the buffer, and the reply that brings that word back is awaited.
    method Transfer(tag: nat, data: seq<nat>, io: Channel) returns (result: Result, out: seq<nat>)
      requires Valid()
      modifies this`fault, this`unsafe, this`transactions, this`failures, this`timeouts, this`foreignReplies, this`lastReply, this`log, buffer
      ensures Valid() && old(log) <= log
      ensures result == Invalid <==> !old(present) || tag == 0 || data == [] || |data| > WORDS - 6 || address % 16 != 0 || address < 0xc0000000 || address + 4 * WORDS > 0x1_0000_0000
      ensures result == Faulted <==> result != Invalid && old(fault)
      ensures result == Invalid || result == Faulted ==> log == old(log) && fault == old(fault) && buffer[..] == old(buffer[..])
      ensures fault <==> old(fault) || result in {Timeout, ForeignReply, Malformed}
      ensures result != Invalid ==> |data| <= WORDS - 6
      // Which failure it is, is for the channel to say.
      ensures result == Invalid || result == Faulted || (result == ForeignReply && !unsafe <==> !io.idle)
      ensures result == Invalid || result == Faulted || (result == Timeout && !unsafe <==> io.idle && !io.room)
      ensures result == Invalid || result == Faulted || (result == Timeout && unsafe <==> io.idle && io.room && io.answer == Silence)
      ensures result == Invalid || result == Faulted || (result == ForeignReply && unsafe <==> io.idle && io.room && io.answer.Says? && io.answer.reply != address + 8)
      ensures result == ForeignReply && unsafe ==> lastReply == io.answer.reply
      ensures result == Ok || result == FirmwareError ==>
                !unsafe && Did(old(log), log, [Send(address + 8, Request(tag, data)), Reply(address + 8)])
      ensures result == Malformed ==>
                !unsafe && Did(old(log), log, [Send(address + 8, Request(tag, data)), Reply(address + 8), Event.Fault])
      ensures result == Timeout ==>
                if unsafe then Did(old(log), log, [Send(address + 8, Request(tag, data)), Event.Fault])
                else log == old(log) + [Event.Fault]
      ensures result == ForeignReply ==>
                if unsafe then lastReply != address + 8 && Did(old(log), log, [Send(address + 8, Request(tag, data)), Reply(lastReply), Event.Fault])
                else log == old(log) + [Event.Fault]
      ensures result in {Ok, FirmwareError, Malformed} ==> result == Verdict(buffer[..], tag, |data|)
      ensures out == if result == Ok then Payload(buffer[..], |data|) else data
    {
      hide Outstanding, Down, Disciplined, Request, Verdict, Addressed, Did;
      out := data;
      if !present || tag == 0 || data == [] || |data| > WORDS - 6 || !AddressFits(address) {
        return Invalid, out;
      }
      if fault || unsafe {
        return Faulted, out;
      }
      if !io.idle {
        result := Fail(ForeignReply, true);
        return;
      }
      if !io.room {
        result := Fail(Timeout, true);
        return;
      }
      WriteRequest(tag, data);
      ghost var staged := log;
      result := Exchange(address + 8, io.answer);
      DidExchange(old(log), staged, Send(address + 8, Request(tag, data)), if result == Timeout then Event.Fault else Reply(lastReply));
      if result != Ok {
        return;
      }
      result := Verdict(buffer[..], tag, |data|);
      if result == Ok {
        out := buffer[5..5 + |data|];
      } else {
        result := Fail(result, result == Malformed);
      }
    }

    // Send the buffer's address and wait for the reply that brings it back.
    method Exchange(message: nat, answer: Answer) returns (result: Result)
      requires Sane() && !unsafe && !fault && address % 16 == 0 && message == address + 8
      modifies this`fault, this`unsafe, this`transactions, this`failures, this`timeouts, this`foreignReplies, this`lastReply, this`log, buffer
      ensures Sane() && (fault <==> result != Ok) && (unsafe <==> result != Ok)
      ensures transactions == old(transactions) + 1
      ensures result == match answer
                        case Silence => Timeout
                        case Says(reply) => if reply == message then Ok else ForeignReply
      ensures answer.Says? ==> lastReply == answer.reply
      ensures result == Ok ==> lastReply == message && log == old(log) + [Send(message, old(buffer[..]))] + [Reply(message)]
      ensures result == Timeout ==> log == old(log) + [Send(message, old(buffer[..]))] + [Event.Fault]
      ensures result == ForeignReply ==>
                lastReply != message && log == old(log) + [Send(message, old(buffer[..]))] + [Reply(lastReply)] + [Event.Fault]
    {
      hide Outstanding, Down, Disciplined, Addressed;
      Append(log, Send(message, buffer[..]));
      unsafe := true;
      transactions := transactions + 1;
      log := log + [Send(message, buffer[..])];
      Firmware();
      if answer.Silence? {
        result := Fail(Timeout, true);
        return;
      }
      var reply := answer.reply;
      Append(log, Reply(reply));
      log := log + [Reply(reply)];
      lastReply := reply;
      if reply != message {
        result := Fail(ForeignReply, true);
        return;
      }
      unsafe := false;
      result := Ok;
    }

    // Transfer in driver.c: a reply about something else faults the transport too.
    // What the caller gets is the payload of the reply, whole.
    method TransferChecked(tag: nat, data: seq<nat>, online: bool, io: Channel) returns (ok: bool, out: seq<nat>)
      requires Valid() && data != []
      modifies this`fault, this`unsafe, this`transactions, this`failures, this`timeouts, this`foreignReplies, this`lastReply, this`log, buffer
      ensures Valid() && old(log) <= log
      ensures old(fault) || !online ==> !ok && log == old(log)
      ensures ok ==> !fault && |data| <= WORDS - 6 && out == Payload(buffer[..], |data|)
      ensures ok ==> Did(old(log), log, [Send(address + 8, Request(tag, data)), Reply(address + 8)])
      ensures ok ==> Verdict(buffer[..], tag, |data|) == Ok && (|data| >= 2 ==> IdMatches(tag, data[0], out[0]))
      // Other selectors than the one asked for are taken only for two tags.
      ensures ok && |data| >= 2 && out[0] != data[0] ==>
                (tag == 0x40017 && data[0] in {2, 7} && out[0] % 256 == data[0]) || (tag == 0x30047 && data[0] <= 16 && out[0] == 0)
      ensures online && !old(fault) && old(present) && tag != 0 && |data| <= WORDS - 6 && AddressFits(address) && io == Channel(true, true, Says(address + 8)) ==>
                !unsafe && |log| > |old(log)| + 1
      // A buffer that came back is refused only for what it holds.
      ensures !ok && !unsafe && |log| > |old(log)| + 1 ==>
                |data| <= WORDS - 6 && (Verdict(buffer[..], tag, |data|) != Ok || (|data| >= 2 && !IdMatches(tag, data[0], buffer[5])))
      ensures !ok && log != old(log) && !fault ==>
                |data| <= WORDS - 6 && Verdict(buffer[..], tag, |data|) == FirmwareError && out == data
    {
      hide Outstanding, Down, Disciplined, Addressed, Did, Verdict;
      out := data;
      if !online {
        return false, out;
      }
      var result;
      result, out := Transfer(tag, data, io);
      ok := result == Ok;
      if result == Malformed {
        DidMuch(old(log), log, [Send(address + 8, Request(tag, data)), Reply(address + 8), Event.Fault]);
      } else if result == Ok || result == FirmwareError {
        DidMuch(old(log), log, [Send(address + 8, Request(tag, data)), Reply(address + 8)]);
      }
      if ok && |data| >= 2 && !IdMatches(tag, data[0], out[0]) {
        Append(log, Event.Fault);
        fault, failures, ok := true, failures + 1, false;
        log := log + [Event.Fault];
      }
    }

    // Release: the buffer is given back unless its return is uncertain; either
    // way nothing is sent any more.
    method Release()
      requires Valid()
      modifies this`present, this`log
      ensures Valid() && !present
      ensures log == if old(present) && !unsafe then old(log) + [Free] else old(log)
    {
      hide Outstanding, Down, Disciplined;
      if present && !unsafe {
        Append(log, Free);
        log := log + [Free];
      }
      present := false;
    }
  }

  // ----- what a disciplined log is worth -----

  // Between a send and the matching reply the CPU neither writes nor frees the
  // buffer, nor sends again.
  lemma {:induction false} HandsOff(log: seq<Event>, i: nat, j: nat)
    requires Disciplined(log) && i < j <= |log| && log[i].Send?
    requires forall k :: i < k < j ==> log[k] != Reply(log[i].message)
    ensures Outstanding(log[..j]) == Holds(log[i].message)
    ensures forall k :: i < k < j ==> !log[k].Poke? && !log[k].Free? && !log[k].Send?
    decreases j
  {
    assert log[..j][..j - 1] == log[..j - 1];
    if i + 1 < j {
      HandsOff(log, i, j - 1);
      DisciplinedAt(log, j - 1);
    }
  }

  // A fault is final: nothing is sent after it.
  lemma FaultIsFinal(log: seq<Event>, i: nat, j: nat)
    requires Disciplined(log) && i < j < |log| && log[i] == Fault
    ensures !log[j].Send?
  {
    DisciplinedAt(log, j);
    DownAt(log[..j], i);
  }
}
