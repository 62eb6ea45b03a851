// The incremental FIFO pump of the RP1 I2C controller (rp1-i2c/hardware.c) and
// the worker loop around it. The hardware is adversarial: every pass sees
// arbitrary register values.
module I2cEngine {
  import opened I2cStream
  import opened I2cProgress

  datatype Status = Success | NoSuchDevice | IoDeviceError | DataOverrun | DeviceDataError

  // What one pass of the pump reads: RAW status, abort source, FIFO levels and
  // the successive values of the DATA register.
  datatype Registers = Registers(raw: Word, abortSource: Word, rxLevel: nat, txLevel: nat, rx: nat -> Byte)

  const RAW_ABORT: Word := 0x40
  const RAW_OVERRUN: Word := 0x0a
  const IRQ_ERRORS: Word := 0x4a
  const IRQ_STOP: Word := 0x200
  const IRQ_RX: Word := 4
  const IRQ_TX: Word := 0x10

  // The bytes that the first n reads of DATA deliver.
  function Delivered(rx: nat -> Byte, n: nat): seq<Byte> {
    seq(n, k requires 0 <= k => rx(k))
  }

  predicate Aborted(h: Registers) {
    h.raw & RAW_ABORT != 0
  }

  predicate Overrun(h: Registers) {
    h.raw & RAW_OVERRUN != 0
  }

  // Neither an error nor a STOP.
  predicate Quiet(h: Registers) {
    !Aborted(h) && !Overrun(h) && h.raw & IRQ_STOP == 0
  }

  // What a number of passes find in the RX FIFO.
  function Drained(passes: seq<Registers>, n: nat): seq<Byte>
    requires n <= |passes|
  {
    if n == 0 then [] else Drained(passes, n - 1) + Delivered(passes[n - 1].rx, passes[n - 1].rxLevel)
  }

  lemma DrainedNone(passes: seq<Registers>)
    ensures Drained(passes, 0) == []
  {
  }

  lemma DrainedMore(before: seq<Byte>, passes: seq<Registers>, n: nat)
    requires n < |passes|
    ensures before + Drained(passes, n) + Delivered(passes[n].rx, passes[n].rxLevel) == before + Drained(passes, n + 1)
  {
  }

  class Engine {
    // I2C_ENGINE
    const transfers: array<Transfer>
    const buffer: array<Byte>
    const txDepth: nat
    const rxDepth: nat
    var txIndex: nat
    var rxIndex: nat
    var outstanding: int
    var abortSource: Word
    var stopped: bool
    // The request as begun, the words pushed into the TX FIFO and the bytes
    // popped from the RX FIFO.
    ghost const request: Request
    ghost var sent: seq<Word>
    ghost var got: seq<Byte>

    ghost function Flight(): Flight
      reads this, transfers, buffer
    {
      I2cProgress.Flight(transfers[..], buffer[..], txIndex, rxIndex, outstanding, sent, got)
    }

    // The request's invariant, and never more READ commands outstanding than
    // the RX FIFO can absorb.
    ghost predicate Valid()
      reads this, transfers, buffer
    {
      && (transfers as object) != buffer
      && 0 < txDepth && 0 < rxDepth
      && Inv(request, Flight()) && Canonical(request)
      && outstanding <= rxDepth
    }

    constructor (plan: seq<Transfer>, bytes: array<Byte>, txDepth: nat, rxDepth: nat)
      requires Layout(plan) && Fresh(plan) && Total(plan) <= bytes.Length && 0 < txDepth && 0 < rxDepth
      ensures Valid() && fresh(this) && fresh(transfers) && buffer == bytes
      ensures request == Request(plan, bytes[..], Stream(plan, bytes[..])) && Flight() == Start(request)
      ensures this.txDepth == txDepth && this.rxDepth == rxDepth && !stopped
    {
      StreamFromLength(plan, bytes[..], 0);
      this.transfers := new Transfer[|plan|](i requires 0 <= i < |plan| => plan[i]);
      this.buffer := bytes;
      this.txDepth, this.rxDepth := txDepth, rxDepth;
      this.txIndex, this.rxIndex, this.outstanding := 0, 0, 0;
      this.abortSource, this.stopped := 0, false;
      this.request := Request(plan, bytes[..], Stream(plan, bytes[..]));
      this.sent, this.got := [], [];
      new;
      assert transfers[..] == plan;
      StartInv(request);
    }

    // Lines 44-46: pass over the transfers that need no more bytes. A reader is
    // always found while a byte is outstanding, so the error branch is dead.
    method SeekReader()
      requires Valid() && 0 < outstanding
      modifies this`rxIndex
      ensures Valid() && Flight() == old(Flight()).(rx := rxIndex)
      ensures rxIndex < transfers.Length && transfers[rxIndex].read && transfers[rxIndex].received < transfers[rxIndex].queued
    {
      hide Inv, Canonical;
      ReaderExists(request, Flight());
      while !transfers[rxIndex].read || transfers[rxIndex].received == transfers[rxIndex].length
        invariant Valid() && Flight() == old(Flight()).(rx := rxIndex)
        invariant rxIndex < transfers.Length
        invariant transfers[rxIndex].read ==> transfers[rxIndex].received < transfers[rxIndex].queued || transfers[rxIndex].received == transfers[rxIndex].length
        decreases transfers.Length - rxIndex
      {
        SkipInv(request, Flight());
        rxIndex := rxIndex + 1;
        ReaderExists(request, Flight());
      }
    }

    // Lines 47-49: one byte of the RX FIFO.
    method TakeByte(b: Byte)
      requires Valid() && 0 < outstanding && rxIndex < transfers.Length
      requires transfers[rxIndex].read && transfers[rxIndex].received < transfers[rxIndex].queued
      modifies this`outstanding, this`got, transfers, buffer
      ensures Valid()
      ensures rxIndex < |old(Flight()).ts| && old(Flight()).ts[rxIndex].offset + old(Flight()).ts[rxIndex].received < buffer.Length
      ensures Flight() == Store(old(Flight()), b)
    {
      hide Inv, Canonical;
      var t := transfers[rxIndex];
      StoreInv(request, Flight(), b);
      buffer[t.offset + t.received] := b;
      transfers[rxIndex] := t.(received := t.received + 1);
      outstanding := outstanding - 1;
      got := got + [b];
      assert Flight() == Store(old(Flight()), b);
    }

    // Lines 42-50: drain the RX FIFO.
    method Receive(h: Registers)
      requires Valid() && h.rxLevel <= outstanding
      modifies this`rxIndex, this`outstanding, this`got, transfers, buffer
      ensures Valid() && got == old(got) + Delivered(h.rx, h.rxLevel)
      ensures outstanding == old(outstanding) - h.rxLevel
    {
      for n := 0 to h.rxLevel
        invariant Valid() && got == old(got) + Delivered(h.rx, n)
        invariant outstanding == old(outstanding) - n
      {
        SeekReader();
        var b := h.rx(n);
        TakeByte(b);
        AppendDelivered(old(got), h.rx, n);
      }
    }

    // Lines 63-65: the next command word is the next word of the stream.
    method ComposeWord() returns (command: Word)
      requires Valid() && txIndex < transfers.Length
      ensures Position(request, Flight()) < |request.stream| && command == request.stream[Position(request, Flight())]
    {
      hide Sending, Receiving, Canonical, Described, Layout, Fresh, Total, Position;
      var t := transfers[txIndex];
      NextWord(request, Flight());
      if !t.read {
        WritesSurvive(request, Flight(), txIndex, t.queued);
      }
      command := if t.read then COMMAND_READ else buffer[t.offset + t.queued] as Word;
      if t.queued == 0 && txIndex > 0 {
        command := command | COMMAND_RESTART;
      }
      if txIndex + 1 == transfers.Length && t.queued + 1 == t.length {
        command := command | COMMAND_STOP;
      }
    }

    // Lines 66-69: one command word.
    method PushWord()
      requires Valid() && !Blocked()
      modifies this`txIndex, this`outstanding, this`sent, transfers
      ensures Valid() && |sent| == |old(sent)| + 1 && old(sent) <= sent
      ensures old(txIndex) < |old(Flight()).ts| && Flight() == Queue(old(Flight()), sent[|old(sent)|])
    {
      hide Canonical, Inv, Layout, Fresh, Total;
      var t := transfers[txIndex];
      var command := ComposeWord();
      QueueInv(request, Flight(), command);
      sent := sent + [command];
      if t.read {
        outstanding := outstanding + 1;
      }
      transfers[txIndex] := t.(queued := t.queued + 1);
      if t.queued + 1 == t.length {
        txIndex := txIndex + 1;
      }
      assert Flight() == Queue(old(Flight()), command);
    }

    // Lines 59-70: fill the TX FIFO.
    method Transmit(room: nat)
      requires Valid()
      modifies this`txIndex, this`outstanding, this`sent, transfers
      ensures Valid() && old(sent) <= sent && |sent| <= |old(sent)| + room
      ensures |sent| == |old(sent)| + room || Blocked()
    {
      var available: nat := room;
      while available > 0 && txIndex < transfers.Length && !(transfers[txIndex].read && outstanding == rxDepth)
        invariant Valid() && old(sent) <= sent
        invariant available <= room && |sent| == |old(sent)| + room - available
        decreases available
      {
        PushWord();
        available := available - 1;
      }
    }

    // Nothing can be queued: all sent, or a read waits for RX FIFO room.
    predicate Blocked()
      reads this, transfers
    {
      txIndex >= transfers.Length || (transfers[txIndex].read && outstanding == rxDepth)
    }

    method Pump(h: Registers) returns (status: Status, mask: Word, done: bool)
      requires Valid()
      modifies this, transfers, buffer
      ensures Valid() && old(sent) <= sent
      // The errors the registers report come first and leave the request alone.
      ensures h.raw & RAW_ABORT != 0 ==>
                && Flight() == old(Flight()) && abortSource == h.abortSource && status == (if h.abortSource & 7 != 0 then NoSuchDevice else IoDeviceError)
      ensures h.raw & RAW_ABORT == 0 && h.raw & RAW_OVERRUN != 0 ==> Flight() == old(Flight()) && status == DataOverrun
      ensures h.raw & IRQ_ERRORS != 0 ==> stopped == old(stopped)
      ensures h.raw & IRQ_ERRORS == 0 ==> stopped == (old(stopped) || h.raw & IRQ_STOP != 0)
      ensures h.raw & IRQ_ERRORS == 0 && !(h.rxLevel <= rxDepth && h.rxLevel <= old(outstanding)) ==>
                Flight() == old(Flight()) && status == DeviceDataError
      // Otherwise every waiting byte is taken,
      ensures h.raw & IRQ_ERRORS == 0 && h.rxLevel <= rxDepth && h.rxLevel <= old(outstanding) ==>
                && got == old(got) + Delivered(h.rx, h.rxLevel)
                // a STOP on the bus ends the request, well or badly,
                && (stopped ==>
                      && sent == old(sent)
                      && (done <==> status == Success)
                      && (status == Success <==> txIndex == transfers.Length && outstanding == 0)
                      && (status != Success ==> status == DeviceDataError))
                // and without one the TX FIFO is filled as far as it goes.
                && (!stopped ==>
                      && !done
                      && (h.txLevel > txDepth ==> status == DeviceDataError && sent == old(sent))
                      && (h.txLevel <= txDepth ==>
                            && status == Success
                            && |sent| - |old(sent)| <= txDepth - h.txLevel
                            && (|sent| - |old(sent)| == txDepth - h.txLevel || Blocked())
                            // Errors and a STOP always interrupt, received bytes while any
                            // are expected, and room while there is something to queue.
                            && mask == 0x24a | (if outstanding > 0 then 4 else 0) | (if Blocked() then 0 else 0x10)))
      ensures status != Success || done ==> mask == 0
      ensures done ==> status == Success && stopped && txIndex == transfers.Length && outstanding == 0
    {
      mask, done := 0, false;
      RawBits(h.raw);
      if h.raw & RAW_ABORT != 0 {
        abortSource := h.abortSource;
        return if abortSource & 7 != 0 then NoSuchDevice else IoDeviceError, mask, done;
      }
      if h.raw & RAW_OVERRUN != 0 {
        return DataOverrun, mask, done;
      }
      if h.raw & IRQ_STOP != 0 {
        stopped := true;
      }
      if h.rxLevel > rxDepth || h.rxLevel > outstanding {
        return DeviceDataError, mask, done;
      }
      Receive(h);
      if stopped {
        if txIndex != transfers.Length || outstanding != 0 {
          return DeviceDataError, mask, done;
        }
        done := true;
        return Success, mask, done;
      }
      if h.txLevel > txDepth {
        return DeviceDataError, mask, done;
      }
      Transmit(txDepth - h.txLevel);
      mask := IRQ_ERRORS | IRQ_STOP;
      if outstanding > 0 {
        mask := mask | IRQ_RX;
      }
      if txIndex < transfers.Length && (!transfers[txIndex].read || outstanding < rxDepth) {
        mask := mask | IRQ_TX;
      }
      status := Success;
    }

    // A pass, as the worker sees it.
    method Pass(h: Registers) returns (status: Status, done: bool)
      requires Valid()
      modifies this, transfers, buffer
      ensures Valid() && old(sent) <= sent
      ensures got == (if status == Success then old(got) + Delivered(h.rx, h.rxLevel) else got) && old(got) <= got
      ensures status == Success && !done ==> Quiet(h) && !stopped
      ensures status == NoSuchDevice || status == IoDeviceError ==> Aborted(h) && abortSource == h.abortSource
      ensures status == DataOverrun ==> Overrun(h)
      ensures done ==> status == Success && txIndex == transfers.Length && outstanding == 0
    {
      hide Inv, Canonical;
      RawBits(h.raw);
      var mask;
      status, mask, done := Pump(h);
    }

    // I2cWorker's loop: pump until an error, completion, or (the passes run
    // out) cancellation, power-down or the deadline.
    method Work(passes: seq<Registers>) returns (status: Status, done: bool, ghost used: nat)
      requires Valid()
      modifies this, transfers, buffer
      ensures Valid() && old(sent) <= sent
      // No pass is skipped, and only completion or an error ends the loop early.
      ensures used <= |passes| && (done ==> 0 < used) && (status == Success && !done ==> used == |passes|)
      ensures status == Success ==> got == old(got) + Drained(passes, used)
      ensures status == Success && !done ==> forall k :: 0 <= k < used ==> Quiet(passes[k])
      ensures status != Success ==> !done && 0 < used && forall k :: 0 <= k < used - 1 ==> Quiet(passes[k])
      ensures status == NoSuchDevice || status == IoDeviceError ==> Aborted(passes[used - 1]) && abortSource == passes[used - 1].abortSource
      ensures status == DataOverrun ==> Overrun(passes[used - 1])
      // A completed request put exactly its canonical stream on the bus and
      // holds every byte the device sent, each at its read position.
      ensures done ==>
                && status == Success
                && sent == Stream(request.plan, request.payload)
                && |got| == ReadBase(request.plan, |request.plan|)
                && forall j :: 0 <= j < |got| ==> Landed(j)
    {
      hide Inv, Canonical, Landed, Quiet, Aborted, Overrun, Stream, ReadBase, Drained, Delivered;
      done, status, used := false, Success, 0;
      DrainedNone(passes);
      ghost var start := got;
      assert start + [] == start;
      for n := 0 to |passes|
        invariant Valid() && old(sent) <= sent
        invariant !done && status == Success && used == n
        invariant got == start + Drained(passes, n)
        invariant forall k :: 0 <= k < n ==> Quiet(passes[k])
      {
        used := n + 1;
        DrainedMore(start, passes, n);
        status, done := Pass(passes[n]);
        if status != Success || done {
          break;
        }
      }
      if done {
        Finished();
      }
    }

    lemma Finished()
      requires Valid() && txIndex == transfers.Length && outstanding == 0
      ensures sent == Stream(request.plan, request.payload) && |got| == ReadBase(request.plan, |request.plan|)
      ensures forall j :: 0 <= j < |got| ==> Landed(j)
    {
      hide Inv, Canonical, Landed;
      AllSent();
      forall j | 0 <= j < |got|
        ensures Landed(j)
      {
        Lands(j);
      }
    }

    lemma AllSent()
      requires Valid() && txIndex == transfers.Length && outstanding == 0
      ensures sent == Stream(request.plan, request.payload) && |got| == ReadBase(request.plan, |request.plan|)
    {
      FinishedMeans(request, Flight());
    }

    lemma Lands(j: nat)
      requires Valid() && j < |got|
      ensures Landed(j)
    {
      BytesLand(request, Flight(), j);
    }

    ghost predicate Landed(j: nat)
      reads this`got, buffer
    {
      var positions := ReadPositions(request.plan, |request.plan|);
      && j < |got| && j < |positions| && positions[j] < buffer.Length
      && buffer[positions[j]] == got[j]
    }
  }

  lemma AppendDelivered(before: seq<Byte>, rx: nat -> Byte, n: nat)
    ensures before + Delivered(rx, n) + [rx(n)] == before + Delivered(rx, n + 1)
  {
  }

  lemma RawBits(raw: Word)
    ensures raw & IRQ_ERRORS == 0 <==> raw & RAW_ABORT == 0 && raw & RAW_OVERRUN == 0
  {
  }
}
