// Receiving in the BCM7271 UART driver (bcm2712-uart/hardware.c,
// bcm2712-uart/driver.c): the ring between the interrupt service routine and the
// reader, its water marks, and the ready notification that may be cancelled.
module Uart {
  const RING: nat := 16384
  const HIGH_WATER: nat := RING - 64
  const LOW_WATER: nat := RING / 2

  function At(k: nat): (i: nat)
    ensures i < RING
  {
    k % RING
  }

  lemma Next(k: nat)
    ensures At(k + 1) == (At(k) + 1) % RING
  {
  }

  lemma Apart()
    ensures forall a: nat, b: nat {:trigger At(a), At(b)} :: a < b < a + RING ==> At(a) != At(b)
  {
  }

  // The ring holds what was captured and not yet delivered, in order.
  ghost predicate Holds(ring: seq<nat>, captured: seq<nat>, delivered: seq<nat>) {
    && |ring| == RING && delivered <= captured && |captured| - |delivered| <= HIGH_WATER
    && forall k :: |delivered| <= k < |captured| ==> ring[At(k)] == captured[k]
  }

  lemma Put(ring: seq<nat>, captured: seq<nat>, delivered: seq<nat>, byte: nat)
    requires Holds(ring, captured, delivered) && |captured| - |delivered| < HIGH_WATER
    ensures Holds(ring[At(|captured|) := byte], captured + [byte], delivered)
  {
    hide At;
    Apart();
  }

  lemma Take(ring: seq<nat>, captured: seq<nat>, delivered: seq<nat>)
    requires Holds(ring, captured, delivered) && |delivered| < |captured|
    ensures ring[At(|delivered|)] == captured[|delivered|]
    ensures Holds(ring, captured, delivered + [ring[At(|delivered|)]])
  {
  }

  // Since an earlier moment a whole batch was captured, or up to the high-water
  // mark, or all that had come in by then.
  ghost predicate Caught(captured: seq<nat>, arrived: seq<nat>, delivered: seq<nat>, now: seq<nat>) {
    |now| >= |captured| + 64 || |now| - |delivered| >= HIGH_WATER || arrived <= now
  }

  // The causes of an interrupt: received bytes, and those that end nothing.
  predicate Receiving(cause: nat) {
    cause == 4 || cause == 6
  }

  predicate Plain(cause: nat) {
    Receiving(cause) || cause == 2 || cause == 0
  }

  function Served(pending: seq<nat>): (n: nat)
    ensures n <= |pending|
  {
    if |pending| < 8 then |pending| else 8
  }

  ghost predicate AllPlain(pending: seq<nat>, n: nat)
    requires n <= |pending|
  {
    forall k :: 0 <= k < n ==> Plain(pending[k])
  }

  // ----- the notification -----

  // Arming, the decision to call Ready, a cancellation that says it was in time,
  // and a reset that forgets the notification.
  datatype Event = Armed | Ready | Cancelled | Forgotten

  datatype Phase = Off | On | Wrong

  function Step(p: Phase, e: Event): Phase {
    match e
    case Armed => if p == Wrong then Wrong else On
    case Ready => if p == On then Off else Wrong
    case Cancelled => if p == On then Off else Wrong
    case Forgotten => if p == Wrong then Wrong else Off
  }

  function PhaseOf(log: seq<Event>): Phase {
    if log == [] then Off else Step(PhaseOf(log[..|log| - 1]), log[|log| - 1])
  }

  lemma PhaseSnoc(log: seq<Event>, e: Event)
    ensures PhaseOf(log + [e]) == Step(PhaseOf(log), e)
  {
    assert (log + [e])[..|log|] == log;
  }

  predicate Answer(e: Event) {
    e == Ready || e == Cancelled
  }

  lemma {:induction false} PrefixRight(log: seq<Event>, n: nat)
    requires PhaseOf(log) != Wrong && n <= |log|
    ensures PhaseOf(log[..n]) != Wrong
    decreases |log|
  {
    if n < |log| {
      PrefixRight(log[..|log| - 1], n);
      assert log[..|log| - 1][..n] == log[..n];
    } else {
      assert log[..n] == log;
    }
  }

  lemma {:induction false} StaysOff(log: seq<Event>, i: nat, j: nat)
    requires i < j <= |log| && Answer(log[i]) && PhaseOf(log[..i + 1]) != Wrong
    requires forall k :: i < k < j ==> log[k] != Armed
    requires PhaseOf(log[..j]) != Wrong
    ensures PhaseOf(log[..j]) == Off
    decreases j
  {
    assert log[..j][..j - 1] == log[..j - 1];
    if i + 1 < j {
      StaysOff(log, i, j - 1);
    }
  }

  // One armed notification gets one answer at most: between any two, be it a
  // Ready callback or a cancellation that returned TRUE, it was armed again.
  lemma OneAnswer(log: seq<Event>, i: nat, j: nat)
    requires PhaseOf(log) != Wrong && i < j < |log| && Answer(log[i]) && Answer(log[j])
    ensures exists k :: i < k < j && log[k] == Armed
  {
    PrefixRight(log, i + 1);
    PrefixRight(log, j);
    PrefixRight(log, j + 1);
    assert log[..j + 1][..j] == log[..j];
    if forall k :: i < k < j ==> log[k] != Armed {
      StaysOff(log, i, j);
    }
  }

  // ----- the controller -----

  class Controller {
    const ring: array<nat>
    var head: nat
    var tail: nat
    var count: nat
    var open: bool
    var online: bool
    var rxArmed: bool
    var rxPending: bool
    var rxPaused: bool
    var txArmed: bool
    var txPending: bool
    var quirk: bool
    var quirkPending: bool
    // The RTS bit of the control byte, and the lines and enables as written.
    var controlRts: bool
    var rts: bool
    var rxIrq: bool
    var txIrq: bool
    var dpcQueued: bool
    // The hardware's receive FIFO, and all that has come in since it was reset.
    var fifo: seq<nat>
    ghost var arrived: seq<nat>
    ghost var captured: seq<nat>
    ghost var delivered: seq<nat>
    ghost var log: seq<Event>
    // Somebody read, and left bytes behind, while a notification was armed.
    ghost var early: bool

    ghost predicate Ring()
      reads this`head, this`tail, this`count, this`captured, this`delivered, ring
    {
      && ring.Length == RING && Holds(ring[..], captured, delivered)
      && count == |captured| - |delivered| && head == At(|captured|) && tail == At(|delivered|)
    }

    // No byte is lost, invented or reordered on the way: what has come in was
    // captured, in order, or waits in the FIFO.
    ghost predicate Lossless()
      reads this`captured, this`fifo, this`arrived
    {
      arrived == captured + fifo
    }

    ghost predicate Marks()
      reads this`open, this`rxPaused, this`count
    {
      open ==> (rxPaused ==> count >= LOW_WATER) && (count >= HIGH_WATER ==> rxPaused)
    }

    // The peer is stopped, and receive interrupts are masked, exactly while the
    // ring is paused or the erratum is being worked around.
    ghost predicate Lines()
      reads this`open, this`online, this`rxPaused, this`quirk, this`controlRts, this`rts, this`rxIrq
    {
      && (open && online ==> (rxIrq <==> !rxPaused && !quirk) && (rts <==> controlRts && !rxPaused && !quirk))
      && (!online ==> !rxIrq)
    }

    ghost predicate Notified()
      reads this`rxArmed, this`rxPending, this`dpcQueued, this`log, this`open, this`count, this`early
    {
      && PhaseOf(log) == (if rxArmed then On else Off)
      && (rxPending ==> rxArmed && dpcQueued)
      && (open && rxArmed && count > 0 && !early ==> rxPending)
    }

    ghost predicate Valid()
      reads this, ring
    {
      Ring() && Lossless() && Marks() && Lines() && Notified()
    }

    constructor ()
      ensures Valid() && !open && !online && fresh(ring)
    {
      ring := new nat[RING](_ => 0);
      head, tail, count := 0, 0, 0;
      open, online, rxArmed, rxPending, rxPaused, txArmed, txPending := false, false, false, false, false, false, false;
      quirk, quirkPending, controlRts, rts, rxIrq, txIrq, dpcQueued := false, false, true, false, false, false, false;
      fifo, arrived, captured, delivered, log, early := [], [], [], [], [], false;
    }

    // Bytes arrive whenever they like.
    method Arrive()
      requires Lossless()
      modifies this`fifo, this`arrived
      ensures Lossless() && old(arrived) <= arrived
    {
      var bytes: seq<nat> :| true;
      fifo := fifo + bytes;
      arrived := arrived + bytes;
    }

    // UartInterruptMask.
    method InterruptMask()
      modifies this`rts, this`rxIrq, this`txIrq
      ensures rts == (open && controlRts && !rxPaused && !quirk)
      ensures rxIrq == (open && online && !rxPaused && !quirk)
      ensures txIrq == (open && online && txArmed)
    {
      rts := open && controlRts;
      if rxPaused || quirk {
        rts := false;
      }
      rxIrq := open && online && !rxPaused && !quirk;
      txIrq := open && online && txArmed;
    }

    // UartCapture: at most 64 bytes from the FIFO into the ring, which never
    // overflows; at the high-water mark the peer is stopped.
    method Capture()
      requires Ring() && Lossless() && open && online && (rxPaused ==> count >= LOW_WATER) && Lines()
      modifies this`head, this`count, this`captured, this`fifo, this`arrived, this`rxPaused, this`rts, this`rxIrq, this`txIrq, ring
      ensures Ring() && Lossless() && Marks() && Lines() && old(arrived) <= arrived
      ensures old(captured) <= captured && |captured| <= |old(captured)| + 64
      // It stops early only at the high-water mark, or with the FIFO found empty.
      ensures |captured| == |old(captured)| + 64 || count >= HIGH_WATER || fifo == []
      ensures Caught(old(captured), old(arrived), delivered, captured)
      ensures old(rxPaused) ==> rxPaused
    {
      hide Holds, At;
      var i := 0;
      var ready := true;
      while i < 64 && count < HIGH_WATER && ready
        invariant Ring() && Lossless() && i <= 64 && (rxPaused ==> count >= LOW_WATER) && Lines() && old(arrived) <= arrived
        invariant old(captured) <= captured && |captured| == |old(captured)| + i
        invariant !ready ==> fifo == []
        invariant rxPaused == old(rxPaused)
        decreases 64 - i, ready
      {
        Arrive();
        ready := fifo != [];
        if ready {
          Store();
          i := i + 1;
        }
      }
      InRing();
      if count >= HIGH_WATER && !rxPaused {
        rxPaused := true;
        InterruptMask();
      }
    }

    // One byte from the FIFO to the ring.
    method Store()
      requires Ring() && Lossless() && count < HIGH_WATER && fifo != []
      modifies this`head, this`count, this`captured, this`fifo, ring
      ensures Ring() && Lossless() && count == old(count) + 1 && captured == old(captured) + [old(fifo)[0]]
    {
      hide Holds, At;
      var byte := fifo[0];
      Put(ring[..], captured, delivered, byte);
      Next(|captured|);
      InRing();
      ghost var before := ring[..];
      ring[head] := byte;
      assert ring[..] == before[head := byte];
      head := (head + 1) % RING;
      count := count + 1;
      captured := captured + [byte];
      fifo := fifo[1..];
    }

    lemma InRing()
      requires Ring()
      ensures head < RING && tail < RING && delivered <= captured && count <= HIGH_WATER < RING
    {
    }

    // UartReceive: the oldest bytes captured and not yet delivered, in order.
    method Receive(length: nat) returns (buffer: seq<nat>)
      requires Valid()
      modifies this`head, this`tail, this`count, this`captured, this`delivered, this`fifo, this`arrived, this`rxPaused, this`rts, this`rxIrq, this`txIrq, this`early, ring
      ensures Valid() && |buffer| <= length
      ensures delivered == old(delivered) + buffer && old(captured) <= captured && delivered <= captured
      // All that was ever delivered is, in order, the first of all that came in.
      ensures delivered <= arrived && old(arrived) <= arrived
      ensures !open || !online ==> buffer == [] && captured == old(captured)
      ensures open && online ==> |buffer| == length || count == 0
      ensures open && online ==> Caught(old(captured), old(arrived), old(delivered), captured)
      // The peer goes on exactly when the ring is below the low-water mark.
      ensures open && online && old(rxPaused) ==> rxPaused == (count >= LOW_WATER)
      ensures early == (old(early) || (open && online && rxArmed && count > 0))
    {
      hide Ring, Holds, At, PhaseOf, Lossless, Lines, Marks, Caught;
      buffer := [];
      if online && open {
        buffer := ReadOut(length);
        early := early || (rxArmed && count > 0);
      }
      InRing();
      InOrder();
    }

    lemma InOrder()
      requires Ring() && Lossless()
      ensures delivered <= captured <= arrived
    {
    }

    method ReadOut(length: nat) returns (buffer: seq<nat>)
      requires open && online && Ring() && Lossless() && Marks() && Lines()
      modifies this`head, this`tail, this`count, this`captured, this`delivered, this`fifo, this`arrived, this`rxPaused, this`rts, this`rxIrq, this`txIrq, ring
      ensures Ring() && Lossless() && Marks() && Lines() && old(arrived) <= arrived
      ensures delivered == old(delivered) + buffer && old(captured) <= captured && delivered <= captured
      ensures |buffer| <= length && (|buffer| == length || count == 0)
      ensures old(rxPaused) ==> rxPaused == (count >= LOW_WATER)
      ensures Caught(old(captured), old(arrived), old(delivered), captured)
    {
      hide Ring, Holds, At, Lines, Lossless, Caught;
      Capture();
      buffer := Drain(length);
      Resume();
    }

    // Below the low-water mark the peer may go on.
    method Resume()
      requires open && online && (count >= HIGH_WATER ==> rxPaused) && Lines()
      modifies this`rxPaused, this`rts, this`rxIrq, this`txIrq
      ensures Marks() && Lines() && rxPaused == (old(rxPaused) && count >= LOW_WATER)
    {
      if rxPaused && count < LOW_WATER {
        rxPaused := false;
        InterruptMask();
      }
    }

    method Drain(length: nat) returns (buffer: seq<nat>)
      requires Ring()
      modifies this`tail, this`count, this`delivered
      ensures Ring() && delivered == old(delivered) + buffer && delivered <= captured
      ensures count <= old(count) && |buffer| <= length && (|buffer| == length || count == 0)
    {
      hide Holds, At;
      buffer := [];
      InRing();
      while |buffer| < length && count > 0
        invariant Ring() && |buffer| <= length && delivered == old(delivered) + buffer && delivered <= captured
        invariant count <= old(count)
        decreases count
      {
        Take(ring[..], captured, delivered);
        Next(|delivered|);
        InRing();
        buffer := buffer + [ring[tail]];
        delivered := delivered + [ring[tail]];
        tail := (tail + 1) % RING;
        count := count - 1;
        InRing();
      }
    }

    // One cause; after the erratum, or an unknown cause, no further is read.
    method Service(cause: nat) returns (more: bool)
      requires open && online && Ring() && Lossless() && Marks() && Lines()
      modifies this`head, this`count, this`captured, this`fifo, this`arrived, this`rxPaused, this`rts, this`rxIrq, this`txIrq, this`quirk, this`quirkPending, this`txPending, ring
      ensures Ring() && Lossless() && Marks() && Lines()
      ensures old(captured) <= captured && old(count) <= count && old(arrived) <= arrived
      // Received bytes are captured, unless a timeout finds none.
      ensures Receiving(cause) || (cause == 12 && more) ==> Caught(old(captured), old(arrived), delivered, captured)
      ensures cause == 12 && !more ==> quirk && quirkPending && fifo == []
      ensures cause != 12 ==> (more <==> Plain(cause))
      ensures cause != 12 || more ==> quirk == old(quirk) && quirkPending == old(quirkPending)
      ensures !Receiving(cause) && !(cause == 12 && more) ==> captured == old(captured)
      ensures txPending == (old(txPending) || (cause == 2 && txArmed)) && (cause == 2 ==> !txIrq)
    {
      hide Holds, At, Lossless, Caught;
      more := true;
      ghost var had, come := captured, arrived;
      Arrive();
      if cause == 12 && fifo == [] {
        quirk, quirkPending := true, true;
        InterruptMask();
        more := false;
      } else if cause == 4 || cause == 6 || cause == 12 {
        ghost var there := arrived;
        InRing();
        Capture();
        InRing();
        StillCaught(had, come, delivered, had, there, captured);
      } else if cause == 2 {
        if txArmed {
          txPending := true;
        }
        txIrq := false;
      } else if cause != 0 {
        more := false;
      }
    }

    lemma StillCaught(captured: seq<nat>, arrived: seq<nat>, delivered: seq<nat>, had: seq<nat>, come: seq<nat>, now: seq<nat>)
      requires captured <= had <= now && arrived <= come
      ensures Caught(captured, arrived, delivered, had) ==> Caught(captured, arrived, delivered, now)
      ensures Caught(had, come, delivered, now) ==> Caught(captured, arrived, delivered, now)
    {
    }

    lemma NotPlain()
      ensures !Plain(12) && !Receiving(12) && Plain(2) && !Receiving(2)
    {
    }

    // The causes, one after the other.
    method Causes(pending: seq<nat>) returns (handled: bool)
      requires open && online && Ring() && Lossless() && Marks() && Lines()
      modifies this`head, this`count, this`captured, this`fifo, this`arrived, this`rxPaused, this`rts, this`rxIrq, this`txIrq, this`quirk, this`quirkPending, this`txPending, ring
      ensures Ring() && Lossless() && Marks() && Lines() && handled == (pending != [])
      ensures old(captured) <= captured && old(count) <= count && old(arrived) <= arrived
      ensures AllPlain(pending, Served(pending)) ==>
                && ((exists k :: 0 <= k < Served(pending) && Receiving(pending[k])) ==> Caught(old(captured), old(arrived), delivered, captured))
                && ((exists k :: 0 <= k < Served(pending) && pending[k] == 2) && txArmed ==> txPending)
    {
      hide Ring, Holds, At, PhaseOf, Marks, Lines, Lossless, Caught, Plain, Receiving;
      var i := 0;
      var going := true;
      while i < 8 && i < |pending| && going
        invariant i <= 8 && i <= |pending| && Ring() && Lossless() && Marks() && Lines()
        invariant old(captured) <= captured && old(count) <= count && old(arrived) <= arrived
        invariant (exists k :: 0 <= k < i && Receiving(pending[k])) ==> Caught(old(captured), old(arrived), delivered, captured)
        invariant (exists k :: 0 <= k < i && pending[k] == 2) && txArmed ==> txPending
        invariant !going ==> !AllPlain(pending, i)
        decreases 8 - i, going
      {
        ghost var had, come := captured, arrived;
        going := Service(pending[i]);
        StillCaught(old(captured), old(arrived), delivered, had, come, captured);
        NotPlain();
        i := i + 1;
      }
      handled := i > 0;
    }

    // UartIsr. `pending` are the causes read one after the other.
    method Isr(pending: seq<nat>) returns (handled: bool)
      requires Valid()
      modifies this, ring
      ensures Valid() && old(captured) <= captured && delivered == old(delivered) && log == old(log)
      ensures !old(open && online) ==> !handled && captured == old(captured)
      ensures handled <==> old(open && online) && pending != []
      ensures rxPending == (old(rxPending) || (old(open && online) && rxArmed && count > 0))
      ensures old(open && online) ==> dpcQueued == (old(dpcQueued) || rxPending || txPending || quirkPending)
      ensures rxArmed == old(rxArmed) && txArmed == old(txArmed)
      // Up to eight causes are served, unless one of them is not plain.
      ensures old(open && online) && AllPlain(pending, Served(pending)) ==>
                && ((exists k :: 0 <= k < Served(pending) && Receiving(pending[k])) ==> Caught(old(captured), old(arrived), delivered, captured))
                && ((exists k :: 0 <= k < Served(pending) && pending[k] == 2) && txArmed ==> txPending)
    {
      hide Ring, Holds, At, PhaseOf, Marks, Lines, Lossless, Caught, Plain, Receiving;
      handled := false;
      if !online || !open {
        return;
      }
      handled := Causes(pending);
      if rxArmed && count > 0 {
        rxPending := true;
      }
      if rxPending || txPending || quirkPending {
        dpcQueued := true;
      }
    }

    // UartDpc: whoever is found armed and pending is committed under the lock;
    // a cancellation that comes later is refused.
    method Dpc() returns (ready: bool, transmit: bool, timer: bool)
      requires Valid() && dpcQueued
      modifies this`rxArmed, this`rxPending, this`txArmed, this`txPending, this`quirkPending, this`dpcQueued, this`log, this`early
      ensures Valid() && !rxPending && !dpcQueued
      ensures ready <==> old(rxPending)
      ensures (transmit <==> old(txArmed && txPending)) && txArmed == (old(txArmed) && !transmit) && txPending == (old(txPending) && !transmit)
      ensures timer == old(quirkPending) && !quirkPending
      ensures ready ==> !rxArmed && log == old(log) + [Ready]
      ensures !ready ==> rxArmed == old(rxArmed) && log == old(log)
    {
      hide Holds, At, PhaseOf, Lossless;
      dpcQueued := false;
      ready := rxArmed && rxPending;
      transmit := txArmed && txPending;
      if ready {
        PhaseSnoc(log, Ready);
        rxArmed, rxPending := false, false;
        log := log + [Ready];
      }
      if transmit {
        txArmed, txPending := false, false;
      }
      timer := quirkPending;
      quirkPending := false;
    }

    // UartRxEnable.
    method RxEnable()
      requires Valid()
      modifies this`rxArmed, this`rxPending, this`dpcQueued, this`log, this`early
      ensures Valid() && rxArmed && !early && log == old(log) + [Armed]
      ensures rxPending == (old(rxPending) || count > 0) && dpcQueued == (old(dpcQueued) || count > 0)
    {
      hide Holds, At, PhaseOf, Lossless;
      PhaseSnoc(log, Armed);
      rxArmed := true;
      log := log + [Armed];
      early := false;
      if count > 0 {
        rxPending, dpcQueued := true, true;
      }
    }

    // UartRxCancel: TRUE exactly if no Ready has been committed.
    method RxCancel() returns (cancelled: bool)
      requires Valid()
      modifies this`rxArmed, this`rxPending, this`log
      ensures Valid() && !rxArmed
      ensures cancelled <==> old(rxArmed)
      ensures log == if cancelled then old(log) + [Cancelled] else old(log)
    {
      hide Holds, At, PhaseOf, Lossless;
      cancelled := rxArmed;
      if cancelled {
        PhaseSnoc(log, Cancelled);
        log := log + [Cancelled];
      }
      rxArmed, rxPending := false, false;
    }

    method TxEnable(empty: bool)
      requires Valid()
      modifies this`txArmed, this`txPending, this`dpcQueued, this`rts, this`rxIrq, this`txIrq
      ensures Valid() && txArmed
      ensures txPending == (old(txPending) || empty) && dpcQueued == (old(dpcQueued) || empty)
      ensures !empty ==> txIrq == (open && online)
    {
      hide Holds, At, PhaseOf, Lossless;
      txArmed := true;
      if empty {
        txPending, dpcQueued := true, true;
      } else {
        InterruptMask();
      }
    }

    method TxCancel() returns (cancelled: bool)
      requires Valid()
      modifies this`txArmed, this`txPending, this`rts, this`rxIrq, this`txIrq
      ensures Valid() && !txArmed && !txPending && !txIrq && cancelled == old(txArmed)
    {
      hide Holds, At, PhaseOf, Lossless;
      cancelled := txArmed;
      txArmed, txPending := false, false;
      InterruptMask();
    }

    // Nothing captured, nothing delivered: the reader starts afresh with what
    // the FIFO still holds.
    method Empty()
      requires ring.Length == RING
      modifies this`head, this`tail, this`count, this`captured, this`delivered, this`arrived
      ensures Ring() && Lossless() && count == 0 && captured == delivered == [] && arrived == fifo
    {
      head, tail, count := 0, 0, 0;
      captured, delivered, arrived := [], [], fifo;
    }

    // UartPurge.
    method Purge(rx: bool)
      requires Valid()
      modifies this`head, this`tail, this`count, this`captured, this`delivered, this`fifo, this`arrived, this`rxPaused, this`rts, this`rxIrq, this`txIrq
      ensures Valid()
      ensures if rx then count == 0 && captured == delivered == arrived == [] && !rxPaused
              else captured == old(captured) && delivered == old(delivered) && count == old(count)
    {
      hide Holds, At, PhaseOf, Lossless;
      if rx {
        fifo := [];
        Empty();
        rxPaused := false;
      }
      InterruptMask();
    }

    method Forget()
      requires PhaseOf(log) != Wrong
      modifies this`rxArmed, this`rxPending, this`txArmed, this`txPending, this`early, this`log
      ensures !rxArmed && !rxPending && PhaseOf(log) == Off && log == old(log) + [Forgotten]
    {
      hide PhaseOf;
      PhaseSnoc(log, Forgotten);
      log := log + [Forgotten];
      rxArmed, rxPending, txArmed, txPending, early := false, false, false, false, false;
    }

    // UartOpen.
    method Open() returns (ok: bool)
      requires Valid()
      modifies this
      ensures Valid()
      ensures ok <==> old(online && !open)
      ensures ok ==> open && count == 0 && captured == delivered == arrived == [] && !rxPaused && !rxArmed && rts && rxIrq
      ensures ok ==> log == old(log) + [Forgotten]
      ensures !ok ==> captured == old(captured) && delivered == old(delivered) && log == old(log) && open == old(open)
    {
      hide Holds, At, PhaseOf, Lossless;
      ok := online && !open;
      if !ok {
        return;
      }
      StartStream();
      controlRts := true;
      open := true;
      rxPaused, quirk, quirkPending := false, false, false;
      InterruptMask();
    }

    // UartClose. A pause is not taken back: it counts only while open.
    method Close()
      requires Valid()
      modifies this`open, this`quirk, this`quirkPending, this`head, this`tail, this`count, this`captured, this`delivered, this`arrived, this`rts, this`rxIrq, this`txIrq
      ensures Valid() && !open && !rts && !rxIrq && count == 0
    {
      hide Holds, At, PhaseOf, Lossless;
      open, quirk, quirkPending := false, false, false;
      InterruptMask();
      Empty();
    }

    method InterruptEnable()
      requires Valid()
      modifies this`online, this`rts, this`rxIrq, this`txIrq
      ensures Valid() && online
    {
      hide Holds, At, PhaseOf, Lossless;
      online := true;
      InterruptMask();
    }

    method InterruptDisable()
      requires Valid()
      modifies this`online, this`rxIrq, this`txIrq
      ensures Valid() && !online && !rxIrq
    {
      hide Holds, At, PhaseOf, Lossless;
      online, rxIrq, txIrq := false, false, false;
    }

    method Stop()
      requires Valid()
      modifies this`online, this`quirk, this`quirkPending, this`rts, this`rxIrq, this`txIrq
      ensures Valid() && !online && !rts
    {
      hide Holds, At, PhaseOf, Lossless;
      online, quirk, quirkPending := false, false, false;
      rts, rxIrq, txIrq := false, false, false;
    }

    // SET_HANDFLOW: the client may hold RTS down.
    method SetHandflow(on: bool)
      requires Valid() && open && online
      modifies this`controlRts, this`rts, this`rxIrq, this`txIrq
      ensures Valid() && (rts <==> on && !rxPaused && !quirk)
    {
      hide Holds, At, PhaseOf, Lossless;
      controlRts := on;
      InterruptMask();
    }

    method TakeDummy()
      requires open && online && Ring() && Lossless() && Marks() && Lines()
      modifies this`head, this`count, this`captured, this`fifo, this`arrived, this`rxPaused, this`rts, this`rxIrq, this`txIrq, ring
      ensures Ring() && Lossless() && Marks() && Lines()
      ensures old(captured) <= captured && old(arrived) <= arrived && Caught(old(captured), old(arrived), delivered, captured)
    {
      hide Ring, Holds, At;
      Arrive();
      if fifo == [] {
        // The byte that is read here was never received.
      } else {
        Capture();
      }
    }

    // Nothing received, nothing asked for.
    method StartStream()
      requires Ring() && PhaseOf(log) != Wrong
      modifies this`fifo, this`head, this`tail, this`count, this`captured, this`delivered, this`arrived,
               this`rxArmed, this`rxPending, this`txArmed, this`txPending, this`early, this`log
      ensures Ring() && Lossless() && count == 0 && captured == delivered == arrived == fifo == []
      ensures !rxArmed && !rxPending && PhaseOf(log) == Off && log == old(log) + [Forgotten]
    {
      hide Holds, At, PhaseOf;
      fifo := [];
      Empty();
      Forget();
    }

    method LetGo()
      requires open && online && Ring() && Lossless() && Marks() && Lines()
      modifies this`head, this`count, this`captured, this`fifo, this`arrived, this`rxPaused, this`rts, this`rxIrq, this`txIrq, this`quirk, ring
      ensures Ring() && Lossless() && Marks() && Lines() && !quirk
      ensures old(captured) <= captured && Caught(old(captured), old(arrived), delivered, captured)
    {
      hide Ring, Marks, Lossless, Caught;
      TakeDummy();
      quirk := false;
      InterruptMask();
    }

    // UartQuirkTimer: take the dummy byte, or what has come in meanwhile, and
    // let the peer go on.
    method QuirkTimer()
      requires Valid()
      modifies this, ring
      ensures Valid() && old(captured) <= captured && delivered == old(delivered) && log == old(log)
      ensures old(open && online) ==> !quirk && open && online
      ensures old(open && online && quirk) ==> Caught(old(captured), old(arrived), delivered, captured)
      ensures var again := old(open && online && quirk) && rxArmed && count > 0;
              rxPending == (old(rxPending) || again) && dpcQueued == (old(dpcQueued) || again)
    {
      hide Ring, Marks, Lines, Holds, At, PhaseOf, Lossless, Caught;
      if online && open && quirk {
        LetGo();
        if rxArmed && count > 0 {
          rxPending, dpcQueued := true, true;
        }
      }
    }
  }
}
