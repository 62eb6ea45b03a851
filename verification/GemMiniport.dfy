// The interrupt routines of the GEM Ethernet miniport (rp1-ethernet/miniport.c),
// each proved to take the steps of GemInterrupts.
module GemMiniport {
  import opened GemInterrupts

  // The adapter with its registers. Hardware and other processors act wherever
  // the locks let them.
  class Adapter {
    const clearOnRead: bool
    // Descriptors that are handed to the engine and not yet retired.
    var txCount: nat
    var mini: Miniport
    var line: Line
    var engine: Engine
    var calls: Calls
    ghost var alarm: bool

    ghost function S(): State
      reads this
    {
      State(mini, line, engine, calls, alarm)
    }

    // The engine has sent no more than it was handed.
    ghost predicate Valid()
      reads this
    {
      Inv(S()) && engine.tx <= txCount
    }

    constructor (cor: bool)
      ensures Valid() && txCount == 0 && S() == Reset(false) && clearOnRead == cor
    {
      clearOnRead, txCount := cor, 0;
      mini := Miniport(false, false, false, Idle, false);
      line := Line(false, false, false, {}, Free);
      engine, calls, alarm := Engine({}, false, 0, 0, {}), Calls(0, 0), false;
    }

    // Only the engine moved: more may have landed, more may be latched.
    twostate predicate Only()
      reads this
    {
      && mini == old(mini) && line == old(line) && calls == old(calls) && engine.enabled == old(engine.enabled)
      && old(engine.status) <= engine.status && old(engine.rx) <= engine.rx && old(engine.tx) <= engine.tx
    }

    // Frames and sent descriptors land, status bits are raised, in any order.
    method Hardware()
      requires Valid()
      modifies this`engine, this`alarm
      ensures Valid() && Only()
    {
      hide Inv, Masked, Wanted;
      var events: nat :| 0 <= events;
      for e := 0 to events
        invariant Valid() && Only()
      {
        var lands: bool :| true;
        if lands && line.running {
          var bit :| bit == Rx || bit == Tx;
          LandedInv(S(), bit);
          if bit == Rx {
            engine := engine.(rx := engine.rx + 1, unraised := engine.unraised + {Rx});
          } else if engine.tx < txCount {
            engine := engine.(tx := engine.tx + 1, unraised := engine.unraised + {Tx});
          }
        } else {
          var bits: set<Bit> :| true;
          RaisedInv(S(), bits);
          engine := engine.(status := engine.status + engine.unraised + bits, unraised := {});
          alarm := alarm || (line.running && Fatal in bits);
        }
      }
    }

    // Interrupt. It claims the line exactly if one of its own bits is latched
    // when it looks, and then masks, defers and queues a DPC.
    method Interrupt() returns (claimed: bool)
      requires Valid() && line.section == Free
      modifies this`engine, this`line, this`calls, this`alarm
      ensures Valid() && line.section == Free
      ensures claimed <==> old(line.running && !line.deferred && !line.suppressed && !mini.removed && Wanted(engine.status))
      ensures claimed ==>
                && line.deferred && !engine.enabled && (exists merge :: calls == Queue(old(calls), merge))
                && line.pending == old(line.pending) + Masked(old(engine.status))
      ensures !claimed ==> calls == old(calls) && line == old(line) && engine.enabled == old(engine.enabled)
      ensures mini == old(mini) && old(engine.rx) <= engine.rx && old(engine.tx) <= engine.tx
    {
      hide Inv, Masked, Wanted;
      claimed := false;
      if !line.running || line.deferred || line.suppressed || mini.removed {
        return;
      }
      var bits := engine.status;
      IsrEnteredInv(clearOnRead, S());
      line := line.(section := InIsr(bits));
      if clearOnRead {
        engine := engine.(status := {});
      }
      Hardware();
      claimed := Wanted(bits);
      if claimed {
        Claim();
      } else {
        IsrLeftInv(clearOnRead, S(), false);
        engine := engine.(status := AfterAck(clearOnRead, engine.status, bits));
        line := line.(section := Free);
      }
    }

    // Mask, defer and queue.
    method Claim()
      requires Valid() && line.section.InIsr? && Wanted(line.section.bits)
      modifies this`engine, this`line, this`calls
      ensures Valid() && exists merge :: S() == IsrLeft(clearOnRead, old(S()), merge)
    {
      hide Inv, Masked, Wanted;
      var merge: bool :| true;
      IsrLeftInv(clearOnRead, S(), merge);
      ghost var before := S();
      engine := engine.(status := AfterAck(clearOnRead, engine.status, line.section.bits), enabled := false);
      line := line.(deferred := true, pending := line.pending + Masked(line.section.bits), section := Free);
      calls := Queue(calls, merge);
      assert S() == IsrLeft(clearOnRead, before, merge);
    }

    // What goes on elsewhere while a DPC works: the engine, the service routine on
    // another processor, a stop or a surprise removal, NDIS, a second DPC.
    method Elsewhere()
      requires Valid() && line.section == Free && Unlocked(S())
      modifies this
      ensures Valid() && line.section == Free && Kept()
    {
      hide Inv, Masked, Wanted, Apply;
      var events: nat :| 0 <= events;
      for e := 0 to events
        invariant Valid() && line.section == Free && Kept()
      {
        Hardware();
        Other();
      }
    }

    // Nobody else takes a frame out of the receive ring, retires a descriptor, or
    // starts the adapter, while a DPC is active.
    twostate predicate Kept()
      reads this
    {
      && mini.dpc == old(mini.dpc) && old(engine.rx) <= engine.rx && old(engine.tx) <= engine.tx
      && (mini.running ==> old(mini.running)) && (old(mini.removed) ==> mini.removed) && (mini.linked ==> old(mini.linked))
    }

    method Other()
      requires Valid() && line.section == Free && Unlocked(S())
      modifies this
      ensures Valid() && line.section == Free && Kept()
    {
      hide Inv, Masked, Wanted;
      var actor: nat :| true;
      match actor {
        case 0 => StopHardware();
        case 1 => SurpriseRemoval();
        case 2 =>
          if calls.queued > 0 && mini.dpc != Idle {
            DpcEnteredInv(clearOnRead, S(), false, All);
            calls := Consume(calls, false);
          }
        case 3 =>
          var descriptors: nat :| true;
          txCount := txCount + descriptors;
        case _ => AtTheLine();
      }
    }

    // What needs no more than the interrupt lock.
    method AtTheLine()
      requires Valid() && line.section == Free
      modifies this`engine, this`line, this`calls, this`alarm
      ensures Valid() && line.section == Free && old(engine.rx) <= engine.rx && old(engine.tx) <= engine.tx
    {
      hide Inv, Masked, Wanted;
      var actor: nat :| true;
      match actor {
        case 0 => var claimed := Interrupt();
        case 1 => DisableInterrupt();
        case _ => EnableInterrupt();
      }
    }

    // What goes on while a DPC holds the send lock.
    method Meanwhile()
      requires Valid() && line.section == Free
      modifies this`engine, this`line, this`calls, this`alarm
      ensures Valid() && line.section == Free && old(engine.rx) <= engine.rx && old(engine.tx) <= engine.tx
    {
      hide Inv, Masked, Wanted;
      var events: nat :| 0 <= events;
      for e := 0 to events
        invariant Valid() && line.section == Free && old(engine.rx) <= engine.rx && old(engine.tx) <= engine.tx
      {
        Hardware();
        AtTheLine();
      }
    }

    method StopHardware()
      requires Valid() && line.section == Free && Unlocked(S())
      modifies this
      ensures Valid() && S() == Apply(clearOnRead, old(S()), Stop)
    {
      hide Inv, Masked, Wanted;
      InvStep(clearOnRead, S(), Stop);
      mini := mini.(running := false, linked := false);
      StopInterrupts();
    }

    method StopInterrupts()
      modifies this`line, this`engine, this`alarm
      ensures S() == Stopped(old(S()))
    {
      line := line.(running := false, deferred := false, pending := {});
      if !mini.removed {
        engine := engine.(enabled := false);
      }
      alarm := false;
    }

    method SurpriseRemoval()
      requires Valid() && line.section == Free && Unlocked(S())
      modifies this`line, this`mini
      ensures Valid() && S() == Apply(clearOnRead, old(S()), Remove)
    {
      hide Inv, Masked, Wanted;
      InvStep(clearOnRead, S(), Remove);
      line := line.(running := false);
      mini := mini.(removed := true, running := false);
    }

    method DisableInterrupt()
      requires Valid() && line.section == Free
      modifies this`line, this`engine
      ensures Valid() && S() == Apply(clearOnRead, old(S()), Disable)
    {
      hide Inv, Masked, Wanted;
      InvStep(clearOnRead, S(), Disable);
      line := line.(suppressed := true);
      if !mini.removed {
        engine := engine.(enabled := false);
      }
    }

    method EnableInterrupt()
      requires Valid() && line.section == Free
      modifies this`line, this`engine
      ensures Valid() && S() == Apply(clearOnRead, old(S()), Enable)
    {
      hide Inv, Masked, Wanted;
      InvStep(clearOnRead, S(), Enable);
      line := line.(suppressed := false);
      if line.running && !line.deferred && !mini.removed {
        engine := engine.(enabled := true);
      }
    }

    // StartHardware. Bits that were latched before are acknowledged; one that is
    // raised meanwhile and was not latched stays.
    method StartHardware(speed: bool)
      requires Valid() && line.section == Free && mini.dpc == Idle && !mini.running && !mini.removed
      modifies this
      ensures Valid() && mini == old(mini).(running := true, linked := speed) && calls == old(calls)
      ensures engine.rx == engine.tx == txCount == 0
      ensures !speed ==> line == old(line) && engine.status == old(engine.status) && engine.enabled == old(engine.enabled)
      ensures speed ==> line == Line(true, false, old(line.suppressed), {}, Free) && !alarm
      ensures speed ==> engine.enabled == (old(engine.enabled) || !line.suppressed)
    {
      hide Inv, Masked, Wanted;
      StartingInv(clearOnRead, S(), speed);
      StoppedOff(S());
      mini := mini.(running := true, linked := speed);
      engine := engine.(rx := 0, tx := 0, unraised := {});
      txCount := 0;
      if speed {
        var bits := engine.status;
        line := line.(pending := {}, deferred := false, section := InStart(bits));
        if clearOnRead {
          engine := engine.(status := {});
        }
        NothingLands();
        StartInterrupts();
      }
    }

    lemma StoppedOff(s: State)
      requires Inv(s) && !s.mini.running
      ensures !s.line.running
    {
    }

    // Before interrupts run the engine is off: it raises bits, but moves no frames.
    method NothingLands()
      requires Valid() && !line.running
      modifies this`engine, this`alarm
      ensures Valid() && Only() && engine.rx == old(engine.rx) && engine.tx == old(engine.tx)
    {
      hide Inv, Masked, Wanted;
      var events: nat :| 0 <= events;
      for e := 0 to events
        invariant Valid() && Only() && engine.rx == old(engine.rx) && engine.tx == old(engine.tx)
      {
        var bits: set<Bit> :| true;
        RaisedInv(S(), bits);
        engine := engine.(status := engine.status + engine.unraised + bits, unraised := {});
      }
    }

    method StartInterrupts()
      requires Valid() && line.section.InStart?
      modifies this`engine, this`line, this`alarm
      ensures Valid() && S() == Started(clearOnRead, old(S()))
    {
      hide Inv, Masked, Wanted;
      StartedInv(clearOnRead, S());
      engine := engine.(status := AfterAck(clearOnRead, engine.status, line.section.bits));
      line := line.(running := true, section := Free);
      if !line.suppressed {
        engine := engine.(enabled := true);
      }
      alarm := false;
    }

    // The entry of InterruptDpc with TakeInterrupts: both locks are held. A fatal
    // error among what is pending or latched stops the adapter.
    method Take(continuation: bool, limit: Limit) returns (entered: bool)
      requires Valid() && line.section == Free && Unlocked(S())
      requires if continuation then calls.owed > 0 else calls.queued > 0
      modifies this
      ensures Valid() && line.section == Free && calls == Consume(old(calls), continuation)
      ensures entered <==> old(mini.running && mini.linked && !mini.removed && mini.dpc == Idle)
      ensures !entered ==> S() == old(S()).(calls := calls)
      ensures entered ==> mini.dpc == Working(limit, 0, 0) && line.pending == {}
      ensures entered ==> old(engine.rx) <= engine.rx && old(engine.tx) <= engine.tx
      ensures entered && Fatal in old(line.pending + engine.status) ==> !mini.running && !line.running && mini.recovery && !engine.enabled
      ensures entered && Fatal !in old(line.pending + engine.status) ==>
                mini == old(mini).(dpc := mini.dpc) && line == old(line).(pending := {}) && engine.enabled == old(engine.enabled)
    {
      hide Inv, Masked, Wanted, Taken, Consume, AfterRead;
      entered := Enter(continuation, limit);
      if entered {
        Hardware();
        TakenMeans(clearOnRead, S());
        TakePending();
      }
    }

    lemma TakenMeans(cor: bool, s: State)
      requires s.line.section.InTake? && s.mini.dpc.Taking?
      ensures var r := Taken(cor, s);
              && r.mini.dpc == Working(s.mini.dpc.limit, 0, 0) && r.line.pending == {} && r.line.section == Free && r.calls == s.calls
              && r.engine.rx == s.engine.rx && r.engine.tx == s.engine.tx
              && if Fatal in s.line.pending + s.line.section.bits then
                   !r.mini.running && !r.line.running && r.mini.recovery && (r.engine.enabled ==> s.mini.removed)
                 else
                   && r.mini == s.mini.(dpc := r.mini.dpc) && r.line == s.line.(pending := {}, section := Free)
                   && r.engine.enabled == s.engine.enabled
    {
      hide Masked;
    }

    method Enter(continuation: bool, limit: Limit) returns (entered: bool)
      requires Valid() && line.section == Free && Unlocked(S())
      requires if continuation then calls.owed > 0 else calls.queued > 0
      modifies this`calls, this`mini, this`line, this`engine
      ensures Valid() && calls == Consume(old(calls), continuation) && alarm == old(alarm)
      ensures entered <==> old(mini.running && mini.linked && !mini.removed && mini.dpc == Idle)
      ensures !entered ==> mini == old(mini) && line == old(line) && engine == old(engine)
      ensures entered ==>
                && mini == old(mini).(dpc := Taking(limit)) && line == old(line).(section := InTake(old(engine.status)))
                && engine == old(engine).(status := AfterRead(clearOnRead, old(engine.status)))
    {
      hide Inv, Masked, Wanted;
      RunningArmed(S());
      DpcEnteredInv(clearOnRead, S(), continuation, limit);
      calls := Consume(calls, continuation);
      entered := mini.running && mini.linked && !mini.removed && mini.dpc == Idle;
      if !entered {
        return;
      }
      mini := mini.(dpc := Taking(limit));
      line := line.(section := InTake(engine.status));
      if clearOnRead {
        engine := engine.(status := {});
      }
    }

    lemma RunningArmed(s: State)
      requires Inv(s) && s.line.section == Free
      ensures s.mini.running && s.mini.linked && !s.mini.removed ==> s.line.running
    {
    }

    method TakePending()
      requires Valid() && line.section.InTake? && mini.dpc.Taking?
      modifies this`engine, this`line, this`mini, this`alarm
      ensures Valid() && S() == Taken(clearOnRead, old(S()))
    {
      hide Inv, Masked, Wanted;
      TakenInv(clearOnRead, S());
      var fatal := Fatal in line.pending + Masked(line.section.bits);
      engine := engine.(status := AfterAck(clearOnRead, engine.status, line.section.bits));
      line := line.(pending := {}, section := Free);
      mini := mini.(dpc := Working(mini.dpc.limit, 0, 0));
      if fatal {
        StopInterrupts();
        mini := mini.(running := false, recovery := true);
      }
    }

    // CompleteTransmit, which holds the send lock throughout. Unless the adapter
    // was stopped, every descriptor the engine is done with is retired.
    method CompleteTransmit() returns (ghost retired: nat)
      requires Valid() && line.section == Free && mini.dpc.Working?
      modifies this`engine, this`line, this`calls, this`alarm, this`txCount
      ensures Valid() && line.section == Free && old(engine.rx) <= engine.rx
      ensures txCount == old(txCount) - retired && (mini.running ==> engine.tx == 0 && old(engine.tx) <= retired)
    {
      hide Inv, Masked, Wanted;
      retired := 0;
      while mini.running && txCount > 0 && engine.tx > 0
        invariant Valid() && line.section == Free && old(engine.rx) <= engine.rx
        invariant txCount == old(txCount) - retired && old(engine.tx) <= engine.tx + retired
        decreases txCount
      {
        InvStep(clearOnRead, S(), Step.Retire);
        engine := engine.(tx := engine.tx - 1);
        txCount := txCount - 1;
        retired := retired + 1;
        Meanwhile();
      }
    }

    // Receive: frames are taken until none is left, the batch or the limit is
    // full, or the adapter was stopped, and not a frame less.
    method Receive()
      requires Valid() && line.section == Free && mini.dpc.Working? && mini.dpc.slots == mini.dpc.indicated == 0
      modifies this
      ensures Valid() && line.section == Free && mini.dpc.Working? && mini.dpc.limit == old(mini.dpc.limit) && (mini.running ==> old(mini.running))
      ensures mini.dpc.indicated <= mini.dpc.slots <= BATCH
      ensures mini.dpc.limit.AtMost? ==> mini.dpc.indicated <= mini.dpc.limit.n
      ensures mini.running ==>
                || mini.dpc.slots == BATCH || mini.dpc.limit == AtMost(mini.dpc.indicated)
                || (engine.rx == 0 && old(engine.rx) <= mini.dpc.slots)
    {
      hide Inv, Masked, Wanted;
      var limit := mini.dpc.limit;
      while mini.running && engine.rx > 0 && mini.dpc.slots < BATCH && limit != AtMost(mini.dpc.indicated)
        invariant Valid() && line.section == Free && mini.dpc.Working? && mini.dpc.limit == limit && mini.dpc.indicated <= mini.dpc.slots <= BATCH
        invariant limit.AtMost? ==> mini.dpc.indicated <= limit.n
        invariant old(engine.rx) <= engine.rx + mini.dpc.slots && (mini.running ==> old(mini.running))
        decreases BATCH - mini.dpc.slots
      {
        var accept: bool :| true;
        InvStep(clearOnRead, S(), Step.Receive(accept));
        engine := engine.(rx := engine.rx - 1);
        mini := mini.(dpc := Looked(mini.dpc, accept));
        Elsewhere();
      }
    }

    // Both, and what goes on between and after them.
    method Process() returns (ghost retired: nat)
      requires Valid() && line.section == Free && mini.dpc.Working? && mini.dpc.slots == mini.dpc.indicated == 0
      modifies this
      ensures Valid() && line.section == Free && (mini.running ==> old(mini.running))
      ensures mini.dpc.Working? && mini.dpc.limit == old(mini.dpc.limit) && mini.dpc.indicated <= mini.dpc.slots <= BATCH
      ensures mini.dpc.limit.AtMost? ==> mini.dpc.indicated <= mini.dpc.limit.n
      ensures mini.running ==>
                && old(engine.tx) <= retired
                && (mini.dpc.slots == BATCH || mini.dpc.limit == AtMost(mini.dpc.indicated) || old(engine.rx) <= mini.dpc.slots)
    {
      hide Inv, Masked, Wanted;
      retired := CompleteTransmit();
      Elsewhere();
      Receive();
      Elsewhere();
    }

    // InterruptDpc. What had landed when it began it has retired and taken, up to
    // the batch and the limit, unless it was stopped. `seen` is what it finds when
    // it looks at the rings again, which decides what comes next. When it returns,
    // work that is left has an enabled interrupt, one about to be raised, or a
    // further DPC to come.
    method InterruptDpc(continuation: bool, limit: Limit) returns (entered: bool, more: bool, ghost seen: State, ghost retired: nat)
      requires Valid() && line.section == Free && Unlocked(S())
      requires if continuation then calls.owed > 0 else calls.queued > 0
      modifies this
      ensures Valid() && line.section == Free
      ensures entered <==> old(mini.running && mini.linked && !mini.removed && mini.dpc == Idle)
      ensures !entered ==> !more && S() == old(S()).(calls := Consume(old(calls), continuation))
      ensures entered ==> seen.mini.dpc.Working? && seen.mini.dpc.limit == limit && mini == seen.mini.(dpc := Idle)
      ensures entered && mini.running ==>
                && old(engine.tx) <= retired
                && var taken := seen.mini.dpc;
                   && taken.slots <= BATCH && (limit.AtMost? ==> taken.indicated <= limit.n)
                   && (taken.slots == BATCH || limit == AtMost(taken.indicated) || old(engine.rx) <= taken.slots)
      ensures entered && !(mini.running && !mini.removed) ==> !more && calls == seen.calls && line == seen.line
      ensures entered && mini.running && !mini.removed ==>
                var rx, tx, full := seen.engine.rx > 0, seen.engine.tx > 0, limit == AtMost(seen.mini.dpc.indicated);
                && (more <==> rx && full)
                && (if more then calls == seen.calls.(owed := seen.calls.owed + 1)
                    else if rx || tx then calls == Queue(seen.calls, false) || calls == Queue(seen.calls, true)
                    else calls == seen.calls)
                && line == seen.line.(deferred := seen.line.deferred && (rx || tx))
                && (!rx && !tx && line.running && !line.suppressed ==> engine.enabled)
      ensures entered && Serving(S()) && Work(engine) ==>
                Asserted(S()) || Wanted(engine.unraised) || calls.queued > 0 || calls.owed > 0
    {
      hide Inv, Masked, Wanted;
      more, seen, retired := false, S(), 0;
      entered := Take(continuation, limit);
      if !entered {
        return;
      }
      retired := Process();
      seen := S();
      Recheck();
      Hardware();
      more := mini.dpc.next == Owe;
      Finish();
      IdleServed(S());
    }

    // Look at the rings again, and decide what comes next.
    method Recheck()
      requires Valid() && line.section == Free && mini.dpc.Working?
      modifies this`mini
      ensures Valid() && mini == old(mini).(dpc := Decided(Decide(old(mini), engine)))
    {
      hide Inv, Masked, Wanted;
      CheckInv(S());
      var next := Rearm;
      if !mini.running || mini.removed {
        next := Leave;
      } else if engine.rx > 0 && mini.dpc.limit == AtMost(mini.dpc.indicated) {
        next := Owe;
      } else if engine.rx > 0 || engine.tx > 0 {
        next := Requeue;
      }
      mini := mini.(dpc := Decided(next));
    }

    // Owe, queue or rearm, as decided, and let other DPCs in.
    method Finish()
      requires Valid() && line.section == Free && mini.dpc.Decided?
      modifies this`calls, this`line, this`engine, this`mini
      ensures Valid() && exists merge :: S() == DpcLeft(old(S()), merge)
    {
      hide Inv, Masked, Wanted;
      var merge: bool :| true;
      DpcLeftInv(S(), merge);
      ghost var before := S();
      match mini.dpc.next {
        case Leave =>
        case Owe => calls := calls.(owed := calls.owed + 1);
        case Requeue => calls := Queue(calls, merge);
        case Rearm => RearmInterrupts();
      }
      mini := mini.(dpc := Idle);
      assert S() == DpcLeft(before, merge);
    }

    // The next event interrupts, unless a stop, NDIS or a removal forbids it;
    // nothing is acknowledged here.
    method RearmInterrupts()
      modifies this`line, this`engine
      ensures line == old(line).(deferred := false)
      ensures engine == old(engine).(enabled := old(engine.enabled) || (line.running && !line.suppressed && !mini.removed))
    {
      line := line.(deferred := false);
      if line.running && !line.suppressed && !mini.removed {
        engine := engine.(enabled := true);
      }
    }

    lemma IdleServed(s: State)
      requires Inv(s) && s.mini.dpc == Idle && s.line.section == Free
      ensures Serving(s) && Work(s.engine) ==> Asserted(s) || Wanted(s.engine.unraised) || s.calls.queued > 0 || s.calls.owed > 0
    {
    }
  }
}
