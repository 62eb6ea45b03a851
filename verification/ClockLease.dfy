// The mailbox driver's side of a clock lease (pi5-mailbox/driver.c): one file at
// a time owns a clock; it gives the clock back only with the rate and state it
// found; a file that vanishes takes the clock with it.
module ClockLease {
  datatype Status =
    | Success | Busy | InvalidParameter | AccessDenied | NotReady | HardwareError | ConfigurationError
    | IoError | IoTimeout | Cancelled | ProtocolError | Unavailable

  datatype Operation = Claim | Release | SetRate | SetState
  datatype Owner = Nobody | File(id: nat)

  // What happens to one clock. A write may have reached the firmware even if it
  // is reported as failed.
  datatype Event =
    | Claimed(file: nat, rate: nat, state: nat)
    | Wrote(op: Operation, value: nat)
    | ReadBack(rate: nat, state: nat)
    | Released(file: nat)
    | Lost

  // The phase a log leads to: owned, with the baseline and whether it has been
  // read back since the last write; `Wrong` if the log breaks the rules.
  datatype Phase = Free | Owned(file: nat, rate: nat, state: nat, back: bool) | Abandoned | Wrong

  function Step(p: Phase, e: Event): Phase {
    match e
    case Claimed(file, rate, state) => if p == Free then Owned(file, rate, state, false) else Wrong
    case Wrote(_, _) => if p.Owned? then p.(back := false) else Wrong
    case ReadBack(rate, state) => if p.Owned? then p.(back := rate == p.rate && state == p.state) else Wrong
    case Released(file) => if p.Owned? && p.file == file && p.back then Free else Wrong
    case Lost => if p.Owned? then Abandoned else Wrong
  }

  function PhaseOf(log: seq<Event>): Phase {
    if log == [] then Free else Step(PhaseOf(log[..|log| - 1]), log[|log| - 1])
  }

  lemma PhaseSnoc(log: seq<Event>, e: Event)
    ensures PhaseOf(log + [e]) == Step(PhaseOf(log), e)
  {
    assert (log + [e])[..|log|] == log;
  }

  lemma {:induction false} PrefixNotWrong(log: seq<Event>, n: nat)
    requires PhaseOf(log) != Wrong && n <= |log|
    ensures PhaseOf(log[..n]) != Wrong
    decreases |log|
  {
    if n < |log| {
      PrefixNotWrong(log[..|log| - 1], n);
      assert log[..|log| - 1][..n] == log[..n];
    } else {
      assert log[..n] == log;
    }
  }

  // Where a phase comes from: an owned clock was claimed, and unless something
  // was written since, its baseline was what was read back last.
  lemma {:induction false} Origin(log: seq<Event>) returns (c: nat, b: nat)
    requires PhaseOf(log).Owned?
    ensures var p := PhaseOf(log);
            && c < |log| && log[c] == Claimed(p.file, p.rate, p.state)
            && (forall k :: c < k < |log| ==> !log[k].Claimed? && !log[k].Released?)
            && (p.back ==> c < b < |log| && log[b] == ReadBack(p.rate, p.state) && forall k :: b < k < |log| ==> !log[k].Wrote?)
  {
    var n := |log| - 1;
    var before, e := PhaseOf(log[..n]), log[n];
    if e.Claimed? {
      c, b := n, n;
    } else {
      c, b := Origin(log[..n]);
      if e.ReadBack? {
        b := n;
      }
    }
  }

  // A second claim comes only after the first owner released the clock, and
  // before that had read back the rate and state it found, with no later write.
  lemma {:induction false} ClaimedAfterReadBack(log: seq<Event>, i: nat, j: nat) returns (b: nat, r: nat)
    requires PhaseOf(log) != Wrong && i < j < |log| && log[i].Claimed? && log[j].Claimed?
    requires forall k :: i < k < j ==> !log[k].Claimed?
    ensures i < b < r < j && log[r] == Released(log[i].file) && log[b] == ReadBack(log[i].rate, log[i].state)
    ensures forall k :: b < k < j ==> !log[k].Wrote?
  {
    PrefixNotWrong(log, j + 1);
    PhaseSnoc(log[..j], log[j]);
    assert log[..j] + [log[j]] == log[..j + 1];
    b, r := ReadBackBefore(log, i, j);
  }

  lemma {:induction false} ReadBackBefore(log: seq<Event>, i: nat, j: nat) returns (b: nat, r: nat)
    requires i < j <= |log| && log[i].Claimed? && PhaseOf(log[..j]) == Free
    requires forall k :: i < k < j ==> !log[k].Claimed?
    ensures i < b < r < j && log[r] == Released(log[i].file) && log[b] == ReadBack(log[i].rate, log[i].state)
    ensures forall k :: b < k < j ==> !log[k].Wrote?
  {
    r := j - 1;
    var before := log[..r];
    assert log[..j][..r] == before;
    assert log[..j][r] == log[r];
    if r == i {
      assert false;
    }
    var c;
    c, b := Origin(before);
    assert before[i] == log[i] && before[c] == log[c];
    assert forall k :: b < k < r ==> before[k] == log[k];
  }

  // ----- the lease -----

  // What a property transfer brings back: an error, or a value, whatever it is.
  datatype Answer = Failed(why: Failure) | Value(value: nat)
  {
    function Status(): (s: Status)
      ensures s != Success && s != Busy && s != AccessDenied
    {
      match this
      case Failed(Unreadable) => IoError
      case Failed(TimedOut) => IoTimeout
      case _ => ProtocolError
    }
  }

  datatype Failure = Unreadable | TimedOut | Garbage

  // The firmware's answers to the transfers one request may make.
  datatype Firmware = Firmware(rate: Answer, state: Answer, minimum: Answer, maximum: Answer, written: Answer)

  class Lease {
    const id: nat
    var owner: Owner
    var abandoned: bool
    var baselineRate: nat
    var baselineState: nat
    ghost var log: seq<Event>

    ghost predicate Valid()
      reads this
    {
      && PhaseOf(log) == (if abandoned then Abandoned
                          else match owner
                               case Nobody => Free
                               case File(f) => Owned(f, baselineRate, baselineState, PhaseOf(log).Owned? && PhaseOf(log).back))
      && (abandoned ==> owner == Nobody)
    }

    constructor (clock: nat)
      ensures Valid() && id == clock && owner == Nobody && !abandoned && log == []
    {
      id := clock;
      owner, abandoned, baselineRate, baselineState := Nobody, false, 0, 0;
      log := [];
    }

    // Whatever other files do, a file's lease is its own.
    twostate predicate Kept(file: nat)
      reads this
    {
      old(owner == File(file)) ==>
        owner == File(file) && !abandoned && baselineRate == old(baselineRate) && baselineState == old(baselineState) && log == old(log)
    }

    // Nothing is claimed in a file's name but by itself.
    static predicate Unclaimed(file: nat, log: seq<Event>, from: nat) {
      forall k :: from <= k < |log| ==> !(log[k].Claimed? && log[k].file == file)
    }

    // Rate and, for a clock that can be switched, state.
    method ReadPair(fw: Firmware) returns (status: Status, rate: nat, state: nat)
      ensures status == PairStatus(fw)
      ensures status == Success ==> rate == fw.rate.value && state == PairState(fw)
    {
      rate, state := 0, 0;
      if fw.rate.Failed? {
        return fw.rate.Status(), rate, state;
      }
      rate := fw.rate.value;
      if id == 5 {
        if fw.state.Failed? {
          return fw.state.Status(), rate, state;
        }
        state := fw.state.value;
      }
      status := Success;
    }

    // What comes of reading both, and the state read: 0 for a clock without one.
    function PairStatus(fw: Firmware): (s: Status)
      ensures s == Success ==> fw.rate.Value? && (id == 5 ==> fw.state.Value?)
    {
      if fw.rate.Failed? then fw.rate.Status() else if id == 5 && fw.state.Failed? then fw.state.Status() else Success
    }

    function PairState(fw: Firmware): nat {
      if id == 5 && fw.state.Value? then fw.state.value else 0
    }

    predicate Acceptable(op: Operation, value: nat) {
      && (id == 3 || id == 5)
      && (op == Claim || op == Release ==> value == 0)
      && (op == SetState ==> id == 5 && value <= 1)
      && (op == SetRate ==> value != 0)
    }

    // Can the rate be asked for at all, by the limits the firmware gives?
    function RangeStatus(fw: Firmware, value: nat): Status {
      if fw.minimum.Failed? then fw.minimum.Status()
      else if fw.maximum.Failed? then fw.maximum.Status()
      else if fw.maximum.value == 0 || value < fw.minimum.value || value > fw.maximum.value then InvalidParameter
      else Success
    }

    // ClockControlLocked, whatever the firmware answers.
    method Control(file: nat, op: Operation, value: nat, online: bool, fw: Firmware) returns (status: Status, result: nat)
      requires Valid()
      modifies this
      ensures Valid() && old(log) <= log && abandoned == old(abandoned)
      // Another owner's lease is untouched.
      ensures old(owner).File? && old(owner) != File(file) ==>
                owner == old(owner) && abandoned == old(abandoned) && baselineRate == old(baselineRate) && baselineState == old(baselineState)
      ensures !Acceptable(op, value) ==> status == InvalidParameter && log == old(log)
      ensures Acceptable(op, value) && (!online || old(abandoned)) ==> status == (if !online then NotReady else HardwareError) && log == old(log)
      // Claim: the baseline is what the firmware reports now.
      ensures Acceptable(op, value) && online && !old(abandoned) && op == Claim ==>
                && status == (if old(owner) != Nobody then Busy
                              else if PairStatus(fw) != Success then PairStatus(fw)
                              else if fw.rate.value == 0 || PairState(fw) > 1 then ConfigurationError
                              else Success)
                && (status == Success ==>
                      && owner == File(file) && baselineRate == fw.rate.value && baselineState == PairState(fw)
                      && log == old(log) + [Claimed(file, baselineRate, baselineState)])
                && (status != Success ==> owner == old(owner) && log == old(log))
      ensures Acceptable(op, value) && online && !old(abandoned) && op != Claim && old(owner) != File(file) ==>
                status == AccessDenied && log == old(log)
      // Release: only with rate and state reading as they were found.
      ensures Acceptable(op, value) && online && old(owner) == File(file) && op == Release ==>
                && status == (if PairStatus(fw) != Success then PairStatus(fw)
                              else if fw.rate.value != old(baselineRate) || PairState(fw) != old(baselineState) then Busy
                              else Success)
                && owner == (if status == Success then Nobody else File(file))
                && baselineRate == old(baselineRate) && baselineState == old(baselineState)
                && log == old(log) + (if PairStatus(fw) == Success then [ReadBack(fw.rate.value, PairState(fw))] else [])
                                   + (if status == Success then [Released(file)] else [])
      // Set: a rate within the limits, and then a write whose answer decides.
      ensures Acceptable(op, value) && online && old(owner) == File(file) && (op == SetRate || op == SetState) ==>
                && owner == old(owner) && baselineRate == old(baselineRate) && baselineState == old(baselineState)
                && (op == SetRate && RangeStatus(fw, value) != Success ==> status == RangeStatus(fw, value) && log == old(log))
                && (op == SetState || RangeStatus(fw, value) == Success ==>
                      && log == old(log) + [Wrote(op, value)]
                      && (if fw.written.Failed? then status == fw.written.Status() else status == Success && result == fw.written.value))
      ensures status == Success ==> online && !old(abandoned)
    {
      hide PhaseOf;
      result := value;
      if (id != 3 && id != 5) || ((op == Claim || op == Release) && value != 0) ||
         (op == SetState && (id != 5 || value > 1)) || (op == SetRate && value == 0) {
        return InvalidParameter, result;
      }
      if !online {
        return NotReady, result;
      }
      if abandoned {
        return HardwareError, result;
      }
      if op == Claim {
        status := ClaimNow(file, fw);
        return;
      }
      if owner != File(file) {
        return AccessDenied, result;
      }
      if op == Release {
        status := ReleaseNow(file, fw);
        return;
      }
      if op == SetRate {
        if fw.minimum.Failed? {
          return fw.minimum.Status(), result;
        }
        if fw.maximum.Failed? {
          return fw.maximum.Status(), result;
        }
        if fw.maximum.value == 0 || fw.minimum.value > fw.maximum.value || value < fw.minimum.value || value > fw.maximum.value {
          return InvalidParameter, result;
        }
      }
      PhaseSnoc(log, Wrote(op, value));
      log := log + [Wrote(op, value)];
      if fw.written.Failed? {
        return fw.written.Status(), result;
      }
      status, result := Success, fw.written.value;
    }

    method ClaimNow(file: nat, fw: Firmware) returns (status: Status)
      requires Valid() && !abandoned
      modifies this
      ensures Valid() && !abandoned
      ensures status == if old(owner) != Nobody then Busy
                        else if PairStatus(fw) != Success then PairStatus(fw)
                        else if fw.rate.value == 0 || PairState(fw) > 1 then ConfigurationError
                        else Success
      ensures status == Success ==>
                && owner == File(file) && baselineRate == fw.rate.value && baselineState == PairState(fw)
                && log == old(log) + [Claimed(file, baselineRate, baselineState)]
      ensures status != Success ==> owner == old(owner) && log == old(log) && baselineRate == old(baselineRate) && baselineState == old(baselineState)
    {
      hide PhaseOf;
      if owner != Nobody {
        return Busy;
      }
      var rate, state;
      status, rate, state := ReadPair(fw);
      if status != Success {
        return;
      }
      if rate == 0 || state > 1 {
        return ConfigurationError;
      }
      PhaseSnoc(log, Claimed(file, rate, state));
      baselineRate, baselineState, owner := rate, state, File(file);
      log := log + [Claimed(file, rate, state)];
    }

    method ReleaseNow(file: nat, fw: Firmware) returns (status: Status)
      requires Valid() && !abandoned && owner == File(file)
      modifies this
      ensures Valid() && !abandoned && baselineRate == old(baselineRate) && baselineState == old(baselineState)
      ensures status == if PairStatus(fw) != Success then PairStatus(fw)
                        else if fw.rate.value != baselineRate || PairState(fw) != baselineState then Busy
                        else Success
      ensures owner == if status == Success then Nobody else File(file)
      ensures log == old(log) + (if PairStatus(fw) == Success then [ReadBack(fw.rate.value, PairState(fw))] else [])
                              + (if status == Success then [Released(file)] else [])
    {
      hide PhaseOf;
      var rate, state;
      status, rate, state := ReadPair(fw);
      if status != Success {
        return;
      }
      PhaseSnoc(log, ReadBack(rate, state));
      log := log + [ReadBack(rate, state)];
      if rate != baselineRate || state != baselineState {
        return Busy;
      }
      PhaseSnoc(log, Released(file));
      owner := Nobody;
      log := log + [Released(file)];
    }

    // ClockCleanup: a file that goes away owning the clock leaves it unusable.
    method Cleanup(file: nat)
      requires Valid()
      modifies this
      ensures Valid() && old(log) <= log
      ensures log == old(log) + if old(owner) == File(file) then [Lost] else []
      ensures if old(owner) == File(file) then abandoned && owner == Nobody else log == old(log) && owner == old(owner) && abandoned == old(abandoned)
      ensures old(owner).File? && old(owner) != File(file) ==>
                owner == old(owner) && abandoned == old(abandoned) && baselineRate == old(baselineRate) && baselineState == old(baselineState)
    {
      hide PhaseOf;
      if owner == File(file) {
        PhaseSnoc(log, Lost);
        owner, abandoned := Nobody, true;
        log := log + [Lost];
      }
    }

    // Any number of calls by files other than one.
    method Others(file: nat)
      requires Valid()
      modifies this
      ensures Valid() && old(log) <= log && Kept(file)
      ensures old(owner) != File(file) ==> owner != File(file)
      ensures Unclaimed(file, log, old(|log|))
    {
      hide PhaseOf;
      var calls: nat :| 0 <= calls;
      for k := 0 to calls
        invariant Valid() && old(log) <= log && Kept(file)
        invariant old(owner) != File(file) ==> owner != File(file)
        invariant Unclaimed(file, log, old(|log|))
      {
        var which: nat, op: Operation, value: nat, gone: bool, fw: Firmware :| true;
        var other := if which < file then which else which + 1;
        if gone {
          Cleanup(other);
        } else {
          var status, result := Control(other, op, value, true, fw);
        }
      }
    }
  }
}
