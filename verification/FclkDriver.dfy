// The firmware clock driver (pi5-fclk/driver.c): shared read-only leases on six
// clocks, one exclusive lease on the GPU's clock, and the processor's clock for
// itself. The mailbox driver (ClockLease) may be out of reach, and its replies
// may be lost or malformed.
module FclkDriver {
  import opened ClockLease

  const IDS: nat := 6
  const V3D: nat := 1

  // Which clocks each open file holds.
  type Held = map<nat, set<nat>>

  function Holders(held: Held, i: nat): set<nat> {
    set f | f in held && i in held[f]
  }

  function Of(held: Held, f: nat): set<nat> {
    if f in held then held[f] else {}
  }

  ghost predicate Counted(users: seq<nat>, held: Held) {
    |users| == IDS && forall i :: 0 <= i < IDS ==> users[i] == |Holders(held, i)|
  }

  lemma HoldersAdd(held: Held, f: nat, i: nat)
    requires i !in Of(held, f)
    ensures var after := held[f := Of(held, f) + {i}];
            && |Holders(after, i)| == |Holders(held, i)| + 1
            && forall j :: j != i ==> Holders(after, j) == Holders(held, j)
  {
    var after := held[f := Of(held, f) + {i}];
    assert Holders(after, i) == Holders(held, i) + {f};
    forall j | j != i
      ensures Holders(after, j) == Holders(held, j)
    {
      assert forall g :: g in Holders(after, j) <==> g in Holders(held, j);
    }
  }

  lemma HoldersRemove(held: Held, f: nat, i: nat)
    requires i in Of(held, f)
    ensures var after := held[f := Of(held, f) - {i}];
            && 0 < |Holders(held, i)| == |Holders(after, i)| + 1
            && forall j :: j != i ==> Holders(after, j) == Holders(held, j)
  {
    var after := held[f := Of(held, f) - {i}];
    assert Holders(after, i) == Holders(held, i) - {f} && f in Holders(held, i);
    forall j | j != i
      ensures Holders(after, j) == Holders(held, j)
    {
      assert forall g :: g in Holders(after, j) <==> g in Holders(held, j);
    }
  }

  predicate Unclear(s: Status) {
    s == IoTimeout || s == Cancelled || s == ProtocolError
  }

  // What the sender sees of a reply that times out, is cancelled or is malformed.
  function Garbled(which: nat): (s: Status)
    ensures Unclear(s) && s != Success
  {
    if which == 0 then IoTimeout else if which == 1 then Cancelled else ProtocolError
  }

  // What the driver does about a clock, in order: what it asks of the mailbox
  // driver, what it sees there, and what does not come off.
  datatype What = Rate | State | MinRate | MaxRate
  datatype Deed = Asked(op: Operation, value: nat) | Saw(what: What, value: nat) | Missed(why: Status) | Unread(what: What, why: Status)

  function Reply(what: What, s: Status, value: nat): Deed {
    if s == Success then Saw(what, value) else Unread(what, s)
  }

  function Request(op: Operation, value: nat, s: Status): seq<Deed> {
    [Asked(op, value)] + if s == Success then [] else [Missed(s)]
  }

  // The status that the last deed explains.
  function Blame(deeds: seq<Deed>, range: Status): Status
    requires deeds != []
  {
    match deeds[|deeds| - 1]
    case Missed(why) => why
    case Unread(_, why) => why
    case Saw(State, _) => ConfigurationError
    case _ => range
  }

  // A look that came to nothing: a reading failed, or makes no sense.
  predicate Upset(deeds: seq<Deed>) {
    deeds != [] &&
    var d := deeds[|deeds| - 1];
    || d.Missed? || d.Unread?
    || (d.Saw? && d.what == State && d.value > 1)
    || (d.Saw? && d.what == MaxRate && |deeds| == 4 && deeds[2].Saw? && 0 < d.value < deeds[2].value)
  }

  // A clock that does not go back: something failed, or reads otherwise.
  predicate NotBack(deeds: seq<Deed>, rate: nat, state: nat) {
    deeds != [] &&
    var d := deeds[|deeds| - 1];
    || d.Missed? || d.Unread?
    || (d.Saw? && d.what == Rate && rate != 0 && d.value != rate)
    || (d.Saw? && d.what == State && d.value != state)
  }

  // A claim that was refused, or that went back after a look came to nothing.
  ghost predicate ClaimFailed(deeds: seq<Deed>) {
    && |deeds| >= 2 && deeds[0] == Asked(Claim, 0)
    && ((|deeds| == 2 && deeds[1].Missed?) || exists k :: 1 < k < |deeds| && Upset(deeds[1..k]) && deeds[k..] == Request(Release, 0, WhyOf(deeds[k..])))
  }

  // Why the request that these deeds are did not come off.
  function WhyOf(deeds: seq<Deed>): Status {
    if |deeds| == 2 && deeds[1].Missed? then deeds[1].why else Success
  }

  predicate OutOfRange(value: nat, minimum: nat, maximum: nat) {
    value == 0 || value < minimum || value > maximum
  }

  // A request for the GPU's clock that was refused, or has gone wrong.
  predicate SetFailed(deeds: seq<Deed>, op: Operation, value: nat) {
    || (|deeds| <= 4 && Upset(deeds))
    || (|deeds| == 4 && deeds[2].Saw? && deeds[3].Saw? && op == SetRate && OutOfRange(value, deeds[2].value, deeds[3].value))
    || (|deeds| > 4 && deeds[2].Saw? && deeds[3].Saw? && TryFailed(deeds[4..], op, value, deeds[2].value, deeds[3].value))
  }

  predicate TryFailed(deeds: seq<Deed>, op: Operation, value: nat, minimum: nat, maximum: nat) {
    && |deeds| >= 2 && deeds[0] == Asked(op, value)
    && (|deeds| == 2 ==>
          || deeds[1].Missed? || deeds[1].Unread?
          || (op == SetRate && deeds[1].Saw? && deeds[1].what == Rate && OutOfRange(deeds[1].value, minimum, maximum))
          || (op == SetState && deeds[1].Saw? && deeds[1].what == State && deeds[1].value > 1))
    && (|deeds| > 2 ==> Upset(deeds[2..]))
  }

  // The processor's clock raised: the limits, the claim, the rate found, the
  // maximum asked for unless that was it, and a rate in range.
  predicate RaisedBy(deeds: seq<Deed>, baseline: nat) {
    && 3 <= |deeds| && deeds[0].Saw? && deeds[0].what == MinRate && deeds[1].Saw? && deeds[1].what == MaxRate
    && deeds[2] == Asked(Claim, 0)
    && RaiseBy(deeds[3..], deeds[0].value, deeds[1].value, baseline)
  }

  predicate RaiseBy(deeds: seq<Deed>, minimum: nat, maximum: nat, baseline: nat) {
    && 0 < baseline && minimum <= baseline <= maximum
    && |deeds| == (if baseline == maximum then 2 else 3)
    && deeds[0] == Saw(Rate, baseline)
    && (baseline != maximum ==> deeds[1] == Asked(SetRate, maximum))
    && var actual := deeds[|deeds| - 1]; actual.Saw? && actual.what == Rate && minimum <= actual.value <= maximum
  }

  // Something failed, or the rate was out of range.
  predicate RaiseFailed(deeds: seq<Deed>, minimum: nat, maximum: nat) {
    deeds != [] &&
    var d := deeds[|deeds| - 1];
    d.Missed? || d.Unread? || (d.Saw? && d.what == Rate && OutOfRange(d.value, minimum, maximum))
  }

  predicate LimitsFailed(deeds: seq<Deed>) {
    deeds != [] &&
    var d := deeds[|deeds| - 1];
    d.Missed? || d.Unread? || (|deeds| == 2 && deeds[0].Saw? && d.Saw? && (deeds[0].value == 0 || d.value < deeds[0].value))
  }

  // The claim failed, or what came after it, before the clock was handed back.
  ghost predicate TakeFailed(deeds: seq<Deed>, minimum: nat, maximum: nat) {
    && deeds != [] && deeds[0] == Asked(Claim, 0)
    && exists k :: 1 < k <= |deeds| && RaiseFailed(deeds[1..k], minimum, maximum)
  }

  function Look(rate: nat, state: nat, minimum: nat, maximum: nat): seq<Deed> {
    [Saw(State, state), Saw(Rate, rate), Saw(MinRate, minimum), Saw(MaxRate, maximum)]
  }

  // A clock put back: rate, if there was one, and state are set, and then both
  // are seen to be what they were.
  predicate PutBackBy(deeds: seq<Deed>, rate: nat, state: nat) {
    var n := if rate != 0 then 1 else 0;
    && |deeds| == n + 3
    && (rate != 0 ==> deeds[0] == Asked(SetRate, rate) && deeds[n + 1] == Saw(Rate, rate))
    && deeds[n] == Asked(SetState, state)
    && deeds[n + 1].Saw? && deeds[n + 1].what == Rate
    && deeds[n + 2] == Saw(State, state)
  }

  predicate ClaimedBy(deeds: seq<Deed>, rate: nat, state: nat) {
    |deeds| == 5 && deeds[0] == Asked(Claim, 0) && deeds[1] == Saw(State, state) && deeds[2] == Saw(Rate, rate)
  }

  // A look, the request, which lies within the limits seen, its effect, a look.
  predicate SetBy(deeds: seq<Deed>, op: Operation, value: nat) {
    && |deeds| == 10 && deeds[2].Saw? && deeds[3].Saw? && deeds[2].what == MinRate && deeds[3].what == MaxRate
    && (op == SetRate ==> 0 < value && deeds[2].value <= value <= deeds[3].value)
    && (op == SetState ==> value <= 1)
    && TriedBy(deeds[4..], op, value, deeds[2].value, deeds[3].value)
  }

  predicate TriedBy(deeds: seq<Deed>, op: Operation, value: nat, minimum: nat, maximum: nat) {
    && |deeds| == 6 && deeds[0] == Asked(op, value) && deeds[1].Saw?
    && (op == SetRate ==> deeds[1].what == Rate && 0 < deeds[1].value && minimum <= deeds[1].value <= maximum)
    && (op == SetState ==> deeds[1].what == State && deeds[1].value <= 1)
  }

  // A clock handed back: put back if it was changed, then released.
  predicate Handed(deeds: seq<Deed>, changed: bool, rate: nat, state: nat) {
    && deeds != [] && deeds[|deeds| - 1] == Asked(Release, 0)
    && if changed then PutBackBy(deeds[..|deeds| - 1], rate, state) else |deeds| == 1
  }

  class Driver {
    // The driver's own file at the mailbox, and the leases there.
    const file: nat
    const v3d: Lease
    const arm: Lease
    const users: array<nat>
    var held: Held
    var online: bool
    var claimed: bool
    var changed: bool
    var uncertain: bool
    var pinned: bool
    var baselineRate: nat
    var baselineState: nat
    var armBaseline: nat
    var armClaimed: bool
    var armChanged: bool
    var armReady: bool
    var armUncertain: bool
    // Some call to the mailbox driver has had an outcome that is not known, and
    // that no release, with its reading back, has settled since.
    ghost var unsure: bool
    ghost var deeds: seq<Deed>
    ghost var armDeeds: seq<Deed>
    ghost var armUnsure: bool

    predicate Busy()
      reads this`uncertain, this`claimed, this`armUncertain, users
    {
      uncertain || claimed || armUncertain || exists i :: 0 <= i < users.Length && users[i] != 0
    }

    ghost predicate Apart() {
      && users.Length == IDS && v3d != arm && v3d.id == 5 && arm.id == 3
    }

    // The GPU's clock: a single holder, whose lease at the mailbox is ours.
    ghost predicate GpuLease()
      requires users.Length == IDS
      reads this`uncertain, this`claimed, this`unsure, users, v3d
    {
      && v3d.Valid() && users[V3D] <= 1
      && (!uncertain ==> (claimed <==> users[V3D] == 1) && (claimed <==> v3d.owner == File(file)))
      && (unsure ==> uncertain)
    }

    ghost predicate ArmLease()
      reads this`armUncertain, this`armClaimed, this`armChanged, this`armReady, this`armUnsure, arm
    {
      && arm.Valid() && (!armUncertain ==> (armClaimed <==> arm.owner == File(file)))
      && (armUnsure ==> armUncertain)
      && (!armUncertain ==> (armClaimed <==> armReady) && (armChanged ==> armClaimed))
    }

    ghost predicate Valid()
      reads this, users, v3d, arm
    {
      Apart() && Counted(users[..], held) && GpuLease() && ArmLease() && (pinned <==> Busy())
    }

    constructor (own: nat, gpu: Lease, cpu: Lease)
      requires gpu != cpu && gpu.id == 5 && cpu.id == 3 && gpu.Valid() && cpu.Valid()
      requires gpu.owner != File(own) && cpu.owner != File(own)
      ensures Valid() && !uncertain && !claimed && held == map[] && v3d == gpu && arm == cpu && file == own && fresh(users)
    {
      file, v3d, arm := own, gpu, cpu;
      users := new nat[IDS](_ => 0);
      held := map[];
      online, claimed, changed, uncertain, pinned := false, false, false, false, false;
      armClaimed, armChanged, armReady, armUncertain, unsure, armUnsure := false, false, false, false, false, false;
      baselineRate, baselineState, armBaseline := 0, 0, 0;
      deeds, armDeeds := [], [];
    }

    method Pin()
      modifies this`pinned
      ensures pinned
    {
      if !pinned {
        pinned := true;
      }
    }

    method Unpin()
      modifies this`pinned
      ensures pinned == (old(pinned) && Busy())
    {
      var busy := IsBusy();
      if pinned && !busy {
        pinned := false;
      }
    }

    method IsBusy() returns (busy: bool)
      ensures busy <==> Busy()
    {
      if uncertain || claimed || armUncertain {
        return true;
      }
      for i := 0 to users.Length
        invariant forall k :: 0 <= k < i ==> users[k] == 0
      {
        if users[i] != 0 {
          return true;
        }
      }
      busy := false;
    }

    method Fault()
      modifies this`uncertain, this`pinned
      ensures uncertain && pinned
    {
      uncertain := true;
      Pin();
    }

    // One control request. It may not get there, and the reply may not come back;
    // `unknown` says that the mailbox driver may have acted on it all the same.
    method Send(l: Lease, op: Operation, value: nat) returns (status: Status, ghost unknown: bool, ghost reply: nat)
      requires l.Valid()
      modifies l
      ensures l.Valid() && old(l.log) <= l.log
      ensures status == Success ==> !unknown
      ensures status == Success && op == Claim ==> old(l.owner) != File(file) && l.owner == File(file) && NewClaim(old(|l.log|), l.log)
      ensures status == Success && op == Release ==> old(l.owner) == File(file) && l.owner != File(file)
      ensures (!unknown && status != Success) || op == SetRate || op == SetState ==> (l.owner == File(file) <==> old(l.owner) == File(file))
      ensures unknown && op == Claim ==> Unclear(status)
      // An outcome that counts as known is: refused, nothing has been done; granted,
      // what was asked for has been, and a state is echoed.
      ensures status != Success && !unknown ==> Lease.Unclaimed(file, l.log, old(|l.log|)) && (old(l.owner) == File(file) ==> l.log == old(l.log))
      ensures status == Success && (op == SetRate || op == SetState) ==> l.log == old(l.log) + [Wrote(op, value)] && (op == SetState ==> reply == value)
      ensures status == Success && op == Release ==> old(l.log) + [ReadBack(old(l.baselineRate), old(l.baselineState)), Released(file)] <= l.log
    {
      l.Others(file);
      var open: bool, sent: bool, lost: bool, up: bool, how: nat, fw: Firmware :| true;
      unknown, reply := false, 0;
      if !open {
        return Unavailable, unknown, reply;
      }
      if !sent {
        return Garbled(how), unknown, reply;
      }
      ghost var before := l.log;
      var result;
      status, result := l.Control(file, op, value, up, fw);
      reply := result;
      if lost || (status == Success && op == SetState && result != value) {
        status := Garbled(how);
        unknown := true;
      } else if status != Success && l.log != before {
        unknown := true;
      }
      l.Others(file);
    }

    // The log has grown by a claim of this driver.
    ghost predicate NewClaim(from: nat, log: seq<Event>) {
      exists k :: from <= k < |log| && log[k].Claimed? && log[k].file == file
    }

    method Control(op: Operation, value: nat) returns (status: Status)
      requires v3d.Valid()
      modifies v3d, this`unsure, this`deeds
      ensures v3d.Valid() && old(v3d.log) <= v3d.log && deeds == old(deeds) + Request(op, value, status)
      ensures old(unsure) ==> unsure
      ensures status == Success ==> unsure == old(unsure)
      ensures status == Success && op == Claim ==> old(v3d.owner) != File(file) && v3d.owner == File(file) && NewClaim(old(|v3d.log|), v3d.log)
      ensures status == Success && op == Release ==> old(v3d.owner) == File(file) && v3d.owner != File(file)
      ensures (!unsure && status != Success) || op == SetRate || op == SetState ==> (v3d.owner == File(file) <==> old(v3d.owner) == File(file))
      ensures unsure && !old(unsure) && op == Claim ==> Unclear(status)
    {
      ghost var unknown;
      ghost var reply;
      status, unknown, reply := Send(v3d, op, value);
      deeds := deeds + Request(op, value, status);
      unsure := unsure || unknown;
    }

    // Read-only queries, while other files go on with the lease.
    method Query(what: What) returns (status: Status, value: nat)
      requires v3d.Valid()
      modifies v3d, this`deeds
      ensures v3d.Valid() && old(v3d.log) <= v3d.log
      ensures v3d.owner == File(file) <==> old(v3d.owner) == File(file)
      ensures deeds == old(deeds) + [Reply(what, status, value)]
    {
      v3d.Others(file);
      var s: Status, v: nat :| true;
      status, value := s, v;
      deeds := deeds + [Reply(what, status, value)];
    }

    method Snapshot() returns (status: Status, rate: nat, state: nat, minimum: nat, maximum: nat)
      requires v3d.Valid()
      modifies v3d, this`deeds
      ensures v3d.Valid() && old(v3d.log) <= v3d.log
      ensures v3d.owner == File(file) <==> old(v3d.owner) == File(file)
      ensures status == Success ==> state <= 1 && (maximum == 0 || minimum <= maximum) && deeds == old(deeds) + Look(rate, state, minimum, maximum)
      ensures old(deeds) <= deeds && |deeds| <= |old(deeds)| + 4
      ensures status != Success ==> Upset(deeds[|old(deeds)|..]) && status == Blame(deeds, ProtocolError)
    {
      rate, minimum, maximum := 0, 0, 0;
      status, state := Query(State);
      if status == Success && state > 1 {
        status := ConfigurationError;
      }
      if status == Success {
        status, rate := Query(Rate);
      }
      if status == Success {
        status, minimum := Query(MinRate);
      }
      if status == Success {
        status, maximum := Query(MaxRate);
      }
      if status == Success && maximum != 0 && minimum > maximum {
        status := ProtocolError;
      }
    }

    // Restore, on the last release: the clock goes back as it was found and read
    // back, or the driver gives up on it for good.
    method Restore() returns (status: Status)
      requires Apart() && v3d.Valid() && (unsure ==> uncertain) && (!uncertain ==> claimed && v3d.owner == File(file))
      modifies v3d, this`unsure, this`deeds, this`uncertain, this`pinned, this`claimed, this`changed, this`baselineRate, this`baselineState
      ensures v3d.Valid() && old(v3d.log) <= v3d.log && old(deeds) <= deeds
      ensures status == Success ==> Handed(deeds[|old(deeds)|..], old(changed), old(baselineRate), old(baselineState))
      ensures old(uncertain) ==> deeds == old(deeds)
      ensures status != Success && !old(uncertain) ==> NotBack(deeds[|old(deeds)|..], old(baselineRate), old(baselineState))
      ensures status != Success ==> baselineRate == old(baselineRate) && baselineState == old(baselineState)
      ensures status == Success ==> !uncertain && !claimed && !unsure && v3d.owner != File(file) && pinned == old(pinned)
      ensures status != Success ==> uncertain && claimed == old(claimed) && (pinned || (old(uncertain) && pinned == old(pinned)))
      ensures old(uncertain) ==> status == HardwareError && v3d.log == old(v3d.log)
    {
      if uncertain {
        return HardwareError;
      }
      hide PutBackBy, NotBack;
      status := Success;
      if changed {
        status := PutBack();
      }
      ghost var put := deeds;
      if status == Success {
        status := Control(Release, 0);
        Returned(old(deeds), put, deeds, status, baselineRate, baselineState);
      }
      if status != Success {
        Fault();
        return;
      }
      claimed, changed, baselineRate, baselineState := false, false, 0, 0;
    }

    lemma Returned(before: seq<Deed>, put: seq<Deed>, after: seq<Deed>, s: Status, rate: nat, state: nat)
      requires before <= put && after == put + Request(Release, 0, s)
      ensures s == Success && put == before ==> Handed(after[|before|..], false, rate, state)
      ensures s == Success && PutBackBy(put[|before|..], rate, state) ==> Handed(after[|before|..], true, rate, state)
      ensures s != Success ==> NotBack(after[|before|..], rate, state)
    {
      hide PutBackBy;
      var ds := after[|before|..];
      assert s == Success ==> ds == put[|before|..] + [Asked(Release, 0)] && ds[..|ds| - 1] == put[|before|..];
    }

    // Set the rate and the state that were found, and read both back.
    method PutBack() returns (status: Status)
      requires v3d.Valid()
      modifies v3d, this`unsure, this`deeds
      ensures v3d.Valid() && old(v3d.log) <= v3d.log && (old(unsure) ==> unsure) && old(deeds) <= deeds
      ensures status == Success ==> unsure == old(unsure) && PutBackBy(deeds[|old(deeds)|..], baselineRate, baselineState)
      ensures status != Success ==> NotBack(deeds[|old(deeds)|..], baselineRate, baselineState)
      // A request that fails is reported as it is, and a clock that does not read
      // back as a broken protocol.
      ensures status != Success ==>
                |deeds| > |old(deeds)| + 1 && status == if deeds[|deeds| - 1].Missed? then deeds[|deeds| - 1].why else ProtocolError
      ensures v3d.owner == File(file) <==> old(v3d.owner) == File(file)
    {
      if baselineRate != 0 {
        status := Control(SetRate, baselineRate);
        if status != Success {
          return;
        }
      }
      status := Control(SetState, baselineState);
      if status != Success {
        return;
      }
      var value;
      status, value := Query(Rate);
      if status != Success || (baselineRate != 0 && value != baselineRate) {
        return ProtocolError;
      }
      status, value := Query(State);
      if status != Success || value != baselineState {
        return ProtocolError;
      }
    }

    // Acquire. The GPU's clock goes to one file at a time, each time by a claim
    // of its own at the mailbox; nothing is granted once an outcome is uncertain.
    method Acquire(f: nat, i: nat) returns (status: Status)
      requires Valid() && i < IDS
      modifies this, users, v3d
      ensures Valid() && old(v3d.log) <= v3d.log && old(deeds) <= deeds
      ensures old(uncertain) ==> uncertain
      ensures i in Of(old(held), f) ==> held == old(held) && uncertain == old(uncertain)
      // What is refused, and why.
      ensures i in Of(old(held), f) && status != Success ==> Upset(deeds[|old(deeds)|..]) && status == Blame(deeds, ProtocolError)
      ensures i !in Of(old(held), f) && status != Success ==>
                if old(uncertain) then status == HardwareError
                else if i != V3D then Upset(deeds[|old(deeds)|..]) && status == Blame(deeds, ProtocolError)
                else if old(users[V3D]) != 0 then status == Status.Busy
                else ClaimFailed(deeds[|old(deeds)|..])
      ensures uncertain && !old(uncertain) ==>
                i == V3D && ClaimFailed(deeds[|old(deeds)|..]) && deeds[|deeds| - 1].Missed?
      ensures status != Success ==> held == old(held) && users[..] == old(users[..])
      ensures status == Success && i !in Of(old(held), f) ==>
                && !uncertain && held == old(held)[f := Of(old(held), f) + {i}]
                && (i == V3D ==> old(users[V3D]) == 0 && claimed && !changed && NewClaim(old(|v3d.log|), v3d.log)
                                 && ClaimedBy(deeds[|old(deeds)|..], baselineRate, baselineState))
    {
      hide Counted, ArmLease, Lease.Valid;
      var rate, state, minimum, maximum;
      if i in Of(held, f) {
        status, rate, state, minimum, maximum := Snapshot();
        return;
      }
      if uncertain {
        return HardwareError;
      }
      if i == V3D {
        if users[i] != 0 {
          return Status.Busy;
        }
        status := ClaimClock();
        if status != Success {
          return;
        }
      } else {
        status, rate, state, minimum, maximum := Snapshot();
        if status != Success {
          return;
        }
      }
      CountUp(users[..], held, f, i);
      ghost var before := users[..];
      users[i] := users[i] + 1;
      assert users[..] == before[i := before[i] + 1];
      held := held[f := Of(held, f) + {i}];
      Pin();
    }

    // Claim the GPU's clock at the mailbox and remember what it was like.
    method ClaimClock() returns (status: Status)
      requires Valid() && !uncertain && users[V3D] == 0
      modifies v3d, this`unsure, this`deeds, this`uncertain, this`pinned, this`claimed, this`changed, this`baselineRate, this`baselineState
      ensures Apart() && v3d.Valid() && old(v3d.log) <= v3d.log && old(deeds) <= deeds
      // The baseline is what was seen right after the claim.
      ensures status == Success ==> ClaimedBy(deeds[|old(deeds)|..], baselineRate, baselineState)
      ensures status == Success ==> !uncertain && !unsure && claimed && pinned && !changed && v3d.owner == File(file) && NewClaim(old(|v3d.log|), v3d.log)
      ensures status != Success ==> Valid() && ClaimFailed(deeds[|old(deeds)|..])
      // An uncertain outcome is one of the claim itself, or of handing it back.
      ensures status != Success ==>
                (uncertain <==> deeds[|deeds| - 1].Missed? && (|deeds| == |old(deeds)| + 2 ==> Unclear(status)))
    {
      hide Counted, ArmLease, Lease.Valid, Upset;
      status := Control(Claim, 0);
      if status != Success {
        if Unclear(status) {
          Fault();
        }
        return;
      }
      claimed := true;
      Pin();
      var rate, state, minimum, maximum;
      ghost var claim := deeds;
      status, rate, state, minimum, maximum := Snapshot();
      if status != Success {
        ghost var looked := deeds;
        Unclaim();
        WentBack(old(deeds), claim, looked, deeds);
        return;
      }
      baselineRate, baselineState, changed := rate, state, false;
    }

    lemma WentBack(before: seq<Deed>, claim: seq<Deed>, looked: seq<Deed>, after: seq<Deed>)
      requires claim == before + [Asked(Claim, 0)] && claim <= looked && looked != claim && Upset(looked[|claim|..])
      requires looked <= after && after[|looked|..] == Request(Release, 0, WhyOf(after[|looked|..]))
      ensures ClaimFailed(after[|before|..])
    {
      hide Upset;
      var ds, k := after[|before|..], |looked| - |before|;
      assert ds[1..k] == looked[|claim|..];
      assert ds[k..] == after[|looked|..];
    }

    // A claim whose first look failed goes back, or is uncertain.
    method Unclaim()
      requires Apart() && Counted(users[..], held) && ArmLease() && v3d.Valid() && !uncertain && !unsure && users[V3D] == 0
      requires claimed && pinned && v3d.owner == File(file)
      modifies v3d, this`unsure, this`deeds, this`uncertain, this`pinned, this`claimed
      ensures Valid() && old(v3d.log) <= v3d.log && old(deeds) <= deeds && (uncertain || !claimed)
      ensures deeds[|old(deeds)|..] == Request(Release, 0, WhyOf(deeds[|old(deeds)|..])) && (uncertain <==> deeds[|deeds| - 1].Missed?)
    {
      hide Counted, ArmLease, Lease.Valid;
      var released := Control(Release, 0);
      if released != Success {
        Fault();
      } else {
        claimed := false;
      }
      Unpin();
    }

    // ReleaseLease. The last release of the GPU's clock hands it back as it was
    // found, or keeps it, uncertain.
    method ReleaseLease(f: nat, i: nat) returns (status: Status)
      requires Valid() && i < IDS
      modifies this, users, v3d
      ensures Valid() && old(v3d.log) <= v3d.log && old(deeds) <= deeds
      ensures status == Success && i == V3D ==> Handed(deeds[|old(deeds)|..], old(changed), old(baselineRate), old(baselineState))
      ensures i != V3D || i !in Of(old(held), f) || old(uncertain) ==> deeds == old(deeds)
      ensures status == Success ==> i in Of(old(held), f) && held == old(held)[f := Of(old(held), f) - {i}]
      ensures status == Success && i == V3D ==> !uncertain && !claimed && v3d.owner != File(file)
      ensures status != Success ==> held == old(held) && users[..] == old(users[..])
      ensures i !in Of(old(held), f) ==> status == InvalidParameter && uncertain == old(uncertain)
      ensures i in Of(old(held), f) && i != V3D ==> status == Success && uncertain == old(uncertain)
      ensures i in Of(old(held), f) && i == V3D && status != Success ==>
                uncertain && (old(uncertain) || NotBack(deeds[|old(deeds)|..], baselineRate, baselineState))
    {
      hide Counted, ArmLease, Lease.Valid;
      if i !in Of(held, f) {
        return InvalidParameter;
      }
      status := Success;
      CountDown(users[..], held, f, i);
      if i == V3D && users[i] == 1 {
        status := Restore();
      }
      if status != Success {
        return;
      }
      Drop(f, i);
      Unpin();
    }

    method Drop(f: nat, i: nat)
      requires users.Length == IDS && Counted(users[..], held) && i < IDS && i in Of(held, f)
      modifies users, this`held
      ensures Counted(users[..], held) && users[..] == old(users[..])[i := users[i]] && users[i] + 1 == old(users[i])
      ensures held == old(held)[f := Of(old(held), f) - {i}]
    {
      hide Counted;
      CountDown(users[..], held, f, i);
      ghost var before := users[..];
      users[i] := users[i] - 1;
      assert users[..] == before[i := before[i] - 1];
      held := held[f := Of(held, f) - {i}];
    }

    // What holds between the steps of a cleanup.
    ghost predicate Settling()
      reads this, users, v3d, arm
    {
      Apart() && Counted(users[..], held) && GpuLease() && ArmLease() && (Busy() ==> pinned)
    }

    // FclkCleanup: a file that goes away drops all it holds. If it had changed the
    // GPU's clock, nobody may trust that clock again.
    method Cleanup(f: nat)
      requires Valid()
      modifies this, users, v3d
      ensures Valid() && old(v3d.log) <= v3d.log && old(deeds) <= deeds
      ensures forall i :: 0 <= i < IDS ==> i !in Of(held, f)
      ensures forall g :: g != f ==> Of(held, g) == Of(old(held), g)
      ensures V3D in Of(old(held), f) && old(changed) ==> uncertain
      ensures V3D in Of(old(held), f) && !uncertain ==> !claimed && v3d.owner != File(file)
      ensures V3D !in Of(old(held), f) ==> uncertain == old(uncertain) && claimed == old(claimed) && deeds == old(deeds)
      ensures uncertain && !old(uncertain) ==> old(changed) || NotBack(deeds[|old(deeds)|..], old(baselineRate), old(baselineState))
    {
      hide Counted;
      for i := 0 to IDS
        invariant Settling() && old(v3d.log) <= v3d.log && old(deeds) <= deeds
        invariant forall k :: k in Of(held, f) <==> k in Of(old(held), f) && i <= k
        invariant forall g :: g != f ==> Of(held, g) == Of(old(held), g)
        invariant i <= V3D || V3D !in Of(old(held), f) ==>
                    && uncertain == old(uncertain) && claimed == old(claimed) && changed == old(changed)
                    && deeds == old(deeds) && baselineRate == old(baselineRate) && baselineState == old(baselineState)
        invariant uncertain && !old(uncertain) ==> old(changed) || NotBack(deeds[|old(deeds)|..], old(baselineRate), old(baselineState))
        invariant i > V3D && V3D in Of(old(held), f) ==> (old(changed) ==> uncertain) && (uncertain || (!claimed && v3d.owner != File(file)))
      {
        if i in Of(held, f) {
          CleanupOne(f, i);
        }
      }
      Unpin();
    }

    method CleanupOne(f: nat, i: nat)
      requires Settling() && i < IDS && i in Of(held, f)
      modifies this, users, v3d
      ensures Settling() && old(v3d.log) <= v3d.log && old(deeds) <= deeds
      ensures held == old(held)[f := Of(old(held), f) - {i}]
      ensures i != V3D ==>
                && uncertain == old(uncertain) && claimed == old(claimed) && changed == old(changed) && v3d.owner == old(v3d.owner)
                && deeds == old(deeds) && baselineRate == old(baselineRate) && baselineState == old(baselineState)
      ensures uncertain && !old(uncertain) ==> old(changed) || NotBack(deeds[|old(deeds)|..], old(baselineRate), old(baselineState))
      ensures i == V3D ==> (old(changed) ==> uncertain) && (uncertain || (!claimed && v3d.owner != File(file)))
    {
      hide Counted;
      CountDown(users[..], held, f, i);
      if i == V3D && !uncertain {
        if changed {
          // The consumer may still be using the clock.
          Fault();
        } else {
          var status := Restore();
          if status != Success {
            Fault();
          }
        }
      }
      Drop(f, i);
    }

    // SET_RATE and SET_STATE. From the moment the write is tried the clock counts
    // as changed; if anything goes wrong after that, it is uncertain.
    method SetClock(f: nat, op: Operation, value: nat) returns (status: Status)
      requires Valid() && (op == SetRate || op == SetState)
      modifies v3d, this`unsure, this`deeds, this`changed, this`uncertain, this`pinned
      ensures Valid() && old(v3d.log) <= v3d.log && old(deeds) <= deeds
      ensures V3D !in Of(held, f) || old(uncertain) || (op == SetState && value > 1) ==>
                && v3d.log == old(v3d.log) && changed == old(changed) && deeds == old(deeds) && uncertain == old(uncertain)
                && status == if V3D !in Of(held, f) then AccessDenied else if old(uncertain) then HardwareError else InvalidParameter
      ensures V3D in Of(held, f) && !old(uncertain) && !(op == SetState && value > 1) && status != Success ==>
                && SetFailed(deeds[|old(deeds)|..], op, value)
                && status == if |deeds| == |old(deeds)| + 4 && !Upset(deeds[|old(deeds)|..]) then InvalidParameter else Blame(deeds, ProtocolError)
      ensures uncertain && !old(uncertain) ==> changed && |deeds| > |old(deeds)| + 4
      ensures status == Success ==> !uncertain && changed && SetBy(deeds[|old(deeds)|..], op, value)
      ensures changed && !old(changed) && status != Success ==> uncertain
      ensures old(changed) ==> changed
    {
      hide Counted, ArmLease, Lease.Valid;
      OneHolder();
      if V3D !in Of(held, f) || users[V3D] != 1 {
        return AccessDenied;
      }
      if uncertain {
        return HardwareError;
      }
      if op == SetState && value > 1 {
        return InvalidParameter;
      }
      var rate, state, minimum, maximum;
      status, rate, state, minimum, maximum := Snapshot();
      if status != Success {
        return;
      }
      if op == SetRate && (value == 0 || maximum == 0 || value < minimum || value > maximum) {
        return InvalidParameter;
      }
      changed := true;
      ghost var before := deeds;
      status := TrySet(op, value, minimum, maximum);
      assert deeds[|old(deeds)|..][4..] == deeds[|before|..];
      if status != Success {
        Fault();
      }
    }

    // Whoever holds the GPU's clock holds it alone.
    lemma OneHolder()
      requires Valid()
      ensures forall g :: V3D in Of(held, g) ==> users[V3D] == 1
    {
      forall g | V3D in Of(held, g)
        ensures users[V3D] == 1
      {
        assert g in Holders(held, V3D);
      }
    }

    lemma TriedWhole(before: seq<Deed>, after: seq<Deed>, op: Operation, value: nat, actual: nat, look: seq<Deed>, minimum: nat, maximum: nat)
      requires |look| == 4 && after == before + [Asked(op, value)] + [Saw(if op == SetRate then Rate else State, actual)] + look
      requires if op == SetRate then !OutOfRange(actual, minimum, maximum) else actual <= 1
      ensures TriedBy(after[|before|..], op, value, minimum, maximum)
    {
      assert after[|before|..] == [Asked(op, value)] + [Saw(if op == SetRate then Rate else State, actual)] + look;
    }

    // The request, its effect, and a last look.
    method TrySet(op: Operation, value: nat, minimum: nat, maximum: nat) returns (status: Status)
      requires v3d.Valid() && (op == SetRate || op == SetState)
      modifies v3d, this`unsure, this`deeds
      ensures v3d.Valid() && old(v3d.log) <= v3d.log && old(deeds) <= deeds
      ensures v3d.owner == File(file) <==> old(v3d.owner) == File(file)
      ensures status == Success ==> unsure == old(unsure) && TriedBy(deeds[|old(deeds)|..], op, value, minimum, maximum)
      ensures status != Success ==> TryFailed(deeds[|old(deeds)|..], op, value, minimum, maximum) && status == Blame(deeds, ProtocolError)
    {
      hide Lease.Valid, TriedBy;
      var rate, state, low, high, actual;
      status := Control(op, value);
      if status == Success {
        status, actual := Query(if op == SetRate then Rate else State);
        if status == Success && op == SetRate && (actual == 0 || actual < minimum || actual > maximum) {
          status := ProtocolError;
        } else if status == Success && op == SetState && actual > 1 {
          status := ConfigurationError;
        }
      }
      if status == Success {
        status, rate, state, low, high := Snapshot();
        if status == Success {
          TriedWhole(old(deeds), deeds, op, value, actual, Look(rate, state, low, high), minimum, maximum);
        }
      }
    }

    // ----- the processor's clock -----

    method ArmControl(op: Operation, value: nat) returns (status: Status)
      requires arm.Valid()
      modifies arm, this`armUnsure, this`armDeeds
      ensures arm.Valid() && (old(armUnsure) ==> armUnsure) && armDeeds == old(armDeeds) + Request(op, value, status)
      ensures status == Success ==> armUnsure == old(armUnsure)
      ensures status == Success && op == Claim ==> arm.owner == File(file)
      ensures status == Success && op == Release ==> arm.owner != File(file)
      ensures (!armUnsure && status != Success) || op == SetRate ==> (arm.owner == File(file) <==> old(arm.owner) == File(file))
      ensures armUnsure && !old(armUnsure) && op == Claim ==> Unclear(status)
    {
      ghost var unknown;
      ghost var reply;
      status, unknown, reply := Send(arm, op, value);
      armDeeds := armDeeds + Request(op, value, status);
      armUnsure := armUnsure || unknown;
    }

    method ArmQuery(what: What) returns (status: Status, value: nat)
      requires arm.Valid()
      modifies arm, this`armDeeds
      ensures arm.Valid() && (arm.owner == File(file) <==> old(arm.owner) == File(file))
      ensures armDeeds == old(armDeeds) + [Reply(what, status, value)]
    {
      arm.Others(file);
      var s: Status, v: nat :| true;
      status, value := s, v;
      armDeeds := armDeeds + [Reply(what, status, value)];
    }

    method ArmRestore() returns (status: Status)
      requires Apart() && arm.Valid() && (!armUncertain ==> (armClaimed <==> arm.owner == File(file))) && (armUnsure && !armUncertain ==> armClaimed) && (!armUncertain && !armClaimed ==> !armReady && !armChanged)
      modifies arm, this`armUnsure, this`armDeeds, this`armUncertain, this`pinned, this`armClaimed, this`armChanged, this`armReady
      ensures status == Success && old(armClaimed) ==>
                armDeeds == old(armDeeds) + (if old(armChanged) then [Asked(SetRate, armBaseline)] else []) + [Asked(Release, 0)]
      ensures status != Success && !old(armUncertain) ==> |armDeeds| > |old(armDeeds)| && armDeeds[|armDeeds| - 1] == Missed(status)
      ensures old(armUncertain) ==> status == HardwareError
      ensures old(armDeeds) <= armDeeds && (old(armUncertain) || !old(armClaimed) ==> armDeeds == old(armDeeds))
      ensures ArmLease() && armUncertain == (old(armUncertain) || (status != Success && old(armClaimed)))
      ensures status == Success ==> !armUncertain && !armClaimed && arm.owner != File(file)
      ensures pinned == (old(pinned) || (armUncertain && !old(armUncertain)))
    {
      if armUncertain {
        return HardwareError;
      }
      if !armClaimed {
        return Success;
      }
      status := Success;
      if armChanged {
        status := ArmControl(SetRate, armBaseline);
      }
      if status == Success {
        status := ArmControl(Release, 0);
      }
      if status != Success {
        armUncertain := true;
        Pin();
        return;
      }
      armClaimed, armChanged, armReady := false, false, false;
      armUnsure := false;
    }

    // ArmStart: claim, raise to the maximum, check; or undo, or give up.
    method ArmStart() returns (status: Status)
      requires Valid()
      modifies arm, this`armUnsure, this`armDeeds, this`armUncertain, this`pinned, this`armClaimed, this`armChanged, this`armReady, this`armBaseline
      ensures Valid()
      ensures old(armDeeds) <= armDeeds && (old(armUncertain) || old(armReady) ==> armDeeds == old(armDeeds))
      ensures old(armUncertain) ==> status == HardwareError && armUncertain
      ensures status == Success ==> !armUncertain && armReady && armClaimed
      ensures status == Success && !old(armReady) ==>
                RaisedBy(armDeeds[|old(armDeeds)|..], armBaseline) && armChanged == (armBaseline != armDeeds[|old(armDeeds)| + 1].value)
      ensures status != Success ==> armClaimed ==> armUncertain
      ensures status != Success && !old(armUncertain) ==>
                var ds := armDeeds[|old(armDeeds)|..];
                LimitsFailed(ds) || (|ds| > 2 && ds[0].Saw? && ds[1].Saw? && TakeFailed(ds[2..], ds[0].value, ds[1].value))
    {
      hide Counted, GpuLease, Lease.Valid, TakeFailed, RaiseBy;
      if armUncertain {
        return HardwareError;
      }
      if armReady {
        return Success;
      }
      var minimum, maximum;
      status, minimum, maximum := ArmLimits();
      if status == Success {
        ghost var limits := armDeeds;
        status := ArmTake(minimum, maximum);
        ghost var ds := armDeeds[|old(armDeeds)|..];
        assert ds[2..] == armDeeds[|limits|..];
        assert ds[3..] == armDeeds[|limits| + 1..];
      }
    }

    method ArmLimits() returns (status: Status, minimum: nat, maximum: nat)
      requires arm.Valid()
      modifies arm, this`armDeeds
      ensures arm.Valid() && (arm.owner == File(file) <==> old(arm.owner) == File(file))
      ensures status == Success ==> 0 < minimum <= maximum && armDeeds == old(armDeeds) + [Saw(MinRate, minimum), Saw(MaxRate, maximum)]
      ensures status != Success ==> old(armDeeds) <= armDeeds && LimitsFailed(armDeeds[|old(armDeeds)|..]) && status == Blame(armDeeds, ConfigurationError)
    {
      hide Lease.Valid;
      maximum := 0;
      status, minimum := ArmQuery(MinRate);
      if status == Success {
        status, maximum := ArmQuery(MaxRate);
      }
      if status == Success && (minimum == 0 || minimum > maximum) {
        status := ConfigurationError;
      }
    }

    method ArmTake(minimum: nat, maximum: nat) returns (status: Status)
      requires Valid() && !armUncertain && !armClaimed && 0 < minimum <= maximum
      modifies arm, this`armUnsure, this`armDeeds, this`armUncertain, this`pinned, this`armClaimed, this`armChanged, this`armReady, this`armBaseline
      ensures Valid() && old(armDeeds) <= armDeeds && |armDeeds| > |old(armDeeds)| + 1
      ensures status == Success ==>
                && !armUncertain && armReady && armClaimed
                && armDeeds[|old(armDeeds)|] == Asked(Claim, 0)
                && RaiseBy(armDeeds[|old(armDeeds)| + 1..], minimum, maximum, armBaseline)
                && armChanged == (armBaseline != maximum)
      ensures status != Success ==> (armClaimed ==> armUncertain) && TakeFailed(armDeeds[|old(armDeeds)|..], minimum, maximum)
    {
      hide Counted, GpuLease, Lease.Valid, RaiseBy, RaiseFailed, TakeFailed;
      status := ArmControl(Claim, 0);
      if status != Success {
        ClaimRefused(old(armDeeds), armDeeds, status, minimum, maximum);
        if Unclear(status) {
          armUncertain := true;
          Pin();
        }
        return;
      }
      armClaimed := true;
      ghost var claim := armDeeds;
      ghost var raised;
      status, raised := ArmWork(minimum, maximum);
      if status != Success {
        RaiseUndone(old(armDeeds), claim, raised, armDeeds, minimum, maximum);
      }
    }

    // With the clock claimed: raise it, or hand it back. `raised` is what had been
    // done before it was handed back.
    method ArmWork(minimum: nat, maximum: nat) returns (status: Status, ghost raised: seq<Deed>)
      requires Apart() && Counted(users[..], held) && GpuLease() && (pinned <==> Busy()) && arm.Valid() && arm.owner == File(file)
      requires !armUncertain && !armUnsure && armClaimed && !armReady && !armChanged && 0 < minimum <= maximum
      modifies arm, this`armUnsure, this`armDeeds, this`armUncertain, this`pinned, this`armClaimed, this`armChanged, this`armReady, this`armBaseline
      ensures Valid() && old(armDeeds) <= raised <= armDeeds && |raised| > |old(armDeeds)|
      ensures status == Success ==>
                && !armUncertain && armReady && armClaimed && raised == armDeeds
                && RaiseBy(armDeeds[|old(armDeeds)|..], minimum, maximum, armBaseline) && armChanged == (armBaseline != maximum)
      ensures status != Success ==> (armClaimed ==> armUncertain) && RaiseFailed(raised[|old(armDeeds)|..], minimum, maximum)
      ensures status != Success ==>
                if armUncertain then armDeeds[|armDeeds| - 1] == Missed(status)
                else status == Blame(raised, if |raised| == |old(armDeeds)| + 1 then ConfigurationError else ProtocolError)
    {
      hide Counted, GpuLease, Lease.Valid, RaiseBy, RaiseFailed;
      status := ArmRaise(minimum, maximum);
      raised := armDeeds;
      if status == Success {
        armReady := true;
        return;
      }
      var restored := ArmRestore();
      if restored != Success {
        status := restored;
      }
    }

    lemma ClaimRefused(before: seq<Deed>, after: seq<Deed>, why: Status, minimum: nat, maximum: nat)
      requires why != Success && after == before + Request(Claim, 0, why)
      ensures TakeFailed(after[|before|..], minimum, maximum)
    {
      var ds := after[|before|..];
      assert ds == [Asked(Claim, 0), Missed(why)];
      assert ds[1..2] == [Missed(why)];
    }

    lemma RaiseUndone(before: seq<Deed>, claim: seq<Deed>, raised: seq<Deed>, after: seq<Deed>, minimum: nat, maximum: nat)
      requires claim == before + [Asked(Claim, 0)] && claim <= raised <= after && raised != claim
      requires RaiseFailed(raised[|claim|..], minimum, maximum)
      ensures TakeFailed(after[|before|..], minimum, maximum)
    {
      hide RaiseFailed;
      var ds, k := after[|before|..], |raised| - |before|;
      assert ds[1..k] == raised[|claim|..];
    }

    method ArmRaise(minimum: nat, maximum: nat) returns (status: Status)
      requires arm.Valid() && armClaimed && arm.owner == File(file) && (armUnsure ==> armUncertain) && 0 < minimum <= maximum
      modifies arm, this`armUnsure, this`armDeeds, this`armChanged, this`armBaseline
      ensures arm.Valid() && arm.owner == File(file) && old(armDeeds) <= armDeeds
      // The maximum is asked for unless it was found, and then seen to be in range.
      ensures status == Success ==>
                RaiseBy(armDeeds[|old(armDeeds)|..], minimum, maximum, armBaseline) && armChanged == (old(armChanged) || armBaseline != maximum)
      ensures |armDeeds| > |old(armDeeds)|
      ensures status != Success ==>
                && RaiseFailed(armDeeds[|old(armDeeds)|..], minimum, maximum)
                && status == Blame(armDeeds, if |armDeeds| == |old(armDeeds)| + 1 then ConfigurationError else ProtocolError)
      ensures status == Success ==> armUnsure == old(armUnsure)
      ensures armUnsure ==> old(armUnsure) || status != Success
    {
      status, armBaseline := ArmQuery(Rate);
      if status == Success && (armBaseline == 0 || armBaseline < minimum || armBaseline > maximum) {
        status := ConfigurationError;
      }
      if status == Success && armBaseline != maximum {
        armChanged := true;
        status := ArmControl(SetRate, maximum);
      }
      var actual;
      if status == Success {
        status, actual := ArmQuery(Rate);
        assert armDeeds[|old(armDeeds)|..] ==
               [Saw(Rate, armBaseline)] + (if armBaseline == maximum then [] else [Asked(SetRate, maximum)]) + [Reply(Rate, status, actual)];
        if status == Success && (actual < minimum || actual > maximum) {
          status := ProtocolError;
        }
      }
    }

    // ----- stopping -----

    // FclkQueryStop and FclkQueryRemove.
    method QueryStop() returns (status: Status)
      requires Valid()
      ensures status == Success <==> !pinned
    {
      hide Counted;
      var busy := IsBusy();
      status := if busy then Status.Busy else Success;
    }

    // FclkStop: either everything is handed back, or the driver stays online.
    method Stop() returns (status: Status)
      requires Valid()
      modifies arm, this`online, this`armUnsure, this`armDeeds, this`armUncertain, this`pinned, this`armClaimed, this`armChanged, this`armReady
      ensures Valid() && (online <==> status != Success)
      ensures status == Success ==> !pinned && !armClaimed && v3d.owner != File(file) && arm.owner != File(file)
      ensures status == Success ==>
                armDeeds == old(armDeeds) + if !old(armClaimed) then [] else (if old(armChanged) then [Asked(SetRate, armBaseline)] else []) + [Asked(Release, 0)]
      // It refuses what is in use, and what it cannot hand back.
      ensures old(pinned) ==> status == Status.Busy && armDeeds == old(armDeeds)
      ensures !old(pinned) && status != Success ==> armUncertain && |armDeeds| > |old(armDeeds)| && armDeeds[|armDeeds| - 1].Missed?
    {
      hide Counted, Lease.Valid;
      online := false;
      var busy := IsBusy();
      status := if busy then Status.Busy else Success;
      if status == Success {
        status := ArmRestore();
      }
      if status != Success {
        online := true;
      }
    }

    // FclkReleaseHardware closes the mailbox only when that file owns no clock,
    // so closing it leaves none abandoned.
    method ReleaseHardware() returns (status: Status)
      requires Valid()
      modifies v3d, arm
      ensures Valid()
      ensures status == if pinned || armClaimed then Status.Busy else Success
      ensures v3d.log == old(v3d.log) && arm.log == old(arm.log)
    {
      hide Counted;
      var busy := IsBusy();
      if busy || armClaimed {
        return Status.Busy;
      }
      v3d.Cleanup(file);
      arm.Cleanup(file);
      status := Success;
    }
  }

  lemma CountUp(users: seq<nat>, held: Held, f: nat, i: nat)
    requires Counted(users, held) && i < IDS && i !in Of(held, f)
    ensures Counted(users[i := users[i] + 1], held[f := Of(held, f) + {i}])
  {
    HoldersAdd(held, f, i);
  }

  lemma CountDown(users: seq<nat>, held: Held, f: nat, i: nat)
    requires Counted(users, held) && i < IDS && i in Of(held, f)
    ensures 0 < users[i] && Counted(users[i := users[i] - 1], held[f := Of(held, f) - {i}])
  {
    HoldersRemove(held, f, i);
  }
}
