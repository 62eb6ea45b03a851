// Interrupts of the GEM Ethernet miniport (rp1-ethernet/miniport.c,
// rp1-ethernet/gem.c) as a state machine. Hardware, interrupt service routine,
// deferred procedure call (DPC) and the calls of NDIS interleave freely, subject
// to the two locks: the send lock and the interrupt lock.
module GemInterrupts {
  datatype Bit = Rx | Tx | Overrun | Fatal | Other

  const BATCH: nat := 64

  // Who holds the interrupt lock in the middle of gem_interrupt_status: the bits
  // are read; if reading does not clear them, they are still to be acknowledged.
  datatype Section = Free | InIsr(bits: set<Bit>) | InTake(bits: set<Bit>) | InStart(bits: set<Bit>)

  // Where the active DPC is. While it takes, and once it has rechecked the
  // rings, it holds the send lock. It looks at up to BATCH receive slots; only
  // the frames it accepts and indicates count towards the limit.
  datatype Dpc = Idle | Taking(limit: Limit) | Working(limit: Limit, slots: nat, indicated: nat) | Decided(next: Next)
  datatype Limit = All | AtMost(n: nat)
  datatype Next = Owe | Requeue | Rearm | Leave

  // What the send lock guards.
  datatype Miniport = Miniport(running: bool, linked: bool, removed: bool, dpc: Dpc, recovery: bool)

  // What the interrupt lock guards.
  datatype Line = Line(running: bool, deferred: bool, suppressed: bool, pending: set<Bit>, section: Section)

  // The hardware: its registers, the received frames and sent descriptors in the
  // rings, and the status bits it has yet to raise for them.
  datatype Engine = Engine(status: set<Bit>, enabled: bool, rx: nat, tx: nat, unraised: set<Bit>)

  // DPCs queued, and continuations owed by NDIS.
  datatype Calls = Calls(queued: nat, owed: nat)

  datatype State = State(mini: Miniport, line: Line, engine: Engine, calls: Calls,
                         // a fatal error was raised, and nobody has handled it yet
                         alarm: bool)

  // `merge` tells whether a DPC that is queued again while one waits makes two.
  datatype Step =
    | Land(bit: Bit)
    | Raise(bits: set<Bit>)
    | IsrEnter
    | IsrLeave(merge: bool)
    | DpcEnter(continuation: bool, limit: Limit)
    | TakeLeave
    | Retire
    | Receive(accept: bool)
    | Check
    | DpcLeave(merge: bool)
    | StartEnter(speed: bool)
    | StartLeave
    | Stop
    | Remove
    | Disable
    | Enable

  // The send lock is free.
  predicate Unlocked(s: State) {
    !s.mini.dpc.Taking? && !s.mini.dpc.Decided? && !s.line.section.InStart?
  }

  predicate Possible(s: State, step: Step) {
    match step
    case Land(bit) => bit == Rx || bit == Tx
    case Raise(_) => true
    case IsrEnter => s.line.section == Free
    case IsrLeave(_) => s.line.section.InIsr?
    case DpcEnter(continuation, _) => (if continuation then s.calls.owed > 0 else s.calls.queued > 0) && Unlocked(s) && s.line.section == Free
    case TakeLeave => s.line.section.InTake? && s.mini.dpc.Taking?
    case Retire => s.mini.dpc.Working? && s.mini.running && s.engine.tx > 0
    case Receive(_) => s.mini.dpc.Working? && s.mini.running && s.engine.rx > 0 && s.mini.dpc.slots < BATCH && s.mini.dpc.limit != AtMost(s.mini.dpc.indicated)
    case Check => s.mini.dpc.Working?
    case DpcLeave(_) => s.mini.dpc.Decided? && s.line.section == Free
    case StartEnter(_) => s.mini.dpc == Idle && s.line.section == Free && !s.mini.running && !s.mini.removed
    case StartLeave => s.line.section.InStart?
    case Stop => Unlocked(s) && s.line.section == Free
    case Remove => Unlocked(s) && s.line.section == Free
    case Disable => s.line.section == Free
    case Enable => s.line.section == Free
  }

  // The bits of GEM_IRQ_MASK.
  function Masked(bits: set<Bit>): (r: set<Bit>)
    ensures Fatal in r <==> Fatal in bits
    ensures Wanted(r) <==> Wanted(bits)
  {
    bits - {Other}
  }

  // Some bit of GEM_IRQ_MASK is among them.
  predicate Wanted(bits: set<Bit>) {
    Rx in bits || Tx in bits || Overrun in bits || Fatal in bits
  }

  // gem_interrupt_status in two halves, for both kinds of status register.
  function AfterRead(clearOnRead: bool, status: set<Bit>): set<Bit> {
    if clearOnRead then {} else status
  }

  function AfterAck(clearOnRead: bool, status: set<Bit>, bits: set<Bit>): set<Bit> {
    if clearOnRead then status else status - bits
  }

  function Looked(d: Dpc, accept: bool): Dpc
    requires d.Working?
  {
    d.(slots := d.slots + 1, indicated := d.indicated + if accept then 1 else 0)
  }

  function Queue(c: Calls, merge: bool): Calls {
    if merge && c.queued > 0 then c else c.(queued := c.queued + 1)
  }

  // A DPC queued, or a continuation of NDIS, begins.
  function Consume(c: Calls, continuation: bool): Calls
    requires if continuation then c.owed > 0 else c.queued > 0
  {
    if continuation then c.(owed := c.owed - 1) else c.(queued := c.queued - 1)
  }

  // StopInterrupts.
  function Stopped(s: State): State {
    s.(line := s.line.(running := false, deferred := false, pending := {}),
       engine := s.engine.(enabled := s.engine.enabled && s.mini.removed), alarm := false)
  }

  // The recheck: what the DPC does next, seen from the rings as they are now.
  function Decide(m: Miniport, e: Engine): Next
    requires m.dpc.Working?
  {
    if !m.running || m.removed then Leave
    else if e.rx > 0 && m.dpc.limit == AtMost(m.dpc.indicated) then Owe
    else if e.rx > 0 || e.tx > 0 then Requeue
    else Rearm
  }

  // The engine's side: a frame or a sent descriptor lands, then its bit is raised.
  function Landed(s: State, bit: Bit): State {
    if !s.line.running then s
    else s.(engine := s.engine.(rx := s.engine.rx + (if bit == Rx then 1 else 0), tx := s.engine.tx + (if bit == Tx then 1 else 0),
                                unraised := s.engine.unraised + {bit}))
  }

  function Raised(s: State, bits: set<Bit>): State {
    s.(engine := s.engine.(status := s.engine.status + s.engine.unraised + bits, unraised := {}),
       alarm := s.alarm || (s.line.running && Fatal in bits))
  }

  // Interrupt, up to the read of the status and from there on.
  function IsrEntered(cor: bool, s: State): State {
    if !s.line.running || s.line.deferred || s.line.suppressed || s.mini.removed then s
    else s.(line := s.line.(section := InIsr(s.engine.status)), engine := s.engine.(status := AfterRead(cor, s.engine.status)))
  }

  function IsrLeft(cor: bool, s: State, merge: bool): State
    requires s.line.section.InIsr?
  {
    var bits := s.line.section.bits;
    var r := s.(line := s.line.(section := Free), engine := s.engine.(status := AfterAck(cor, s.engine.status, bits)));
    if !Wanted(bits) then r
    else r.(line := r.line.(deferred := true, pending := s.line.pending + Masked(bits)),
            engine := r.engine.(enabled := false), calls := Queue(s.calls, merge))
  }

  // InterruptDpc, up to the read in TakeInterrupts, to the end of that, the
  // recheck, and the end.
  function DpcEntered(cor: bool, s: State, continuation: bool, limit: Limit): State
    requires if continuation then s.calls.owed > 0 else s.calls.queued > 0
  {
    var r := s.(calls := Consume(s.calls, continuation));
    if !s.mini.running || !s.mini.linked || s.mini.removed || s.mini.dpc != Idle then r
    else if s.line.running then
      r.(mini := s.mini.(dpc := Taking(limit)), line := s.line.(section := InTake(s.engine.status)),
         engine := s.engine.(status := AfterRead(cor, s.engine.status)))
    else r.(mini := s.mini.(dpc := Taking(limit)), line := s.line.(section := InTake({})))
  }

  function Taken(cor: bool, s: State): State
    requires s.line.section.InTake? && s.mini.dpc.Taking?
  {
    var bits := s.line.section.bits;
    var r := s.(mini := s.mini.(dpc := Working(s.mini.dpc.limit, 0, 0)), line := s.line.(section := Free, pending := {}),
                engine := s.engine.(status := AfterAck(cor, s.engine.status, bits)));
    if Fatal in s.line.pending + Masked(bits) then Failed(r) else r
  }

  // A fatal error: StopInterrupts, and a request for recovery.
  function Failed(s: State): State {
    var r := Stopped(s);
    r.(mini := r.mini.(running := false, recovery := true))
  }

  function DpcLeft(s: State, merge: bool): State
    requires s.mini.dpc.Decided?
  {
    var r := s.(mini := s.mini.(dpc := Idle));
    match s.mini.dpc.next
    case Leave => r
    case Owe => r.(calls := s.calls.(owed := s.calls.owed + 1))
    case Requeue => r.(calls := Queue(s.calls, merge))
    case Rearm =>
      r.(line := s.line.(deferred := false),
         engine := s.engine.(enabled := s.engine.enabled || (s.line.running && !s.line.suppressed && !s.mini.removed)))
  }

  // StartHardware: the rings are fresh. With a link, StartInterrupts reads the
  // stale status, acknowledges it, and goes on.
  function Starting(cor: bool, s: State, speed: bool): State {
    var r := s.(mini := s.mini.(running := true, linked := speed), engine := s.engine.(rx := 0, tx := 0, unraised := {}));
    if !speed then r
    else r.(line := s.line.(pending := {}, deferred := false, section := InStart(s.engine.status)),
            engine := r.engine.(status := AfterRead(cor, s.engine.status)))
  }

  function Started(cor: bool, s: State): State
    requires s.line.section.InStart?
  {
    s.(line := s.line.(section := Free, running := true),
       engine := s.engine.(status := AfterAck(cor, s.engine.status, s.line.section.bits), enabled := s.engine.enabled || !s.line.suppressed),
       alarm := false)
  }

  function Apply(cor: bool, s: State, step: Step): State
    requires Possible(s, step)
  {
    match step
    case Land(bit) => Landed(s, bit)
    case Raise(bits) => Raised(s, bits)
    case IsrEnter => IsrEntered(cor, s)
    case IsrLeave(merge) => IsrLeft(cor, s, merge)
    case DpcEnter(continuation, limit) => DpcEntered(cor, s, continuation, limit)
    case TakeLeave => Taken(cor, s)
    case Retire => s.(engine := s.engine.(tx := s.engine.tx - 1))
    case Receive(accept) => s.(engine := s.engine.(rx := s.engine.rx - 1), mini := s.mini.(dpc := Looked(s.mini.dpc, accept)))
    case Check => s.(mini := s.mini.(dpc := Decided(Decide(s.mini, s.engine))))
    case DpcLeave(merge) => DpcLeft(s, merge)
    case StartEnter(speed) => Starting(cor, s, speed)
    case StartLeave => Started(cor, s)
    case Stop => var r := Stopped(s); r.(mini := s.mini.(running := false, linked := false))
    case Remove => s.(line := s.line.(running := false), mini := s.mini.(removed := true, running := false))
    case Disable => s.(line := s.line.(suppressed := true), engine := s.engine.(enabled := s.engine.enabled && s.mini.removed))
    case Enable =>
      s.(line := s.line.(suppressed := false),
         engine := s.engine.(enabled := s.engine.enabled || (s.line.running && !s.line.deferred && !s.mini.removed)))
  }

  // ----- what every step keeps -----

  ghost predicate Work(e: Engine) {
    e.rx > 0 || e.tx > 0
  }

  // A DPC is on its way, or under way and still to look at the rings again.
  ghost predicate Coming(s: State) {
    || s.calls.queued > 0 || s.calls.owed > 0
    || (s.mini.dpc != Idle && s.mini.dpc != Decided(Rearm))
    || (s.line.section.InIsr? && Wanted(s.line.section.bits))
  }

  // An event is latched, or about to be.
  ghost predicate Latched(e: Engine) {
    Wanted(e.status) || Wanted(e.unraised)
  }

  // The bits somebody has read but not yet passed on.
  function Read(l: Line): set<Bit> {
    l.pending + if l.section == Free then {} else l.section.bits
  }

  ghost predicate Phased(s: State) {
    && (s.line.running <==> s.mini.running && s.mini.linked && !s.mini.removed && !s.line.section.InStart?)
    && (s.line.section.InTake? <==> s.mini.dpc.Taking?)
    && (s.line.section.InStart? ==> s.mini.running && s.mini.linked && !s.mini.removed && s.mini.dpc == Idle && !s.line.deferred && s.line.pending == {})
    && (s.mini.dpc == Decided(Leave) ==> !s.line.running)
  }

  // Interrupts are unmasked unless a DPC will do it.
  ghost predicate Armed(s: State) {
    && (s.line.running && !s.line.suppressed && !s.line.deferred ==> s.engine.enabled)
    && (s.line.running && s.line.deferred ==> Coming(s) || s.mini.dpc == Decided(Rearm))
  }

  // Work is never left without an event or a DPC.
  ghost predicate Covered(s: State) {
    (s.line.running && Work(s.engine) ==> Latched(s.engine) || Coming(s)) && (s.line.section.InStart? ==> !Work(s.engine))
  }

  // A fatal error stays visible until a DPC has acted on it.
  ghost predicate Alarmed(s: State) {
    s.line.running && s.alarm ==> Fatal in s.engine.status || Fatal in Read(s.line)
  }

  ghost predicate Inv(s: State) {
    Phased(s) && Armed(s) && Covered(s) && Alarmed(s)
  }

  function Reset(suppressed: bool): State {
    State(Miniport(false, false, false, Idle, false), Line(false, false, suppressed, {}, Free), Engine({}, false, 0, 0, {}), Calls(0, 0), false)
  }

  lemma InvStep(cor: bool, s: State, step: Step)
    requires Inv(s) && Possible(s, step)
    ensures Inv(Apply(cor, s, step))
  {
    hide Masked, Wanted;
    match step
    case Land(bit) => LandedInv(s, bit);
    case Raise(bits) => RaisedInv(s, bits);
    case IsrEnter => IsrEnteredInv(cor, s);
    case IsrLeave(merge) => IsrLeftInv(cor, s, merge);
    case DpcEnter(continuation, limit) => DpcEnteredInv(cor, s, continuation, limit);
    case TakeLeave => TakenInv(cor, s);
    case DpcLeave(merge) => DpcLeftInv(s, merge);
    case Check => CheckInv(s);
    case Retire =>
    case Receive(_) =>
    case StartEnter(speed) => StartingInv(cor, s, speed);
    case StartLeave => StartedInv(cor, s);
    case Stop =>
    case Remove =>
    case Disable =>
    case Enable =>
  }

  lemma LandedInv(s: State, bit: Bit)
    requires Inv(s) && (bit == Rx || bit == Tx)
    ensures Inv(Landed(s, bit))
  {
    hide Masked;
  }

  lemma RaisedInv(s: State, bits: set<Bit>)
    requires Inv(s)
    ensures Inv(Raised(s, bits))
  {
    hide Masked;
  }

  lemma IsrEnteredInv(cor: bool, s: State)
    requires Inv(s) && s.line.section == Free
    ensures Inv(IsrEntered(cor, s))
  {
    hide Masked;
  }

  lemma IsrLeftInv(cor: bool, s: State, merge: bool)
    requires Inv(s) && s.line.section.InIsr?
    ensures Inv(IsrLeft(cor, s, merge))
  {
    hide Masked;
  }

  lemma DpcEnteredInv(cor: bool, s: State, continuation: bool, limit: Limit)
    requires Inv(s) && Possible(s, DpcEnter(continuation, limit))
    ensures Inv(DpcEntered(cor, s, continuation, limit))
  {
    hide Masked, Wanted;
  }

  lemma TakenInv(cor: bool, s: State)
    requires Inv(s) && s.line.section.InTake? && s.mini.dpc.Taking?
    ensures Inv(Taken(cor, s))
  {
    hide Masked, Wanted;
  }

  lemma CheckInv(s: State)
    requires Inv(s) && s.mini.dpc.Working?
    ensures Inv(s.(mini := s.mini.(dpc := Decided(Decide(s.mini, s.engine)))))
  {
    hide Masked, Wanted;
  }

  lemma DpcLeftInv(s: State, merge: bool)
    requires Inv(s) && s.mini.dpc.Decided?
    ensures Inv(DpcLeft(s, merge))
  {
    hide Masked, Wanted;
  }

  lemma StartingInv(cor: bool, s: State, speed: bool)
    requires Inv(s) && Possible(s, StartEnter(speed))
    ensures Inv(Starting(cor, s, speed))
  {
    hide Masked, Wanted;
  }

  lemma StartedInv(cor: bool, s: State)
    requires Inv(s) && s.line.section.InStart?
    ensures Inv(Started(cor, s))
  {
    hide Masked, Wanted;
  }

  // ----- runs -----

  ghost predicate Chain(cor: bool, states: seq<State>, steps: seq<Step>) {
    && |states| == |steps| + 1
    && forall i :: 0 <= i < |steps| ==> Possible(states[i], steps[i]) && states[i + 1] == Apply(cor, states[i], steps[i])
  }

  ghost predicate Run(cor: bool, states: seq<State>, steps: seq<Step>) {
    Chain(cor, states, steps) && states[0] == Reset(states[0].line.suppressed)
  }

  lemma {:induction false} ChainInv(cor: bool, states: seq<State>, steps: seq<Step>, i: nat)
    requires Chain(cor, states, steps) && Inv(states[0]) && i < |states|
    ensures Inv(states[i])
  {
    hide Inv, Apply, Possible;
    if i > 0 {
      ChainInv(cor, states, steps, i - 1);
      InvStep(cor, states[i - 1], steps[i - 1]);
      assert states[(i - 1) + 1] == Apply(cor, states[i - 1], steps[i - 1]);
    }
  }

  lemma RunInv(cor: bool, states: seq<State>, steps: seq<Step>, i: nat)
    requires Run(cor, states, steps) && i < |states|
    ensures Inv(states[i])
  {
    ChainInv(cor, states, steps, i);
  }

  // The interrupt line is up and the service routine would take it.
  ghost predicate Asserted(s: State) {
    s.line.running && s.engine.enabled && !s.line.deferred && !s.line.suppressed && !s.mini.removed && Wanted(s.engine.status)
  }

  // The miniport is up, and NDIS lets it have interrupts.
  ghost predicate Serving(s: State) {
    s.mini.running && s.mini.linked && !s.mini.removed && !s.line.suppressed && !s.line.section.InStart?
  }

  // No wakeup is lost: in every reachable state, unserviced work means that an
  // enabled interrupt is latched, the hardware is about to raise one, a DPC is
  // coming or has not rechecked yet, or a DPC is about to unmask what is latched.
  lemma NoLostWakeup(cor: bool, states: seq<State>, steps: seq<Step>, i: nat)
    requires Run(cor, states, steps) && i < |states|
    requires Serving(states[i]) && Work(states[i].engine)
    ensures var s := states[i]; Asserted(s) || Wanted(s.engine.unraised) || Coming(s) || (s.mini.dpc == Decided(Rearm) && Wanted(s.engine.status))
  {
    RunInv(cor, states, steps, i);
  }

  // Nothing is left to happen by itself.
  ghost predicate Quiet(s: State) {
    !Asserted(s) && s.engine.unraised == {} && s.calls == Calls(0, 0) && s.mini.dpc == Idle && s.line.section == Free
  }

  // Then the rings are empty.
  lemma QuietMeansIdle(cor: bool, states: seq<State>, steps: seq<Step>, i: nat)
    requires Run(cor, states, steps) && i < |states|
    requires Serving(states[i]) && Quiet(states[i])
    ensures !Work(states[i].engine)
  {
    RunInv(cor, states, steps, i);
  }

  // An asserted interrupt gets its DPC, whatever the hardware does between the
  // read of the status and its acknowledgement.
  lemma AssertedIsServed(cor: bool, s: State, land: seq<Bit>, merge: bool)
    requires Asserted(s) && s.line.section == Free && forall k :: 0 <= k < |land| ==> land[k] == Rx || land[k] == Tx
    ensures var r := Meanwhile(IsrEntered(cor, s), land);
            && r.line.section.InIsr? && IsrLeft(cor, r, merge).calls == Queue(s.calls, merge)
            && IsrLeft(cor, r, merge).calls.queued > 0
  {
    MeanwhileKeeps(IsrEntered(cor, s), land);
  }

  function Meanwhile(s: State, land: seq<Bit>): State
    decreases |land|
  {
    if land == [] then s else Meanwhile(Raised(Landed(s, land[0]), {}), land[1..])
  }

  lemma {:induction false} MeanwhileKeeps(s: State, land: seq<Bit>)
    ensures var r := Meanwhile(s, land); r.line == s.line && r.calls == s.calls && s.engine.status <= r.engine.status
    decreases |land|
  {
    if land != [] {
      MeanwhileKeeps(Raised(Landed(s, land[0]), {}), land[1..]);
    }
  }

  // ----- fatal errors -----

  // Bits that the service routine has read are taken by a DPC still to come.
  ghost predicate Prompt(s: State) {
    s.line.running && Wanted(s.line.pending) ==> s.calls.queued > 0 || s.calls.owed > 0 || s.mini.dpc.Taking?
  }

  // A DPC returns at once because another one is active, past its own taking,
  // and no other is left to take what is pending.
  predicate Drops(s: State, step: Step) {
    && step.DpcEnter? && s.line.running && s.mini.dpc.Working? && Wanted(s.line.pending)
    && s.calls.queued + s.calls.owed == 1
  }

  // That is the one step after which pending bits have nobody coming for them.
  lemma PromptStep(cor: bool, s: State, step: Step)
    requires Inv(s) && Prompt(s) && Possible(s, step)
    ensures Prompt(Apply(cor, s, step)) <==> !Drops(s, step)
  {
    hide Armed, Covered, Alarmed, Masked, Wanted;
    NoneWanted();
    match step
    case IsrLeave(merge) => assert Prompt(IsrLeft(cor, s, merge));
    case DpcEnter(continuation, limit) => EnterPrompt(cor, s, continuation, limit);
    case TakeLeave => TakenPrompt(cor, s);
    case DpcLeave(merge) => assert DpcLeft(s, merge).line.pending == s.line.pending;
    case _ =>
  }

  lemma NoneWanted()
    ensures !Wanted({})
  {
  }

  lemma TakenPrompt(cor: bool, s: State)
    requires s.line.section.InTake? && s.mini.dpc.Taking?
    ensures Prompt(Taken(cor, s))
  {
    hide Masked;
    assert Taken(cor, s).line.pending == {};
  }

  lemma EnterPrompt(cor: bool, s: State, continuation: bool, limit: Limit)
    requires Inv(s) && Prompt(s) && Possible(s, DpcEnter(continuation, limit))
    ensures Prompt(DpcEntered(cor, s, continuation, limit)) <==> !Drops(s, DpcEnter(continuation, limit))
  {
    hide Armed, Covered, Alarmed, Masked, Wanted;
  }

  // A fatal error that nobody has handled is latched, or on its way to a DPC.
  ghost predicate Heeded(s: State) {
    s.line.running && s.alarm ==>
      || Fatal in s.engine.status || s.calls.queued > 0 || s.calls.owed > 0 || s.mini.dpc.Taking?
      || (s.line.section.InIsr? && Fatal in s.line.section.bits)
  }

  lemma PromptHeeds(s: State)
    requires Inv(s) && Prompt(s)
    ensures Heeded(s)
  {
  }

  // While the adapter runs, one DPC at most is queued, owed or active, and it is
  // there exactly while the interrupt is deferred.
  ghost predicate Single(s: State) {
    && (s.line.running ==> s.calls.queued + s.calls.owed + (if s.mini.dpc == Idle then 0 else 1) == if s.line.deferred then 1 else 0)
    && (s.line.section.InStart? ==> s.calls == Calls(0, 0))
    && (s.line.section.InIsr? && s.line.running ==> !s.line.deferred)
  }

  // A start with nothing queued from before.
  predicate Flushed(s: State, step: Step) {
    step == StartEnter(true) ==> s.calls == Calls(0, 0)
  }

  lemma SingleStep(cor: bool, s: State, step: Step)
    requires Phased(s) && Single(s) && Possible(s, step) && Flushed(s, step)
    requires s.line.section.InIsr? ==> s.line.running
    ensures Single(Apply(cor, s, step))
  {
    hide Masked, Wanted, Read;
  }

  // The service routine holds its lock only while interrupts run.
  lemma SectionStep(cor: bool, s: State, step: Step)
    requires Possible(s, step) && (s.line.section.InIsr? ==> s.line.running)
    ensures Apply(cor, s, step).line.section.InIsr? ==> Apply(cor, s, step).line.running
  {
    hide Masked, Wanted, Read;
  }

  lemma SingleNeverDrops(s: State, step: Step)
    requires Single(s)
    ensures !Drops(s, step)
  {
  }

  ghost predicate Sound(s: State) {
    Inv(s) && Single(s) && Prompt(s) && (s.line.section.InIsr? ==> s.line.running)
  }

  lemma SoundStep(cor: bool, s: State, step: Step)
    requires Sound(s) && Possible(s, step) && Flushed(s, step)
    ensures Sound(Apply(cor, s, step))
  {
    hide Apply, Possible, Armed, Covered, Alarmed, Single, Prompt, Drops, Flushed, Phased;
    InvStep(cor, s, step);
    PhasedIs(s);
    SingleStep(cor, s, step);
    SectionStep(cor, s, step);
    SingleNeverDrops(s, step);
    PromptStep(cor, s, step);
  }

  lemma PhasedIs(s: State)
    requires Inv(s)
    ensures Phased(s)
  {
  }

  // A stopped adapter, its locks free, has nothing to lose.
  lemma StoppedSound(s: State)
    requires Inv(s) && !s.mini.running && s.line.section == Free
    ensures Sound(s)
  {
  }

  // If every start finds no DPC queued or owed from before it, then in the whole
  // run no step drops anything and every fatal error is heeded.
  lemma {:induction false} FlushedIsHeeded(cor: bool, states: seq<State>, steps: seq<Step>, i: nat)
    requires Chain(cor, states, steps) && Sound(states[0]) && i < |states|
    requires forall k :: 0 <= k < |steps| ==> Flushed(states[k], steps[k])
    ensures Sound(states[i]) && Heeded(states[i]) && (i < |steps| ==> !Drops(states[i], steps[i]))
  {
    hide Apply, Possible, Inv, Single, Prompt, Drops, Flushed, Heeded;
    if i > 0 {
      FlushedIsHeeded(cor, states, steps, i - 1);
      SoundStep(cor, states[i - 1], steps[i - 1]);
      assert states[(i - 1) + 1] == Apply(cor, states[i - 1], steps[i - 1]);
    }
    PromptHeeds(states[i]);
    if i < |steps| {
      SingleNeverDrops(states[i], steps[i]);
    }
  }

  lemma FatalIsHeeded(cor: bool, states: seq<State>, steps: seq<Step>, i: nat)
    requires Run(cor, states, steps) && i < |states|
    requires forall k :: 0 <= k < |steps| ==> Flushed(states[k], steps[k])
    ensures Heeded(states[i]) && (i < |steps| ==> !Drops(states[i], steps[i]))
  {
    StoppedSound(states[0]);
    FlushedIsHeeded(cor, states, steps, i);
  }

  // A run that begins by starting the adapter in state s, and in which no later
  // start leaves a DPC from before it.
  ghost predicate Restart(cor: bool, s: State, states: seq<State>, steps: seq<Step>) {
    && |states| == |steps| + 1 && Chain(cor, states, steps) && states[0] == s && steps != [] && steps[0] == StartEnter(true)
    && forall k :: 0 < k < |steps| ==> Flushed(states[k], steps[k])
  }

  ghost predicate Strands(cor: bool, s: State, states: seq<State>, steps: seq<Step>) {
    Restart(cor, s, states, steps) && !Heeded(states[|steps|])
  }

  // The condition, exactly. Starting the adapter lets some run leave a fatal
  // error unheeded if and only if a DPC from before the start is still to come.
  lemma StrandingIsExact(cor: bool, s: State)
    requires Inv(s) && Possible(s, StartEnter(true))
    ensures (exists states: seq<State>, steps: seq<Step> :: Strands(cor, s, states, steps)) <==> s.calls != Calls(0, 0)
  {
    hide Inv, Heeded, Apply, Chain, Sound;
    if s.calls != Calls(0, 0) {
      var states, steps := FatalStranded(cor, s);
      assert Strands(cor, s, states, steps);
    } else {
      StoppedSound(s);
      forall states, steps | Restart(cor, s, states, steps)
        ensures Heeded(states[|steps|])
      {
        FlushedIsHeeded(cor, states, steps, |steps|);
      }
    }
  }

  // How: a stale DPC begins after the start, and while it works an interrupt
  // brings a fatal error. The error is read, all other DPCs return at once, the
  // first one unmasks and ends, and all goes quiet with no recovery requested.
  lemma FatalStranded(cor: bool, s: State) returns (states: seq<State>, steps: seq<Step>)
    requires Inv(s) && Possible(s, StartEnter(true)) && s.calls != Calls(0, 0)
    ensures Restart(cor, s, states, steps) && |states| == |steps| + 1
    ensures var r := states[|steps|]; !Heeded(r) && Serving(r) && Quiet(r) && Fatal in r.line.pending && r.mini.recovery == s.mini.recovery
  {
    hide Restart, Inv;
    states, steps := StaleWorks(cor, s);
    states, steps := Extend(cor, s, states, steps, Raise({Fatal}));
    states, steps := Extend(cor, s, states, steps, IsrEnter);
    states, steps := Extend(cor, s, states, steps, IsrLeave(false));
    assert Doomed(states[|steps|], s.mini.recovery);
    states, steps := Return(cor, s, states, steps, states[|steps|].calls);
    states, steps := Extend(cor, s, states, steps, Check);
    states, steps := Extend(cor, s, states, steps, DpcLeave(false));
  }

  // A fatal error is read, and the active DPC will not take it.
  ghost predicate Doomed(s: State, recovery: bool) {
    && s.mini == Miniport(true, true, false, Working(All, 0, 0), recovery)
    && s.line == Line(true, true, false, {Fatal}, Free)
    && !Wanted(s.engine.status) && s.engine.rx == s.engine.tx == 0 && s.engine.unraised == {} && s.alarm
  }

  lemma StaleWorks(cor: bool, s: State) returns (states: seq<State>, steps: seq<Step>)
    requires Inv(s) && Possible(s, StartEnter(true)) && s.calls != Calls(0, 0)
    ensures Restart(cor, s, states, steps) && |states| == |steps| + 1
    ensures var r := states[|steps|];
            && r.mini == Miniport(true, true, false, Working(All, 0, 0), s.mini.recovery)
            && r.line == Line(true, false, false, {}, Free)
            && r.engine.status == {} && r.engine.rx == r.engine.tx == 0 && r.engine.unraised == {} && r.engine.enabled && !r.alarm
  {
    hide Restart, Inv;
    states, steps := StartedRun(cor, s);
    states, steps := Extend(cor, s, states, steps, StartLeave);
    states, steps := Extend(cor, s, states, steps, Enable);
    states, steps := Extend(cor, s, states, steps, DpcEnter(s.calls.queued == 0, All));
    states, steps := Extend(cor, s, states, steps, TakeLeave);
  }

  // All waiting DPCs find the active one, and return.
  lemma {:induction false} Return(cor: bool, s: State, states: seq<State>, steps: seq<Step>, c: Calls) returns (states': seq<State>, steps': seq<Step>)
    requires Restart(cor, s, states, steps) && |states| == |steps| + 1
    requires Doomed(states[|steps|], s.mini.recovery) && states[|steps|].calls == c
    ensures Restart(cor, s, states', steps') && |states'| == |steps'| + 1
    ensures Doomed(states'[|steps'|], s.mini.recovery) && states'[|steps'|].calls == Calls(0, 0)
    decreases c.queued + c.owed
  {
    hide Restart;
    states', steps' := states, steps;
    if c != Calls(0, 0) {
      states', steps' := Extend(cor, s, states, steps, DpcEnter(c.queued == 0, All));
      states', steps' := Return(cor, s, states', steps', states'[|steps'|].calls);
    }
  }

  lemma Extend(cor: bool, s: State, states: seq<State>, steps: seq<Step>, step: Step) returns (states': seq<State>, steps': seq<Step>)
    requires Restart(cor, s, states, steps) && |states| == |steps| + 1 && Possible(states[|steps|], step) && !step.StartEnter?
    ensures Restart(cor, s, states', steps') && |states'| == |steps'| + 1 && states'[|steps'|] == Apply(cor, states[|steps|], step)
  {
    hide Apply, Possible;
    states', steps' := states + [Apply(cor, states[|steps|], step)], steps + [step];
  }

  // Such a start is within reach: a DPC queued by an interrupt outlives the stop
  // that follows.
  lemma StaleReachable(cor: bool)
    ensures exists states: seq<State>, steps: seq<Step> :: Run(cor, states, steps) && Possible(states[|steps|], StartEnter(true)) && states[|steps|].calls != Calls(0, 0) && !states[|steps|].mini.recovery
  {
    hide Restart;
    var s := Reset(false);
    var states, steps := FirstInterrupt(cor, s);
    states, steps := Extend(cor, s, states, steps, IsrLeave(false));
    states, steps := Extend(cor, s, states, steps, Stop);
    RestartRuns(cor, s, states, steps);
    assert Possible(states[|steps|], StartEnter(true));
  }

  // Both together: a run from the reset on that ends with a fatal error nobody
  // will handle, while the adapter is up and all is quiet.
  lemma FatalCanBeStranded(cor: bool)
    ensures exists states: seq<State>, steps: seq<Step> ::
              && Run(cor, states, steps) && |states| == |steps| + 1
              && var r := states[|steps|];
                 !Heeded(r) && Serving(r) && Quiet(r) && Fatal in r.line.pending && !r.mini.recovery
  {
    StaleReachable(cor);
    var states: seq<State>, steps: seq<Step> :| Run(cor, states, steps) && Possible(states[|steps|], StartEnter(true))
                                                && states[|steps|].calls != Calls(0, 0) && !states[|steps|].mini.recovery;
    var s := states[|steps|];
    RunInv(cor, states, steps, |steps|);
    hide Inv, Heeded, Possible, Apply;
    var more, further := FatalStranded(cor, s);
    RunsOn(cor, states, steps, more, further);
    assert (states + more[1..])[|steps + further|] == more[|further|];
  }

  lemma RunsOn(cor: bool, states: seq<State>, steps: seq<Step>, more: seq<State>, further: seq<Step>)
    requires Run(cor, states, steps) && |more| == |further| + 1 && Chain(cor, more, further) && more[0] == states[|steps|]
    ensures Run(cor, states + more[1..], steps + further)
  {
    hide Possible, Apply;
    var all, ss := states + more[1..], steps + further;
    forall i | 0 <= i < |ss|
      ensures Possible(all[i], ss[i]) && all[i + 1] == Apply(cor, all[i], ss[i])
    {
      if i < |steps| {
        assert all[i] == states[i] && all[i + 1] == states[i + 1];
      } else {
        var k := i - |steps|;
        assert all[i] == more[k] && all[i + 1] == more[k + 1];
      }
    }
  }

  lemma FirstInterrupt(cor: bool, s: State) returns (states: seq<State>, steps: seq<Step>)
    requires s == Reset(false)
    ensures Restart(cor, s, states, steps) && |states| == |steps| + 1
    ensures var r := states[|steps|]; r.mini == Miniport(true, true, false, Idle, false) && r.line.section == InIsr({Rx}) && r.calls == s.calls
  {
    hide Restart;
    states, steps := StartedRun(cor, s);
    states, steps := Extend(cor, s, states, steps, StartLeave);
    states, steps := Extend(cor, s, states, steps, Raise({Rx}));
    states, steps := Extend(cor, s, states, steps, IsrEnter);
  }

  lemma StartedRun(cor: bool, s: State) returns (states: seq<State>, steps: seq<Step>)
    requires Possible(s, StartEnter(true))
    ensures Restart(cor, s, states, steps) && |states| == |steps| + 1 && states[|steps|] == Apply(cor, s, StartEnter(true))
  {
    hide Possible, Apply;
    states, steps := [s, Apply(cor, s, StartEnter(true))], [StartEnter(true)];
  }

  lemma RestartRuns(cor: bool, s: State, states: seq<State>, steps: seq<Step>)
    requires Restart(cor, s, states, steps) && s == Reset(false)
    ensures Run(cor, states, steps)
  {
  }
}
