// Pin ownership in the BCM2712 GPIO driver (bcm2712-gpio/driver.c,
// bcm2712-gpio/hardware.c). 64-bit pin masks, and the one-bit-per-pin registers,
// are sets of pin numbers; the packed mux and pull fields are GpioFields'.
module GpioDriver {
  import opened GpioFields

  const PINS: nat := 64

  datatype Status = Success | InvalidParameter | NotSupported | NotReady | DeviceBusy | SharingViolation | BrokerFailed

  // BCM_PIN_STATE, and the part of it that says who drives the pin and how.
  datatype PinState = PinState(mux: bv32, pull: bv32, data: bool, input: bool, openDrain: bool, edge: bool, both: bool, level: bool)
  datatype Config = Config(mux: bv32, pull: bv32, openDrain: bool, input: bool)
  datatype Resistor = Default | Up | Down | None | Other
  datatype Mode = Latched | LevelSensitive | OtherMode
  datatype Polarity = Low | High | Both | OtherPolarity

  // The registers behind the configuration of all pins.
  datatype Pads = Pads(words: seq<bv32>, oden: set<nat>, dir: set<nat>)

  // A chip revision and a block of pins.
  datatype Block = Block(d0: bool, aon: bool)
  {
    function Of(p: nat): PinFields {
      FieldsOf(d0, aon, p)
    }

    predicate Exists(p: nat) {
      p < PINS && Of(p).Pin?
    }

    function Mux(p: nat): (f: Field)
      requires Exists(p)
      ensures f.wide
    {
      Field(Of(p).mux, true)
    }

    function Pull(p: nat): (f: Field)
      requires Exists(p) && Of(p).pull.PullAt?
      ensures !f.wide
    {
      Field(Of(p).pull.position, false)
    }
  }

  ghost predicate Sized(b: Block, pads: Pads) {
    |pads.words| == Registers(b.d0, b.aon)
  }

  lemma Mapped(b: Block, p: nat)
    requires b.Exists(p)
    ensures b.Mux(p).In(Registers(b.d0, b.aon))
    ensures b.Of(p).pull.PullAt? ==> b.Pull(p).In(Registers(b.d0, b.aon))
  {
    FieldsMapped(b.d0, b.aon, p, b.Mux(p));
    if b.Of(p).pull.PullAt? {
      FieldsMapped(b.d0, b.aon, p, b.Pull(p));
    }
  }

  ghost function ConfigOf(b: Block, pads: Pads, p: nat): Config
    requires b.Exists(p) && Sized(b, pads)
  {
    Mapped(b, p);
    Config(Read(pads.words, b.Mux(p)),
           if b.Of(p).pull.PullAt? then Read(pads.words, b.Pull(p)) else 0,
           p in pads.oden, p in pads.dir)
  }

  function Put(s: set<nat>, p: nat, on: bool): set<nat> {
    if on then s + {p} else s - {p}
  }

  // The one-bit registers beside the pads: output level and trigger.
  datatype Lines = Lines(data: set<nat>, edge: set<nat>, both: set<nat>, level: set<nat>)
  {
    function With(p: nat, s: PinState): Lines {
      Lines(Put(data, p, s.data), Put(edge, p, s.edge), Put(both, p, s.both), Put(level, p, s.level))
    }

    predicate Show(p: nat, s: PinState) {
      (p in data <==> s.data) && (p in edge <==> s.edge) && (p in both <==> s.both) && (p in level <==> s.level)
    }

    function But(pins: set<nat>): Lines {
      Lines(data - pins, edge - pins, both - pins, level - pins)
    }
  }

  lemma LinesWith(start: Lines, now: Lines, pins: set<nat>, p: nat, s: PinState)
    requires now.But(pins) == start.But(pins) && p in pins
    ensures now.With(p, s).But(pins) == start.But(pins)
    ensures now.With(p, s).Show(p, s)
    ensures forall q, t :: q != p && now.Show(q, t) ==> now.With(p, s).Show(q, t)
  {
    var after := now.With(p, s);
    assert after.data - pins == now.data - pins && after.edge - pins == now.edge - pins;
    assert after.both - pins == now.both - pins && after.level - pins == now.level - pins;
  }

  // Each write to the registers changes one pin's configuration, in one respect.
  lemma MuxWrite(b: Block, pads: Pads, p: nat, v: bv32)
    requires b.Exists(p) && Sized(b, pads) && v & 15 == v
    ensures b.Mux(p).In(|pads.words|)
    ensures var r := pads.(words := Write(pads.words, b.Mux(p), v));
            Sized(b, r) && forall q :: b.Exists(q) ==> ConfigOf(b, r, q) == if q == p then ConfigOf(b, pads, p).(mux := v) else ConfigOf(b, pads, q)
  {
    Mapped(b, p);
    var r := pads.(words := Write(pads.words, b.Mux(p), v));
    forall q | b.Exists(q)
      ensures ConfigOf(b, r, q) == if q == p then ConfigOf(b, pads, p).(mux := v) else ConfigOf(b, pads, q)
    {
      Mapped(b, q);
      FieldAlone(b, pads.words, p, b.Mux(p), v, q);
    }
  }

  lemma PullWrite(b: Block, pads: Pads, p: nat, v: bv32)
    requires b.Exists(p) && b.Of(p).pull.PullAt? && Sized(b, pads) && v & 3 == v
    ensures b.Pull(p).In(|pads.words|)
    ensures var r := pads.(words := Write(pads.words, b.Pull(p), v));
            Sized(b, r) && forall q :: b.Exists(q) ==> ConfigOf(b, r, q) == if q == p then ConfigOf(b, pads, p).(pull := v) else ConfigOf(b, pads, q)
  {
    Mapped(b, p);
    var r := pads.(words := Write(pads.words, b.Pull(p), v));
    forall q | b.Exists(q)
      ensures ConfigOf(b, r, q) == if q == p then ConfigOf(b, pads, p).(pull := v) else ConfigOf(b, pads, q)
    {
      Mapped(b, q);
      FieldAlone(b, pads.words, p, b.Pull(p), v, q);
    }
  }

  // After a write to one of pin p's fields, the fields of pin q.
  lemma FieldAlone(b: Block, words: seq<bv32>, p: nat, f: Field, v: bv32, q: nat)
    requires b.Exists(p) && b.Exists(q) && |words| == Registers(b.d0, b.aon)
    requires Has(b.d0, b.aon, f, p) && f.In(|words|) && v & f.Bits() == v
    requires b.Mux(q).In(|words|) && (b.Of(q).pull.PullAt? ==> b.Pull(q).In(|words|))
    ensures Read(Write(words, f, v), b.Mux(q)) == if p == q && f.wide then v else Read(words, b.Mux(q))
    ensures b.Of(q).pull.PullAt? ==> Read(Write(words, f, v), b.Pull(q)) == if p == q && !f.wide then v else Read(words, b.Pull(q))
  {
    WriteReadsBack(words, f, v);
    hide Read, Write, FieldsOf;
    if !(p == q && f.wide) {
      FieldsDisjoint(b.d0, b.aon, p, f, q, b.Mux(q));
      WriteElsewhere(words, f, v, b.Mux(q));
    }
    if b.Of(q).pull.PullAt? && !(p == q && !f.wide) {
      FieldsDisjoint(b.d0, b.aon, p, f, q, b.Pull(q));
      WriteElsewhere(words, f, v, b.Pull(q));
    }
  }

  // ----- ownership -----

  datatype Owners = Owners(io: set<nat>, output: set<nat>, irq: set<nat>, alt: set<nat>, touched: set<nat>)
  {
    function All(): set<nat> {
      io + irq + alt
    }
  }

  // No pin serves two masters: outputs are exclusive of interrupts, functions of
  // everything else; and whoever owns a pin has been seen to configure it.
  predicate Orderly(o: Owners) {
    && o.output <= o.io
    && o.alt !! (o.io + o.irq)
    && o.output !! o.irq
    && o.All() <= o.touched
  }

  // Driven at boot, by a function other than plain output.
  predicate Driven(s: PinState) {
    s.mux != 0 && !s.input
  }

  // Already a plain output.
  predicate Steady(c: Config) {
    c.mux == 0 && !c.input
  }

  // The pins that do not keep driving while they are configured.
  ghost function Loose(b: Block, pads: Pads, pins: set<nat>, alt: bv32, output: bool): set<nat>
    requires Sized(b, pads)
  {
    set p | p in pins && b.Exists(p) && !(output && alt == 0 && Steady(ConfigOf(b, pads, p)))
  }

  lemma LooseMore(b: Block, pads: Pads, pins: set<nat>, p: nat, alt: bv32, output: bool)
    requires Sized(b, pads) && b.Exists(p)
    ensures Loose(b, pads, pins + {p}, alt, output) ==
              Loose(b, pads, pins, alt, output) + if output && alt == 0 && Steady(ConfigOf(b, pads, p)) then {} else {p}
  {
    hide ConfigOf;
  }

  function Boot(s: PinState): Config {
    Config(s.mux, s.pull, s.openDrain, s.input)
  }

  // The pins that read their boot configuration, or were set astray.
  ghost predicate Untouched(b: Block, pads: Pads, boot: seq<PinState>, pins: set<nat>) {
    |boot| == PINS && Sized(b, pads) && forall p :: p in pins && b.Exists(p) ==> ConfigOf(b, pads, p) == Boot(boot[p])
  }

  ghost predicate Sensible(b: Block, boot: seq<PinState>) {
    && |boot| == PINS
    && forall p: nat :: b.Exists(p) ==>
         && boot[p].mux & 15 == boot[p].mux && boot[p].pull & 3 == boot[p].pull
         && (b.Of(p).pull.NoPull? ==> boot[p].pull == 0)
  }

  lemma SensibleAt(b: Block, states: seq<PinState>)
    requires Sensible(b, states)
    ensures |states| == PINS
    ensures forall p: nat :: b.Exists(p) ==>
              && states[p].mux & 15 == states[p].mux && states[p].pull & 3 == states[p].pull
              && (b.Of(p).pull.NoPull? ==> states[p].pull == 0)
  {
  }

  ghost predicate Elsewhere(b: Block, before: Pads, after: Pads, pins: set<nat>) {
    && Sized(b, before) && Sized(b, after)
    && forall q: nat :: b.Exists(q) && q !in pins ==> ConfigOf(b, after, q) == ConfigOf(b, before, q)
  }

  // From one state to another only pin p was written, and is now as given.
  ghost predicate Sets(b: Block, before: Pads, after: Pads, p: nat, c: Config)
    requires b.Exists(p)
  {
    Elsewhere(b, before, after, {p}) && ConfigOf(b, after, p) == c
  }

  lemma SetsNothing(b: Block, pads: Pads, p: nat)
    requires b.Exists(p) && Sized(b, pads)
    ensures Sets(b, pads, pads, p, ConfigOf(b, pads, p))
    ensures b.Of(p).pull.NoPull? ==> ConfigOf(b, pads, p).pull == 0
  {
  }

  lemma SetsOne(b: Block, x: Pads, y: Pads, p: nat, c: Config)
    requires b.Exists(p) && Sets(b, x, y, p, c)
    ensures Sized(b, x) && Sized(b, y) && ConfigOf(b, y, p) == c
    ensures forall q: nat :: b.Exists(q) && q != p ==> ConfigOf(b, y, q) == ConfigOf(b, x, q)
  {
  }

  // A written pin leaves the set of those at their boot state, unless that is
  // just what was written.
  lemma UntouchedSets(b: Block, before: Pads, after: Pads, boot: seq<PinState>, pins: set<nat>, p: nat, c: Config)
    requires b.Exists(p) && Untouched(b, before, boot, pins) && Sets(b, before, after, p, c)
    ensures Untouched(b, after, boot, pins - {p})
    ensures c == Boot(boot[p]) ==> Untouched(b, after, boot, pins + {p})
  {
  }

  lemma SetsKeeps(b: Block, before: Pads, after: Pads, boot: seq<PinState>, pins: set<nat>, p: nat, c: Config)
    requires b.Exists(p) && Untouched(b, before, boot, pins) && Sets(b, before, after, p, c)
    ensures Sized(b, before) && Sized(b, after) && ConfigOf(b, after, p) == c && Elsewhere(b, before, after, {p})
    ensures Untouched(b, after, boot, pins - {p})
    ensures c == Boot(boot[p]) ==> Untouched(b, after, boot, pins + {p})
  {
    hide ConfigOf, Sets, Elsewhere, Untouched;
    SetsOne(b, before, after, p, c);
    SetsElsewhere(b, before, after, p, c);
    UntouchedSets(b, before, after, boot, pins, p, c);
  }

  lemma SetsElsewhere(b: Block, x: Pads, y: Pads, p: nat, c: Config)
    requires b.Exists(p) && Sets(b, x, y, p, c)
    ensures Elsewhere(b, x, y, {p})
  {
  }

  lemma BootOf(b: Block, pads: Pads, boot: seq<PinState>, pins: set<nat>, p: nat)
    requires b.Exists(p) && Untouched(b, pads, boot, pins)
    ensures p in pins ==> ConfigOf(b, pads, p) == Boot(boot[p])
  {
  }

  lemma ElsewhereNothing(b: Block, pads: Pads, pins: set<nat>)
    requires Sized(b, pads)
    ensures Elsewhere(b, pads, pads, pins)
  {
  }

  lemma ElsewhereMore(b: Block, start: Pads, mid: Pads, now: Pads, pins: set<nat>, p: nat)
    requires Elsewhere(b, start, mid, pins) && p in pins && Elsewhere(b, mid, now, {p})
    ensures Elsewhere(b, start, now, pins)
    ensures forall q: nat :: b.Exists(q) && q != p ==> ConfigOf(b, now, q) == ConfigOf(b, mid, q)
  {
  }

  lemma NoneLoose(b: Block, pads: Pads, alt: bv32, output: bool)
    requires Sized(b, pads)
    ensures Loose(b, pads, {}, alt, output) == {}
  {
  }

  lemma SameThere(b: Block, x: Pads, y: Pads, pins: set<nat>, p: nat)
    requires Elsewhere(b, x, y, pins) && b.Exists(p) && p !in pins
    ensures Sized(b, x) && Sized(b, y) && ConfigOf(b, x, p) == ConfigOf(b, y, p)
  {
  }

  lemma ElsewhereWider(b: Block, x: Pads, y: Pads, pins: set<nat>, more: set<nat>)
    requires Elsewhere(b, x, y, pins) && pins <= more
    ensures Elsewhere(b, x, y, more)
  {
  }

  lemma BelowIn(pins: set<nat>, n: nat)
    ensures Below(pins, n) <= pins
  {
  }

  function Below(pins: set<nat>, n: nat): set<nat> {
    set q | q in pins && q < n
  }

  lemma BelowNext(pins: set<nat>, p: nat)
    ensures Below(pins, p + 1) == Below(pins, p) + if p in pins then {p} else {}
    ensures Below(pins, 0) == {}
  {
  }

  lemma NotBelow(pins: set<nat>, p: nat)
    ensures p !in Below(pins, p)
  {
  }

  lemma BelowAll(pins: set<nat>)
    requires forall p :: p in pins ==> p < PINS
    ensures Below(pins, PINS) == pins
  {
  }

  class Controller {
    const block: Block
    const valid: set<nat>
    const boot: seq<PinState>
    const words: array<bv32>
    var oden: set<nat>
    var dir: set<nat>
    var data: set<nat>
    var edge: set<nat>
    var both: set<nat>
    var level: set<nat>
    var irqMask: set<nat>
    var ioOwned: set<nat>
    var outputOwned: set<nat>
    var irqOwned: set<nat>
    var functionOwned: set<nat>
    var touched: set<nat>
    var resume: seq<PinState>
    var resumeMask: set<nat>
    var started: bool
    // Untouched pins that a failed restore has left as inputs.
    ghost var stray: set<nat>
    // Pins that have ceased to drive at some time.
    ghost var floated: set<nat>

    ghost function P(): Pads
      reads words, this`oden, this`dir
    {
      Pads(words[..], oden, dir)
    }

    ghost function O(): Owners
      reads this`ioOwned, this`outputOwned, this`irqOwned, this`functionOwned, this`touched
    {
      Owners(ioOwned, outputOwned, irqOwned, functionOwned, touched)
    }

    ghost predicate Fixed() {
      && (forall p :: p in valid ==> block.Exists(p))
      && Sensible(block, boot) && words.Length == Registers(block.d0, block.aon)
    }

    ghost predicate Valid()
      reads this, words
    {
      && Fixed() && Sensible(block, resume) && Orderly(O()) && touched <= valid && irqMask <= irqOwned
      && Untouched(block, P(), boot, valid - touched - stray)
    }

    ghost function L(): Lines
      reads this`data, this`edge, this`both, this`level
    {
      Lines(data, edge, both, level)
    }

    // BcmPrepare: nothing is owned, and the boot state is what is found.
    constructor (b: Block, registers: seq<bv32>, o: set<nat>, d: set<nat>, levels: set<nat>, found: seq<PinState>, pins: set<nat>)
      requires |registers| == Registers(b.d0, b.aon) && (forall p :: p in pins ==> b.Exists(p))
      requires Sensible(b, found) && Untouched(b, Pads(registers, o, d), found, pins)
      ensures Valid() && O() == Owners({}, {}, {}, {}, {}) && P() == Pads(registers, o, d) && stray == {}
      ensures block == b && boot == found && valid == pins && fresh(words) && !started
    {
      block, valid, boot := b, pins, found;
      words := new bv32[|registers|](i requires 0 <= i < |registers| => registers[i]);
      oden, dir, data, edge, both, level, irqMask := o, d, levels, {}, {}, {}, {};
      ioOwned, outputOwned, irqOwned, functionOwned, touched, stray := {}, {}, {}, {}, {}, {};
      floated := {};
      resume, resumeMask, started := found, {}, false;
      new;
      assert words[..] == registers;
    }

    method FieldRead(f: Field) returns (value: bv32)
      requires f.In(words.Length)
      ensures value == Read(words[..], f)
    {
      value := Extract(words[f.Word()], f.Bits(), f.Shift());
    }

    method FieldWrite(f: Field, value: bv32)
      requires f.In(words.Length)
      modifies words
      ensures words[..] == Write(old(words[..]), f, value)
    {
      words[f.Word()] := Insert(words[f.Word()], value, f.Bits(), f.Shift());
    }

    // One write to one field or bit, on top of earlier writes to the same pin.
    method SetMux(p: nat, value: bv32, ghost start: Pads, ghost c: Config)
      requires Fixed() && p in valid && value & 15 == value && Sets(block, start, P(), p, c)
      modifies words
      ensures Sets(block, start, P(), p, c.(mux := value))
    {
      MuxWrite(block, P(), p, value);
      FieldWrite(block.Mux(p), value);
    }

    method SetPull(p: nat, value: bv32, ghost start: Pads, ghost c: Config)
      requires Fixed() && p in valid && value & 3 == value && block.Of(p).pull.PullAt? && Sets(block, start, P(), p, c)
      modifies words
      ensures Sets(block, start, P(), p, c.(pull := value))
    {
      PullWrite(block, P(), p, value);
      FieldWrite(block.Pull(p), value);
    }

    method SetDir(p: nat, input: bool, ghost start: Pads, ghost c: Config)
      requires Fixed() && p in valid && Sets(block, start, P(), p, c)
      modifies this`dir, this`floated
      ensures Sets(block, start, P(), p, c.(input := input))
      ensures floated == old(floated) + if input then {p} else {}
    {
      dir := Put(dir, p, input);
      floated := if input then floated + {p} else floated;
    }

    method SetOden(p: nat, on: bool, ghost start: Pads, ghost c: Config)
      requires Fixed() && p in valid && Sets(block, start, P(), p, c)
      modifies this`oden
      ensures Sets(block, start, P(), p, c.(openDrain := on))
    {
      oden := Put(oden, p, on);
    }

    // BcmWriteData; the always-on block's low pins go through a broker that may fail.
    method WriteData(up: set<nat>, down: set<nat>, broker: bool) returns (s: Status)
      modifies this`data
      ensures s == Success || data == old(data)
      ensures s == Success ==> data == old(data) - down + up
      ensures s == if !(up + down <= valid) || !(up !! down) then InvalidParameter
                   else if exists p :: p in up + down && !Settable(p, broker) then BrokerFailed
                   else Success
    {
      if !(up + down <= valid) || !(up !! down) {
        return InvalidParameter;
      }
      if block.aon && (exists p :: p in up + down && p < 32) && !broker {
        return BrokerFailed;
      }
      data := data - (up + down) + up;
      s := Success;
    }

    // The broker is asked only about the low pins of the always-on block.
    predicate Settable(p: nat, broker: bool) {
      broker || !block.aon || p >= 32
    }

    // BcmConfigure: whatever the pin was, afterwards it is as asked for.
    method Configure(p: nat, alt: bv32, output: bool, pull: Resistor)
      requires Fixed() && p in valid && alt & 15 == alt
      modifies words, this`oden, this`dir, this`floated, this`touched
      ensures touched == old(touched) + {p}
      ensures Sets(block, old(P()), P(), p, Config(alt, PullFor(p, pull), false, !output))
      // A pin that drives and is to drive never lets go; any other does meanwhile.
      ensures floated == old(floated) + if output && alt == 0 && Steady(old(ConfigOf(block, P(), p))) then {} else {p}
    {
      hide ConfigOf, Sets, Elsewhere;
      DirOf(p);
      ghost var start, c := P(), ConfigOf(block, P(), p);
      SetsNothing(block, start, p);
      PullFits(p, pull);
      var mux := ReadMux(p);
      var hold := output && alt == 0 && mux == 0 && p !in dir;
      if !hold {
        SetDir(p, true, start, c);
        c := c.(input := true);
      }
      SetPad(p, alt, PullFor(p, pull), start, c);
      c := Config(alt, PullFor(p, pull), false, c.input);
      if output {
        SetDir(p, false, start, c);
      }
      touched := touched + {p};
    }

    // Function, resistor and drain, in that order.
    method SetPad(p: nat, alt: bv32, pull: bv32, ghost start: Pads, ghost c: Config)
      requires Fixed() && p in valid && alt & 15 == alt && pull & 3 == pull && Sets(block, start, P(), p, c)
      requires block.Of(p).pull.NoPull? ==> c.pull == pull
      modifies words, this`oden
      ensures Sets(block, start, P(), p, Config(alt, pull, false, c.input))
    {
      hide ConfigOf, Sets, Elsewhere;
      SetMux(p, alt, start, c);
      if block.Of(p).pull.PullAt? {
        SetPull(p, pull, start, c.(mux := alt));
      }
      SetOden(p, false, start, c.(mux := alt, pull := pull));
    }

    method ReadMux(p: nat) returns (mux: bv32)
      requires Fixed() && p in valid
      ensures mux == ConfigOf(block, P(), p).mux
    {
      Mapped(block, p);
      mux := FieldRead(block.Mux(p));
    }

    lemma PullFits(p: nat, pull: Resistor)
      requires Fixed() && p in valid
      ensures PullFor(p, pull) & 3 == PullFor(p, pull)
      ensures block.Of(p).pull.NoPull? ==> PullFor(p, pull) == 0
    {
    }

    // What the pull field of a pin reads, if it has one, when that is asked for.
    predicate Pulls(p: nat, pull: Resistor, v: bv32)
      requires p < |boot|
    {
      && (pull == Up ==> v == 2)
      && (pull == Down ==> v == 1)
      && (pull == None ==> v == 0)
      && (pull == Default ==> v == boot[p].pull)
    }

    // A configured pin pulls as asked for, in the register itself.
    lemma PullReads(p: nat, pull: Resistor)
      requires Fixed() && p in valid && ConfigOf(block, P(), p).pull == PullFor(p, pull)
      ensures match block.Of(p).pull
              case PullAt(at) => Field(at, false).In(words.Length) && Pulls(p, pull, Read(words[..], Field(at, false)))
              case NoPull => true
    {
      Mapped(block, p);
    }

    function PullFor(p: nat, pull: Resistor): (v: bv32)
      requires p < |boot|
      ensures pull != Default ==> v & 3 == v
      ensures block.Exists(p) && block.Of(p).pull.PullAt? ==> Pulls(p, pull, v)
    {
      if !block.Exists(p) || block.Of(p).pull.NoPull? then 0
      else match pull
           case Default => boot[p].pull
           case Up => 2
           case Down => 1
           case _ => 0
    }

    // Does the restore leave the pin's direction alone until its level is set?
    predicate Held(c: Config, s: PinState) {
      !s.input && s.mux == 0 && c.mux == 0 && !c.input
    }

    // BcmRestore: exactly the given state, or, if the level cannot be set, the
    // pin as it was, made an input unless it could be held.
    method Restore(p: nat, s: PinState, broker: bool) returns (status: Status)
      requires Fixed() && p in valid && s.mux & 15 == s.mux && s.pull & 3 == s.pull && (block.Of(p).pull.NoPull? ==> s.pull == 0)
      modifies words, this`oden, this`dir, this`floated, this`data, this`edge, this`both, this`level
      ensures status == Success || status == BrokerFailed
      ensures status == Success <==> Settable(p, broker)
      ensures status == Success ==>
                Sets(block, old(P()), P(), p, Boot(s)) && L() == old(L()).With(p, s)
      ensures status != Success ==>
                var c := old(ConfigOf(block, P(), p));
                L() == old(L()) && Sets(block, old(P()), P(), p, if Held(c, s) then c else c.(input := true))
      ensures floated == old(floated) + if Held(old(ConfigOf(block, P(), p)), s) then {} else {p}
    {
      hide ConfigOf, Sets, Elsewhere;
      ghost var start, c := P(), ConfigOf(block, P(), p);
      SetsNothing(block, start, p);
      DirOf(p);
      var mux := ReadMux(p);
      var hold := !s.input && s.mux == 0 && mux == 0 && p !in dir;
      if !hold {
        SetDir(p, true, start, c);
        c := c.(input := true);
      }
      assert p in {p};
      var up, down := if s.data then {p} else {}, if s.data then {} else {p};
      assert up + down == {p};
      status := WriteData(up, down, broker);
      if status != Success {
        return;
      }
      RestorePads(p, s, start, c);
      edge, both, level := Put(edge, p, s.edge), Put(both, p, s.both), Put(level, p, s.level);
    }

    lemma DirOf(p: nat)
      requires Fixed() && p in valid
      ensures p in dir <==> ConfigOf(block, P(), p).input
    {
    }

    method RestorePads(p: nat, s: PinState, ghost start: Pads, ghost was: Config)
      requires Fixed() && p in valid && s.mux & 15 == s.mux && s.pull & 3 == s.pull && (block.Of(p).pull.NoPull? ==> s.pull == 0)
      requires Sets(block, start, P(), p, was) && (block.Of(p).pull.NoPull? ==> was.pull == 0)
      modifies words, this`oden, this`dir, this`floated
      ensures Sets(block, start, P(), p, Boot(s)) && floated == old(floated) + if s.input then {p} else {}
    {
      hide ConfigOf, Sets, Elsewhere;
      ghost var c := was;
      SetOden(p, s.openDrain, start, c);
      c := c.(openDrain := s.openDrain);
      SetMux(p, s.mux, start, c);
      c := c.(mux := s.mux);
      if block.Of(p).pull.PullAt? {
        SetPull(p, s.pull, start, c);
        c := c.(pull := s.pull);
      }
      SetDir(p, s.input, start, c);
    }

    // Back to the boot state, for a pin that nobody owns.
    method RestoreOne(p: nat, broker: bool) returns (status: Status)
      requires Valid() && p in valid && p !in O().All()
      modifies words, this`oden, this`dir, this`floated, this`data, this`edge, this`both, this`level, this`touched, this`stray
      ensures Valid() && status == (if Settable(p, broker) then Success else BrokerFailed)
      ensures status == Success ==>
                && touched == old(touched) - {p} && stray == old(stray) - {p} && L() == old(L()).With(p, boot[p])
                && Elsewhere(block, old(P()), P(), {p}) && ConfigOf(block, P(), p) == Boot(boot[p])
      ensures status != Success ==>
                && L() == old(L()) && touched == old(touched) && stray == old(stray) + (if p !in old(touched) && Driven(boot[p]) then {p} else {})
                && Elsewhere(block, old(P()), P(), {p})
                && (p !in touched && Driven(boot[p]) && p !in old(stray) ==> ConfigOf(block, P(), p) != Boot(boot[p]))
    {
      hide ConfigOf, Sets, Elsewhere, Untouched, Driven, Held, Settable, Sensible, Orderly, Lines.With;
      SensibleAt(block, boot);
      ghost var start := P();
      status := Restore(p, boot[p], broker);
      if status == Success {
        Untouch(p, start);
      } else {
        Astray(p, start);
      }
    }

    // What a restored pin counts as, and one that was not.
    ghost predicate Kept(start: Pads)
      reads this`resume, this`ioOwned, this`outputOwned, this`irqOwned, this`functionOwned, this`touched, this`irqMask, this`stray
    {
      && Fixed() && Sensible(block, resume) && Orderly(O()) && touched <= valid && irqMask <= irqOwned
      && Untouched(block, start, boot, valid - touched - stray)
    }

    method Untouch(p: nat, ghost start: Pads)
      requires Kept(start) && p in valid && p !in O().All() && Sets(block, start, P(), p, Boot(boot[p]))
      modifies this`touched, this`stray
      ensures Valid() && touched == old(touched) - {p} && stray == old(stray) - {p}
      ensures Elsewhere(block, start, P(), {p}) && ConfigOf(block, P(), p) == Boot(boot[p])
    {
      hide ConfigOf, Sets, Elsewhere, Untouched, Sensible;
      ghost var pins := valid - touched - stray;
      SensibleAt(block, boot);
      SetsKeeps(block, start, P(), boot, pins, p, Boot(boot[p]));
      touched, stray := touched - {p}, stray - {p};
      assert pins + {p} == valid - touched - stray;
    }

    ghost method Astray(p: nat, start: Pads)
      requires Kept(start) && p in valid && Sized(block, start)
      requires var was := ConfigOf(block, start, p);
               Sets(block, start, P(), p, if Held(was, boot[p]) then was else was.(input := true))
      modifies this`stray
      ensures Valid() && stray == old(stray) + (if p !in touched && Driven(boot[p]) then {p} else {})
      ensures Elsewhere(block, start, P(), {p})
      ensures p !in touched && Driven(boot[p]) && p !in old(stray) ==> ConfigOf(block, P(), p) != Boot(boot[p])
    {
      hide ConfigOf, Sets, Elsewhere, Untouched, Sensible, Orderly, Driven, Held;
      var pins, was := valid - touched - stray, ConfigOf(block, start, p);
      SensibleAt(block, boot);
      SetsKeeps(block, start, P(), boot, pins, p, if Held(was, boot[p]) then was else was.(input := true));
      RestoreFailed(p, start, pins, was);
      if p !in touched && Driven(boot[p]) {
        stray := stray + {p};
      }
    }

    // A pin at its boot state stays there unless that state drives it.
    lemma RestoreFailed(p: nat, start: Pads, pins: set<nat>, was: Config)
      requires Fixed() && p in valid && pins == valid - touched - stray && Untouched(block, start, boot, pins) && was == ConfigOf(block, start, p)
      requires var now := if Held(was, boot[p]) then was else was.(input := true);
               && Sized(block, P()) && ConfigOf(block, P(), p) == now
               && Untouched(block, P(), boot, pins - {p}) && (now == Boot(boot[p]) ==> Untouched(block, P(), boot, pins + {p}))
      ensures p !in touched && p !in stray && Driven(boot[p]) ==> ConfigOf(block, P(), p) != Boot(boot[p])
      ensures Untouched(block, P(), boot, valid - touched - (if p !in touched && Driven(boot[p]) then stray + {p} else stray))
    {
      hide ConfigOf, Untouched;
      BootOf(block, start, boot, pins, p);
      if p !in touched && Driven(boot[p]) {
        assert pins - {p} == valid - touched - (stray + {p});
      } else if p in pins {
        assert pins + {p} == pins;
      } else {
        assert pins - {p} == pins;
      }
    }

    // RestoreFree: pins of the mask that nobody owns go back to their boot state
    // and count as untouched again. `works` are the pins the broker would set.
    method RestoreFree(mask: set<nat>, works: set<nat>) returns (status: Status, ghost failed: nat)
      requires Valid() && mask <= valid
      modifies words, this`oden, this`dir, this`floated, this`data, this`edge, this`both, this`level, this`touched, this`stray
      ensures Valid() && O() == old(O()).(touched := touched) && touched <= old(touched)
      ensures status == Success || status == BrokerFailed
      ensures status == Success <==> forall p :: p in mask && p !in O().All() ==> Settable(p, p in works)
      ensures status == Success ==> touched == old(touched) - (mask - O().All()) && stray == old(stray) - (mask - O().All())
      ensures status == Success ==> forall p :: p in mask && p !in O().All() ==> ConfigOf(block, P(), p) == Boot(boot[p]) && L().Show(p, boot[p])
      ensures Elsewhere(block, old(P()), P(), mask - O().All()) && L().But(mask - O().All()) == old(L()).But(mask - O().All())
      // A failure leaves at most the failing pin astray: one that was untouched,
      // and whose boot state drives it by other than the plain output function.
      ensures status != Success ==>
                && failed in mask && failed in valid && failed !in O().All() && !Settable(failed, failed in works)
                && (forall p :: p in mask && p !in O().All() && p < failed ==> Settable(p, p in works))
                && touched == old(touched) - Below(mask - O().All(), failed) && stray <= old(stray) + {failed}
                && (failed !in old(stray) ==> (failed in stray <==> failed !in old(touched) && Driven(boot[failed])))
                && (failed !in old(stray) && failed in stray ==> ConfigOf(block, P(), failed) != Boot(boot[failed]))
    {
      hide ConfigOf, Sets, Elsewhere, Untouched, Below, Driven, Orderly, Settable, Sensible, Lines.With, Lines.Show, Lines.But;
      SensibleAt(block, boot);
      status, failed := RestorePins(mask - (ioOwned + irqOwned + functionOwned), works);
    }

    // The same for pins all of which nobody owns.
    method RestorePins(free: set<nat>, works: set<nat>) returns (status: Status, ghost failed: nat)
      requires Valid() && free <= valid && free !! O().All()
      modifies words, this`oden, this`dir, this`floated, this`data, this`edge, this`both, this`level, this`touched, this`stray
      ensures Valid() && O() == old(O()).(touched := touched) && touched <= old(touched)
      ensures status == (if forall p :: p in free ==> Settable(p, p in works) then Success else BrokerFailed)
      ensures status == Success ==> touched == old(touched) - free && stray == old(stray) - free
      ensures status == Success ==> forall p :: p in free ==> p < |boot| && ConfigOf(block, P(), p) == Boot(boot[p]) && L().Show(p, boot[p])
      ensures Elsewhere(block, old(P()), P(), free) && L().But(free) == old(L()).But(free)
      ensures status != Success ==>
                && failed in free && failed < |boot| && !Settable(failed, failed in works)
                && (forall p :: p in free && p < failed ==> Settable(p, p in works))
                && touched == old(touched) - Below(free, failed) && stray <= old(stray) + {failed}
                && (failed !in old(stray) ==> (failed in stray <==> failed !in old(touched) && Driven(boot[failed])))
                && (failed !in old(stray) && failed in stray ==> ConfigOf(block, P(), failed) != Boot(boot[failed]))
    {
      hide ConfigOf, Elsewhere, Untouched, Below, Driven, Orderly, Settable, Sensible, Back, Lines.Show, Lines.But;
      ghost var start, lines := P(), L();
      SensibleAt(block, boot);
      NoneBack(free, works);
      BelowAll(free);
      status, failed := RestoreUpTo(start, lines, free, works);
      BackMeans(start, lines, free, works, if status == Success then PINS else failed);
    }

    method RestoreUpTo(ghost start: Pads, ghost lines: Lines, free: set<nat>, works: set<nat>) returns (status: Status, ghost failed: nat)
      requires Valid() && free <= valid && free !! O().All() && Back(start, lines, free, works, 0)
      modifies words, this`oden, this`dir, this`floated, this`data, this`edge, this`both, this`level, this`touched, this`stray
      ensures Valid() && O() == old(O()).(touched := touched)
      ensures Back(start, lines, free, works, if status == Success then PINS else failed)
      ensures status == Success ==> touched == old(touched) - Below(free, PINS) && stray == old(stray) - Below(free, PINS)
      ensures status != Success ==>
                && status == BrokerFailed && failed in free && failed < |boot| && block.Exists(failed) && !Settable(failed, failed in works)
                && touched == old(touched) - Below(free, failed)
                && stray == old(stray) - Below(free, failed) + (if failed !in old(touched) && Driven(boot[failed]) then {failed} else {})
                && failed !in Below(free, failed)
                && (failed !in touched && Driven(boot[failed]) && failed !in old(stray) ==> ConfigOf(block, P(), failed) != Boot(boot[failed]))
    {
      hide ConfigOf, Elsewhere, Untouched, Below, Driven, Orderly, Settable, Sensible, Back, Lines.Show, Lines.But;
      SensibleAt(block, boot);
      BelowNext(free, 0);
      failed := 0;
      for p := 0 to PINS
        invariant Valid() && O() == old(O()).(touched := touched) && Back(start, lines, free, works, p)
        invariant touched == old(touched) - Below(free, p) && stray == old(stray) - Below(free, p)
      {
        BelowNext(free, p);
        NotBelow(free, p);
        if p in free {
          status := RestoreNext(p, start, lines, free, works);
          if status != Success {
            failed := p;
            return;
          }
        } else {
          BackSkip(start, lines, free, works, p);
        }
      }
      status := Success;
    }

    // The free pins below n are as they were at boot, and no other pin has changed.
    ghost predicate Back(start: Pads, lines: Lines, free: set<nat>, works: set<nat>, n: nat)
      reads words, this`oden, this`dir, this`data, this`edge, this`both, this`level
    {
      && Elsewhere(block, start, P(), free) && L().But(free) == lines.But(free)
      && forall q :: q in free && q < n && q < |boot| && block.Exists(q) ==>
           ConfigOf(block, P(), q) == Boot(boot[q]) && L().Show(q, boot[q]) && Settable(q, q in works)
    }

    lemma NoneBack(free: set<nat>, works: set<nat>)
      requires Sized(block, P())
      ensures Back(P(), L(), free, works, 0)
    {
    }

    lemma BackSkip(start: Pads, lines: Lines, free: set<nat>, works: set<nat>, n: nat)
      requires Back(start, lines, free, works, n) && n !in free
      ensures Back(start, lines, free, works, n + 1)
    {
      hide Elsewhere, ConfigOf, Settable, Lines.Show, Lines.But;
    }

    lemma BackMeans(start: Pads, lines: Lines, free: set<nat>, works: set<nat>, n: nat)
      requires Back(start, lines, free, works, n)
      ensures Elsewhere(block, start, P(), free) && L().But(free) == lines.But(free)
      ensures forall q :: q in free && q < n && q < |boot| && block.Exists(q) ==>
                ConfigOf(block, P(), q) == Boot(boot[q]) && L().Show(q, boot[q]) && Settable(q, q in works)
    {
      hide Elsewhere, ConfigOf, Settable, Lines.Show, Lines.But;
    }

    method RestoreNext(p: nat, ghost start: Pads, ghost lines: Lines, ghost free: set<nat>, works: set<nat>) returns (status: Status)
      requires Valid() && p in valid && p !in O().All() && p in free && Back(start, lines, free, works, p)
      modifies words, this`oden, this`dir, this`floated, this`data, this`edge, this`both, this`level, this`touched, this`stray
      ensures Valid() && status == (if Settable(p, p in works) then Success else BrokerFailed)
      ensures Back(start, lines, free, works, if status == Success then p + 1 else p)
      ensures status == Success ==> touched == old(touched) - {p} && stray == old(stray) - {p}
      ensures status != Success ==>
                && touched == old(touched) && stray == old(stray) + (if p !in old(touched) && Driven(boot[p]) then {p} else {})
                && (p !in touched && Driven(boot[p]) && p !in old(stray) ==> ConfigOf(block, P(), p) != Boot(boot[p]))
    {
      hide ConfigOf, Sets, Elsewhere, Untouched, Driven, Orderly, Settable, Sensible, Lines.With, Lines.Show, Lines.But;
      SensibleAt(block, boot);
      ghost var mid := P();
      LinesWith(lines, L(), free, p, boot[p]);
      status := RestoreOne(p, p in works);
      ElsewhereMore(block, start, mid, P(), free, p);
    }

    // ----- connecting and disconnecting -----

    predicate Named(bank: nat, pins: seq<nat>) {
      bank == 0 && 0 < |pins| <= PINS && Distinct(pins) && forall k :: 0 <= k < |pins| ==> pins[k] in valid
    }

    // BcmMask: distinct, valid pins of bank 0.
    method MaskOf(bank: nat, pins: seq<nat>) returns (ok: bool, mask: set<nat>)
      requires Fixed()
      ensures ok <==> Named(bank, pins)
      ensures ok ==> mask == Pins(pins) && mask <= valid
    {
      mask := {};
      if bank != 0 || pins == [] || |pins| > PINS {
        return false, mask;
      }
      for i := 0 to |pins|
        invariant mask == (set k | 0 <= k < i :: pins[k]) && mask <= valid
        invariant forall j, k :: 0 <= j < k < i ==> pins[j] != pins[k]
        invariant forall k :: 0 <= k < i ==> pins[k] in valid
      {
        if pins[i] >= PINS || pins[i] !in valid || pins[i] in mask {
          return false, mask;
        }
        mask := mask + {pins[i]};
      }
      ok := true;
    }

    predicate Claimable(mask: set<nat>, alt: bv32, pull: Resistor)
      requires |boot| == PINS
      reads this`started
    {
      && started && pull != Other
      && forall p :: p in mask && p < PINS ==>
           && (block.Of(p).Pin? && block.Of(p).pull.NoPull? ==> pull == Default || pull == None)
           && (boot[p].mux == 0 || boot[p].mux == alt)
    }

    // CanClaim.
    method CanClaim(mask: set<nat>, alt: bv32, pull: Resistor) returns (status: Status)
      requires Fixed() && mask <= valid
      ensures status == Success <==> Claimable(mask, alt, pull)
      ensures status in {Success, NotReady, NotSupported, DeviceBusy}
      ensures status == NotReady <==> !started
      ensures status == NotSupported ==> pull == Other || exists p :: p in mask && block.Of(p).pull.NoPull? && pull != Default && pull != None
      ensures status == DeviceBusy ==> pull != Other && exists p :: p in mask && boot[p].mux != 0 && boot[p].mux != alt
    {
      if !started {
        return NotReady;
      }
      if pull == Other {
        return NotSupported;
      }
      for p := 0 to PINS
        invariant forall q :: q in mask && q < p ==>
                    && (block.Of(q).pull.NoPull? ==> pull == Default || pull == None)
                    && (boot[q].mux == 0 || boot[q].mux == alt)
      {
        if p in mask {
          if block.Of(p).pull.NoPull? && pull != Default && pull != None {
            return NotSupported;
          }
          if boot[p].mux != 0 && boot[p].mux != alt {
            return DeviceBusy;
          }
        }
      }
      status := Success;
    }

    // Configure all pins of a mask alike; no other pin is disturbed.
    method ConfigureAll(mask: set<nat>, alt: bv32, output: bool, pull: Resistor)
      requires Valid() && mask <= valid && alt & 15 == alt
      modifies words, this`oden, this`dir, this`floated, this`touched
      ensures Valid() && touched == old(touched) + mask
      ensures Elsewhere(block, old(P()), P(), mask)
      ensures forall p :: p in mask ==> ConfigOf(block, P(), p) == Config(alt, PullFor(p, pull), false, !output)
      ensures floated == old(floated) + Loose(block, old(P()), mask, alt, output)
    {
      hide ConfigOf, Sets, Elsewhere, Untouched, Below, Orderly, Sensible, Loose, Steady, PullFor;
      ghost var start := P();
      BelowNext(mask, 0);
      BelowAll(mask);
      NoneLoose(block, start, alt, output);
      SensibleAt(block, boot);
      ElsewhereNothing(block, start, {});
      for p := 0 to PINS
        invariant Valid() && touched == old(touched) + Below(mask, p)
        invariant Elsewhere(block, start, P(), Below(mask, p))
        invariant forall q :: q in mask && q < p ==> ConfigOf(block, P(), q) == Config(alt, PullFor(q, pull), false, !output)
        invariant floated == old(floated) + Loose(block, start, Below(mask, p), alt, output)
      {
        BelowNext(mask, p);
        if p in mask {
          ghost var mid := P();
          NotBelow(mask, p);
          SameThere(block, start, mid, Below(mask, p), p);
          LooseMore(block, start, Below(mask, p), p, alt, output);
          ConfigureOne(p, alt, output, pull);
          ElsewhereWider(block, start, mid, Below(mask, p), Below(mask, p + 1));
          ElsewhereMore(block, start, mid, P(), Below(mask, p + 1), p);
        } else {
          assert Below(mask, p) + {} == Below(mask, p);
        }
      }
    }

    method ConfigureOne(p: nat, alt: bv32, output: bool, pull: Resistor)
      requires Valid() && p in valid && alt & 15 == alt
      modifies words, this`oden, this`dir, this`floated, this`touched
      ensures Valid() && touched == old(touched) + {p}
      ensures Elsewhere(block, old(P()), P(), {p})
      ensures ConfigOf(block, P(), p) == Config(alt, PullFor(p, pull), false, !output)
      ensures floated == old(floated) + if output && alt == 0 && Steady(old(ConfigOf(block, P(), p))) then {} else {p}
    {
      hide ConfigOf, Sets, Elsewhere, Untouched, Steady;
      ghost var start, pins, c := P(), valid - touched - stray, Config(alt, PullFor(p, pull), false, !output);
      Configure(p, alt, output, pull);
      SetsOne(block, start, P(), p, c);
      SetsElsewhere(block, start, P(), p, c);
      UntouchedSets(block, start, P(), boot, pins, p, c);
      assert pins - {p} == valid - touched - stray;
    }

    function Pins(pins: seq<nat>): set<nat> {
      set k | 0 <= k < |pins| :: pins[k]
    }

    // What a refused connection is told, by the first test it fails.
    predicate IoRefusal(status: Status, bank: nat, pins: seq<nat>, plain: bool, alt: bv32, pull: Resistor)
      requires |boot| == PINS
      reads this`started
    {
      && (status == InvalidParameter <==> !Named(bank, pins))
      && (Named(bank, pins) && !plain ==> status == NotSupported)
      && (Named(bank, pins) && plain ==> (status == NotReady <==> !started))
      && (status == SharingViolation ==> Named(bank, pins) && plain && Claimable(Pins(pins), alt, pull))
      && (Named(bank, pins) && plain && Claimable(Pins(pins), alt, pull) ==> status == Success || status == SharingViolation)
    }

    // A connection that may be made.
    predicate IoFree(bank: nat, pins: seq<nat>, output: bool, plain: bool, pull: Resistor)
      requires |boot| == PINS
      reads this`started, this`ioOwned, this`functionOwned, this`irqOwned
    {
      && Named(bank, pins) && plain && Claimable(Pins(pins), 0, pull)
      && Pins(pins) !! ioOwned + functionOwned && (output ==> Pins(pins) !! irqOwned)
    }

    // BcmConnect. An input may share its pin with an interrupt; nothing else is
    // shared. `plain` says that drive strength and vendor data are absent.
    method Connect(bank: nat, pins: seq<nat>, output: bool, plain: bool, pull: Resistor) returns (status: Status)
      requires Valid()
      modifies words, this`oden, this`dir, this`floated, this`touched, this`ioOwned, this`outputOwned
      ensures Valid()
      ensures status != Success ==> O() == old(O()) && P() == old(P())
      ensures status == Success <==> old(IoFree(bank, pins, output, plain, pull))
      ensures old(IoRefusal(status, bank, pins, plain, 0, pull))
      ensures status == Success ==>
                var mask := Pins(pins);
                && O() == old(O()).(io := old(ioOwned) + mask, output := old(outputOwned) + (if output then mask else {}), touched := old(touched) + mask)
                && Elsewhere(block, old(P()), P(), mask)
                && floated == old(floated) + Loose(block, old(P()), mask, 0, output)
                && forall p :: p in mask ==> ConfigOf(block, P(), p) == Config(0, PullFor(p, pull), false, !output)
    {
      hide ConfigOf, Elsewhere, Untouched, Claimable, Named, Loose, PullFor;
      var mask;
      status, mask := IoClaim(bank, pins, output, plain, pull);
      if status != Success {
        return;
      }
      ConfigureAll(mask, 0, output, pull);
      ioOwned := ioOwned + mask;
      if output {
        outputOwned := outputOwned + mask;
      }
    }

    // BcmDisconnect. Unless the configuration is to be kept, pins that no
    // interrupt holds go back to their boot state.
    method Disconnect(bank: nat, pins: seq<nat>, preserve: bool, works: set<nat>) returns (status: Status, ghost failed: nat)
      requires Valid()
      modifies this, words
      ensures Valid()
      ensures status == InvalidParameter <==> !Named(bank, pins)
      ensures status == InvalidParameter ==> O() == old(O()) && P() == old(P())
      ensures status != InvalidParameter ==>
                var mask := Pins(pins);
                && mask <= valid && O() == old(O()).(io := old(ioOwned) - mask, output := old(outputOwned) - mask, touched := touched)
                && (status == Success <==> preserve || forall p :: p in mask && p !in O().All() ==> Settable(p, p in works))
                && Elsewhere(block, old(P()), P(), mask - O().All()) && L().But(mask - O().All()) == old(L()).But(mask - O().All())
                && (mask <= old(touched) ==> stray <= old(stray))
                && (preserve ==> status == Success && P() == old(P()) && touched == old(touched))
                && (!preserve && status == Success ==> forall p :: p in mask && p !in O().All() ==> p !in touched && ConfigOf(block, P(), p) == Boot(boot[p]) && L().Show(p, boot[p]))
    {
      hide ConfigOf, Elsewhere, Untouched;
      failed := 0;
      var ok, mask := MaskOf(bank, pins);
      if !ok {
        return InvalidParameter, failed;
      }
      ioOwned, outputOwned := ioOwned - mask, outputOwned - mask;
      ElsewhereNothing(block, P(), mask - O().All());
      status := Success;
      if !preserve {
        status, failed := RestoreFree(mask, works);
      }
    }

    // What is asked of a connection before anything changes.
    method IoClaim(bank: nat, pins: seq<nat>, output: bool, plain: bool, pull: Resistor) returns (status: Status, mask: set<nat>)
      requires Fixed()
      ensures status == Success ==> mask == Pins(pins) && mask <= valid
      ensures status == Success <==> IoFree(bank, pins, output, plain, pull)
      ensures IoRefusal(status, bank, pins, plain, 0, pull)
    {
      hide Claimable, Distinct;
      var ok;
      ok, mask := MaskOf(bank, pins);
      if !ok {
        return InvalidParameter, mask;
      }
      if !plain {
        return NotSupported, mask;
      }
      status := CanClaim(mask, 0, pull);
      if status == Success && (!(mask !! (ioOwned + functionOwned)) || (output && !(mask !! irqOwned))) {
        status := SharingViolation;
      }
    }

    // A function that may be connected.
    predicate FunctionFree(bank: nat, pins: seq<nat>, number: bv32, plain: bool, pull: Resistor)
      requires |boot| == PINS
      reads this`started, this`ioOwned, this`functionOwned, this`irqOwned
    {
      Named(bank, pins) && 1 <= number <= 8 && plain && Claimable(Pins(pins), number, pull) && Pins(pins) !! ioOwned + irqOwned + functionOwned
    }

    // What is asked of a function before anything changes.
    method FunctionClaim(bank: nat, pins: seq<nat>, number: bv32, plain: bool, pull: Resistor) returns (status: Status, mask: set<nat>)
      requires Fixed()
      ensures status == Success ==> mask == Pins(pins) && mask <= valid
      ensures status == Success <==> FunctionFree(bank, pins, number, plain, pull)
      ensures IoRefusal(status, bank, pins, plain && 1 <= number <= 8, number, pull)
    {
      hide Claimable, Distinct;
      var ok;
      ok, mask := MaskOf(bank, pins);
      if !ok {
        return InvalidParameter, mask;
      }
      if number == 0 || number > 8 || !plain {
        return NotSupported, mask;
      }
      status := CanClaim(mask, number, pull);
      if status == Success && !(mask !! (ioOwned + irqOwned + functionOwned)) {
        status := SharingViolation;
      }
    }

    // BcmConnectFunction.
    method ConnectFunction(bank: nat, pins: seq<nat>, number: bv32, plain: bool, pull: Resistor) returns (status: Status)
      requires Valid()
      modifies words, this`oden, this`dir, this`floated, this`touched, this`functionOwned
      ensures Valid()
      ensures status != Success ==> O() == old(O()) && P() == old(P())
      ensures status == Success <==> old(FunctionFree(bank, pins, number, plain, pull))
      ensures old(IoRefusal(status, bank, pins, plain && 1 <= number <= 8, number, pull))
      ensures status == Success ==>
                var mask := Pins(pins);
                && O() == old(O()).(alt := old(functionOwned) + mask, touched := old(touched) + mask)
                && Elsewhere(block, old(P()), P(), mask)
                && forall p :: p in mask ==> ConfigOf(block, P(), p) == Config(number, PullFor(p, pull), false, true)
    {
      hide ConfigOf, Elsewhere, Untouched, Claimable, Named;
      var mask;
      status, mask := FunctionClaim(bank, pins, number, plain, pull);
      if status != Success {
        return;
      }
      SmallNumber(number);
      ConfigureAll(mask, number, false, pull);
      functionOwned := functionOwned + mask;
    }

    // BcmDisconnectFunction.
    method DisconnectFunction(bank: nat, pins: seq<nat>, works: set<nat>) returns (status: Status, ghost failed: nat)
      requires Valid()
      modifies this, words
      ensures Valid()
      ensures status == InvalidParameter <==> !Named(bank, pins)
      ensures status == InvalidParameter ==> O() == old(O()) && P() == old(P())
      ensures status != InvalidParameter ==>
                var mask := Pins(pins);
                && mask <= valid && O() == old(O()).(alt := old(functionOwned) - mask, touched := touched)
                && Elsewhere(block, old(P()), P(), mask - O().All()) && L().But(mask - O().All()) == old(L()).But(mask - O().All())
                && (mask <= old(touched) ==> stray <= old(stray))
                && (status == Success <==> forall p :: p in mask && p !in O().All() ==> Settable(p, p in works))
                && (status != Success ==>
                      && failed in mask && failed !in O().All() && !Settable(failed, failed in works)
                      && (forall p :: p in mask && p !in O().All() && p < failed ==> Settable(p, p in works))
                      && touched == old(touched) - Below(mask - O().All(), failed))
                && (status == Success ==> forall p :: p in mask && p !in O().All() ==> p !in touched && ConfigOf(block, P(), p) == Boot(boot[p]) && L().Show(p, boot[p]))
                && (status != Success && failed !in old(stray) ==>
                      failed in mask && failed in valid && (failed in stray <==> failed !in old(touched) && Driven(boot[failed]))
                      && (failed in stray ==> failed !in touched && ConfigOf(block, P(), failed) != Boot(boot[failed])))
    {
      hide ConfigOf, Elsewhere, Untouched;
      failed := 0;
      var ok, mask := MaskOf(bank, pins);
      if !ok {
        return InvalidParameter, failed;
      }
      functionOwned := functionOwned - mask;
      status, failed := RestoreFree(mask, works);
    }

    // ----- interrupts -----

    predicate Triggerable(mode: Mode, polarity: Polarity) {
      && (mode == Latched || mode == LevelSensitive)
      && (polarity == Low || polarity == High || (polarity == Polarity.Both && mode == Latched))
    }

    // What a refused interrupt is told.
    predicate IrqRefusal(status: Status, bank: nat, p: nat, plain: bool, pull: Resistor)
      requires |boot| == PINS
      reads this`started
    {
      var given := bank == 0 && p in valid;
      && (block.aon ==> status == NotSupported)
      && (status == InvalidParameter <==> !block.aon && !given)
      && (!block.aon && given && !plain ==> status == NotSupported)
      && (status == SharingViolation ==> !block.aon && given && plain && Claimable({p}, 0, pull))
      && (!block.aon && given && plain ==> (status == NotReady <==> !started))
      && (!block.aon && given && plain && Claimable({p}, 0, pull) ==> status == Success || status == SharingViolation)
    }

    // An interrupt that may be enabled.
    predicate IrqFree(bank: nat, p: nat, plain: bool, pull: Resistor)
      requires |boot| == PINS
      reads this`started, this`functionOwned, this`outputOwned, this`irqOwned
    {
      !block.aon && bank == 0 && p in valid && plain && Claimable({p}, 0, pull) && p !in functionOwned + outputOwned + irqOwned
    }

    method MaskOfOne(bank: nat, p: nat) returns (ok: bool, mask: set<nat>)
      requires Fixed()
      ensures ok <==> bank == 0 && p in valid
      ensures ok ==> mask == {p} && mask <= valid
    {
      hide Sensible;
      ok, mask := MaskOf(bank, [p]);
      assert [p][0] == p;
    }

    // What is asked of an interrupt pin before anything changes.
    method IrqClaim(bank: nat, p: nat, plain: bool, pull: Resistor) returns (status: Status)
      requires Fixed()
      ensures status == Success <==> IrqFree(bank, p, plain, pull)
      ensures IrqRefusal(status, bank, p, plain, pull)
    {
      hide Claimable, Sensible;
      if block.aon {
        return NotSupported;
      }
      var ok, mask := MaskOfOne(bank, p);
      if !ok {
        return InvalidParameter;
      }
      if !plain {
        return NotSupported;
      }
      status := CanClaim(mask, 0, pull);
      if status == Success && (p in functionOwned || p in outputOwned || p in irqOwned) {
        status := SharingViolation;
      }
    }

    // BcmTrigger.
    method Trigger(p: nat, mode: Mode, polarity: Polarity) returns (status: Status)
      // A pin is masked while its trigger changes.
      requires p !in irqMask
      modifies this`edge, this`both, this`level
      ensures status == if Triggerable(mode, polarity) then Success else NotSupported
      ensures status == Success ==>
                && edge == Put(old(edge), p, polarity == High) && both == Put(old(both), p, polarity == Polarity.Both)
                && level == Put(old(level), p, mode == LevelSensitive)
      ensures status != Success ==> edge == old(edge) && both == old(both) && level == old(level)
    {
      if (mode != Latched && mode != LevelSensitive) ||
         (polarity != Low && polarity != High && !(polarity == Polarity.Both && mode == Latched)) {
        return NotSupported;
      }
      edge := Put(edge, p, polarity == High);
      both := Put(both, p, polarity == Polarity.Both);
      level := Put(level, p, mode == LevelSensitive);
      status := Success;
    }

    // BcmEnableInterrupt: the pin becomes an input; outputs, functions and other
    // interrupts keep theirs.
    method EnableInterrupt(bank: nat, p: nat, mode: Mode, polarity: Polarity, plain: bool, pull: Resistor) returns (status: Status)
      requires Valid()
      modifies words, this`oden, this`dir, this`floated, this`edge, this`both, this`level, this`touched, this`irqOwned, this`irqMask
      ensures Valid()
      ensures status != Success ==>
                O() == old(O()) && P() == old(P()) && irqMask == old(irqMask) && edge == old(edge) && both == old(both) && level == old(level)
      ensures status == Success <==> old(IrqFree(bank, p, plain, pull)) && Triggerable(mode, polarity)
      ensures !old(IrqFree(bank, p, plain, pull)) ==> old(IrqRefusal(status, bank, p, plain, pull))
      ensures status == Success ==>
                && edge == Put(old(edge), p, polarity == High) && both == Put(old(both), p, polarity == Polarity.Both)
                && level == Put(old(level), p, mode == LevelSensitive)
                && O() == old(O()).(irq := old(irqOwned) + {p}, touched := old(touched) + {p})
                && irqMask == old(irqMask) + {p}
                && Elsewhere(block, old(P()), P(), {p})
                && ConfigOf(block, P(), p) == Config(0, PullFor(p, pull), false, true)
    {
      hide ConfigOf, Elsewhere, Untouched, Claimable, Triggerable, Sensible;
      status := IrqClaim(bank, p, plain, pull);
      if status != Success {
        return;
      }
      status := Trigger(p, mode, polarity);
      if status != Success {
        return;
      }
      Arm(p, pull);
    }

    method Arm(p: nat, pull: Resistor)
      requires Valid() && p in valid && p !in functionOwned + outputOwned
      modifies words, this`oden, this`dir, this`floated, this`touched, this`irqOwned, this`irqMask
      ensures Valid()
      ensures O() == old(O()).(irq := old(irqOwned) + {p}, touched := old(touched) + {p})
      ensures irqMask == old(irqMask) + {p}
      ensures Elsewhere(block, old(P()), P(), {p})
      ensures ConfigOf(block, P(), p) == Config(0, PullFor(p, pull), false, true)
    {
      hide ConfigOf, Elsewhere, Untouched, Sensible;
      ConfigureOne(p, 0, false, pull);
      irqOwned := irqOwned + {p};
      irqMask := Put(irqMask, p, true);
    }

    // BcmDisableInterrupt.
    method DisableInterrupt(bank: nat, p: nat, works: set<nat>) returns (status: Status, ghost failed: nat)
      requires Valid()
      modifies this, words
      ensures Valid()
      ensures status == NotSupported <==> block.aon
      ensures status == InvalidParameter <==> !block.aon && (bank != 0 || p !in valid)
      ensures status == InvalidParameter || status == NotSupported ==> O() == old(O()) && P() == old(P()) && irqMask == old(irqMask)
      ensures status == Success || status == BrokerFailed ==>
                && p in valid && O() == old(O()).(irq := old(irqOwned) - {p}, touched := touched) && irqMask == old(irqMask) - {p}
                && (status == Success <==> p in O().All() || Settable(p, p in works))
                && Elsewhere(block, old(P()), P(), {p} - O().All()) && L().But({p} - O().All()) == old(L()).But({p} - O().All())
                && (status == Success && p !in O().All() ==> p !in touched && ConfigOf(block, P(), p) == Boot(boot[p]) && L().Show(p, boot[p]))
    {
      hide ConfigOf, Elsewhere, Untouched;
      failed := 0;
      if block.aon {
        return NotSupported, failed;
      }
      var ok, mask := MaskOfOne(bank, p);
      if !ok {
        return InvalidParameter, failed;
      }
      irqMask := Put(irqMask, p, false);
      irqOwned := irqOwned - {p};
      status, failed := RestoreFree(mask, works);
    }

    // BcmReconfigureInterrupt: only how the pin triggers.
    method ReconfigureInterrupt(bank: nat, p: nat, mode: Mode, polarity: Polarity) returns (status: Status)
      requires Valid()
      modifies this`edge, this`both, this`level, this`irqMask
      ensures Valid() && irqMask == old(irqMask)
      ensures status == if block.aon then NotSupported
                        else if bank != 0 || p !in valid then InvalidParameter
                        else if Triggerable(mode, polarity) then Success
                        else NotSupported
      ensures status == Success ==>
                && edge == Put(old(edge), p, polarity == High) && both == Put(old(both), p, polarity == Polarity.Both)
                && level == Put(old(level), p, mode == LevelSensitive)
      ensures status != Success ==> edge == old(edge) && both == old(both) && level == old(level)
    {
      hide ConfigOf, Elsewhere, Untouched, Orderly, Sensible;
      if block.aon {
        return NotSupported;
      }
      var ok, mask := MaskOfOne(bank, p);
      if !ok {
        return InvalidParameter;
      }
      var enabled := p in irqMask;
      irqMask := Put(irqMask, p, false);
      status := Trigger(p, mode, polarity);
      irqMask := Put(irqMask, p, enabled);
    }

    // BcmWritePins: levels only.
    method WritePins(bank: nat, up: set<nat>, down: set<nat>, broker: bool) returns (status: Status)
      requires Valid()
      modifies this`data
      ensures Valid()
      ensures status == if bank != 0 || !started || !(up + down <= valid) || !(up !! down) then InvalidParameter
                        else if exists p :: p in up + down && !Settable(p, broker) then BrokerFailed
                        else Success
      ensures data == if status == Success then old(data) - down + up else old(data)
    {
      hide ConfigOf, Elsewhere, Untouched;
      if bank != 0 || !started {
        return InvalidParameter;
      }
      status := WriteData(up, down, broker);
    }

    // ----- power -----

    // BcmSnapshot.
    method Snapshot(p: nat, high: bool) returns (s: PinState)
      requires Fixed() && p in valid
      ensures Boot(s) == ConfigOf(block, P(), p) && s.data == high
      ensures s.edge == (p in edge) && s.both == (p in both) && s.level == (p in level)
      ensures s.mux & 15 == s.mux && s.pull & 3 == s.pull && (block.Of(p).pull.NoPull? ==> s.pull == 0)
    {
      Mapped(block, p);
      var mux := FieldRead(block.Mux(p));
      var pull := 0;
      if block.Of(p).pull.PullAt? {
        pull := FieldRead(block.Pull(p));
        MaskedRead(words[..], block.Pull(p));
      }
      MaskedRead(words[..], block.Mux(p));
      s := PinState(mux, pull, high, p in dir, p in oden, p in edge, p in both, p in level);
    }

    // Any state for a pin that has been configured.
    method RestoreTouched(p: nat, s: PinState, broker: bool) returns (status: Status)
      requires Valid() && p in touched && s.mux & 15 == s.mux && s.pull & 3 == s.pull && (block.Of(p).pull.NoPull? ==> s.pull == 0)
      modifies words, this`oden, this`dir, this`floated, this`data, this`edge, this`both, this`level
      ensures Valid() && Elsewhere(block, old(P()), P(), {p})
      ensures status == Success <==> Settable(p, broker)
      ensures status == Success ==> ConfigOf(block, P(), p) == Boot(s)
      ensures L() == if status == Success then old(L()).With(p, s) else old(L())
    {
      hide ConfigOf, Sets, Elsewhere, Untouched;
      ghost var start, pins, was := P(), valid - touched - stray, ConfigOf(block, P(), p);
      status := Restore(p, s, broker);
      ghost var c := if status == Success then Boot(s) else if Held(was, s) then was else was.(input := true);
      SetsOne(block, start, P(), p, c);
      SetsElsewhere(block, start, P(), p, c);
      UntouchedSets(block, start, P(), boot, pins, p, c);
      assert pins - {p} == pins;
    }

    method RestoreAll(to: seq<PinState>, works: set<nat>, stubborn: bool) returns (status: Status, ghost failed: nat)
      requires Valid() && Sensible(block, to)
      modifies words, this`oden, this`dir, this`floated, this`data, this`edge, this`both, this`level
      ensures Valid() && Elsewhere(block, old(P()), P(), touched) && L().But(touched) == old(L()).But(touched)
      ensures status == Success <==> forall p :: p in touched ==> Settable(p, p in works)
      ensures status == Success ==> forall p :: p in touched ==> ConfigOf(block, P(), p) == Boot(to[p]) && L().Show(p, to[p])
      // One that fails stops the others, unless they are all to be tried.
      ensures status != Success && !stubborn ==>
                && failed in touched && !Settable(failed, failed in works) && Elsewhere(block, old(P()), P(), Below(touched, failed + 1))
                && forall p :: p in touched && p < failed ==> Settable(p, p in works)
      ensures stubborn ==> forall p :: p in touched && Settable(p, p in works) ==> ConfigOf(block, P(), p) == Boot(to[p]) && L().Show(p, to[p])
    {
      hide ConfigOf, Sets, Elsewhere, Untouched, Orderly, Sensible, Settable, Below, Lines.With, Lines.Show, Lines.But;
      ghost var start, lines := P(), L();
      SensibleAt(block, to);
      ElsewhereNothing(block, start, Below(touched, 0));
      failed := 0;
      status := Success;
      for p := 0 to PINS
        invariant Valid() && Elsewhere(block, start, P(), Below(touched, p)) && L().But(touched) == lines.But(touched)
        invariant status == Success <==> forall q :: q in touched && q < p ==> Settable(q, q in works)
        invariant !stubborn ==> status == Success
        invariant forall q :: q in touched && q < p && Settable(q, q in works) ==> ConfigOf(block, P(), q) == Boot(to[q])
        invariant forall q :: q in touched && q < p && Settable(q, q in works) ==> L().Show(q, to[q])
      {
        BelowNext(touched, p);
        if p in touched {
          ghost var mid := P();
          LinesWith(lines, L(), touched, p, to[p]);
          var one := RestoreTouched(p, to[p], p in works);
          ElsewhereWider(block, start, mid, Below(touched, p), Below(touched, p + 1));
          ElsewhereMore(block, start, mid, P(), Below(touched, p + 1), p);
          if one != Success {
            status := one;
            if !stubborn {
              failed := p;
              BelowIn(touched, p + 1);
              ElsewhereWider(block, start, P(), Below(touched, p + 1), touched);
              return;
            }
          }
        } else {
          assert Below(touched, p) + {} == Below(touched, p);
        }
      }
      TouchedBelow();
      ElsewhereWider(block, start, P(), Below(touched, PINS), touched);
    }

    lemma TouchedBelow()
      requires Valid()
      ensures Below(touched, PINS) == touched
    {
      BelowAll(touched);
    }

    // BcmStop: what is configured is remembered if asked for, then every pin goes
    // back to its boot state, whoever owns it.
    method Stop(save: bool, broker: bool, works: set<nat>) returns (status: Status)
      requires Valid()
      modifies this, words
      ensures Valid() && O() == old(O()) && !started && stray == old(stray)
      ensures status == Success <==> (save && block.aon ==> broker) && forall p :: p in touched ==> Settable(p, p in works)
      ensures status == Success ==> forall p :: p in valid && p !in stray ==> ConfigOf(block, P(), p) == Boot(boot[p])
      ensures status == Success ==> forall p :: p in touched ==> L().Show(p, boot[p])
      // A pin that cannot be set does not keep the others from it.
      ensures (save && block.aon ==> broker) ==>
                forall p :: p in touched && Settable(p, p in works) ==> ConfigOf(block, P(), p) == Boot(boot[p]) && L().Show(p, boot[p])
      ensures Elsewhere(block, old(P()), P(), touched) && L().But(touched) == old(L()).But(touched)
      ensures status == Success && save ==> forall p :: p in touched ==> Boot(resume[p]) == old(ConfigOf(block, P(), p)) && old(L()).Show(p, resume[p])
      ensures irqMask == if block.aon then old(irqMask) else old(irqMask) - irqOwned
      ensures status == Success && save && !block.aon ==> resumeMask == old(irqMask) * irqOwned
    {
      hide ConfigOf, Sets, Elsewhere, Untouched, Orderly, Sensible, Settable, Lines.With, Lines.Show, Lines.But;
      ElsewhereNothing(block, P(), touched);
      status := Halt(save, broker);
      if status == Success {
        ghost var failed;
        status, failed := RestoreAll(boot, works, true);
        AllAtBoot();
      }
    }

    // Interrupts off, and the pins' configurations remembered if they are to return.
    method Halt(save: bool, broker: bool) returns (status: Status)
      requires Valid()
      modifies this`started, this`resume, this`resumeMask, this`irqMask
      ensures Valid() && !started
      ensures status == if save && block.aon && !broker then BrokerFailed else Success
      ensures status == Success && save ==> forall p :: p in touched ==> Boot(resume[p]) == ConfigOf(block, P(), p) && L().Show(p, resume[p])
      ensures irqMask == if block.aon then old(irqMask) else old(irqMask) - irqOwned
      ensures save && !block.aon ==> resumeMask == old(irqMask) * irqOwned
    {
      hide ConfigOf, Sets, Elsewhere, Untouched, Orderly, Sensible, Lines.With, Lines.Show, Lines.But;
      started := false;
      if save {
        if block.aon && !broker {
          return BrokerFailed;
        }
        Remember();
      }
      if !block.aon {
        irqMask := irqMask - irqOwned;
      }
      status := Success;
    }

    lemma AllAtBoot()
      requires Valid()
      ensures forall p :: p in valid - touched - stray ==> ConfigOf(block, P(), p) == Boot(boot[p])
    {
    }

    method Remember()
      requires Valid()
      modifies this`resume, this`resumeMask
      ensures Valid() && forall p :: p in touched ==> Boot(resume[p]) == ConfigOf(block, P(), p) && L().Show(p, resume[p])
      ensures resumeMask == if block.aon then {} else irqMask * irqOwned
    {
      hide ConfigOf, Untouched;
      resumeMask := if block.aon then {} else irqMask * irqOwned;
      for p := 0 to PINS
        invariant Sensible(block, resume) && resumeMask == if block.aon then {} else irqMask * irqOwned
        invariant forall q :: q in touched && q < p ==> Boot(resume[q]) == ConfigOf(block, P(), q) && L().Show(q, resume[q])
      {
        if p in touched {
          var s := Snapshot(p, p in data);
          resume := resume[p := s];
        }
      }
    }

    // BcmStart. After a stop that remembered, every pin is as it was before.
    method Start(restore: bool, works: set<nat>) returns (status: Status, ghost failed: nat)
      requires Valid()
      modifies this, words
      ensures Valid() && O() == old(O()) && stray == old(stray) && resume == old(resume)
      ensures status == Success <==> (restore ==> forall p :: p in touched ==> Settable(p, p in works))
      ensures started == (old(started) || status == Success)
      ensures status != Success ==>
                && failed in touched && !Settable(failed, failed in works) && Elsewhere(block, old(P()), P(), Below(touched, failed + 1))
                && forall p :: p in touched && p < failed ==> Settable(p, p in works)
      ensures status == Success && restore ==> forall p :: p in touched ==> ConfigOf(block, P(), p) == Boot(resume[p]) && L().Show(p, resume[p])
      ensures irqMask == if status == Success && restore && !block.aon then old(irqMask) - irqOwned + resumeMask * irqOwned else old(irqMask)
      ensures Elsewhere(block, old(P()), P(), touched) && L().But(touched) == old(L()).But(touched)
      ensures !restore ==> P() == old(P()) && L() == old(L())
    {
      hide ConfigOf, Sets, Elsewhere, Untouched, Orderly, Settable, Below, Lines.With, Lines.Show, Lines.But;
      failed := 0;
      ElsewhereNothing(block, P(), touched);
      if restore {
        status, failed := RestoreAll(resume, works, false);
        if status != Success {
          return;
        }
        if !block.aon {
          irqMask := irqMask - irqOwned + resumeMask * irqOwned;
        }
      }
      started := true;
      status := Success;
    }

    lemma SmallNumber(n: bv32)
      requires n <= 8
      ensures n & 15 == n
    {
    }
  }

  lemma MaskedRead(words: seq<bv32>, f: Field)
    requires f.In(|words|)
    ensures Read(words, f) & f.Bits() == Read(words, f)
  {
  }

  // The condition on restores is needed. Pins 0 and 1 leave a function, and the
  // broker fails for pin 1; the client tries again, and the broker fails for
  // pin 0, which is back at its boot state: it is made an input, and left one.
  method StrayPin() returns (c: Controller)
    ensures c.Valid() && 0 in c.valid && 0 !in c.touched && 0 in c.stray
    ensures ConfigOf(c.block, c.P(), 0) != Boot(c.boot[0])
  {
    var block, registers := Block(false, true), StrayRegisters();
    StrayBoot();
    hide ConfigOf, Untouched, Elsewhere, StrayRegisters, StrayStates, Sensible;
    c := new Controller(block, registers, {}, {1}, {}, StrayStates(), {0, 1});
    c.started := true;
    var pins := [0, 1];
    assert (set k | 0 <= k < |pins| :: pins[k]) == {0, 1} by {
      assert pins[0] == 0 && pins[1] == 1;
    }
    var status := c.ConnectFunction(0, pins, 1, true, Default);
    assert status == Success;
    ghost var failed;
    status, failed := c.DisconnectFunction(0, pins, {0});
    assert failed == 1;
    status, failed := c.DisconnectFunction(0, pins, {});
    assert failed == 0;
  }

  // Pin 0 of the always-on block has its alternate function 1, and drives; pin 1
  // is an input.
  function StrayRegisters(): seq<bv32> {
    Write(seq(8, _ => 0), Field(96, true), 1)
  }

  function StrayStates(): seq<PinState> {
    seq(PINS, i => PinState(if i == 0 then 1 else 0, 0, false, i != 0, false, false, false, false))
  }

  lemma StrayBoot()
    ensures var b := Block(false, true);
            && b.Exists(0) && b.Exists(1) && Registers(false, true) == |StrayRegisters()| == 8
            && Sensible(b, StrayStates()) && Untouched(b, Pads(StrayRegisters(), {}, {1}), StrayStates(), {0, 1})
            && Driven(StrayStates()[0]) && StrayStates()[0].mux == 1 && StrayStates()[1].mux == 0
  {
    var b, zeros, f := Block(false, true), seq(8, _ => 0 as bv32), Field(96, true);
    WriteReadsBack(zeros, f, 1);
    WriteElsewhere(zeros, f, 1, b.Pull(0));
    WriteElsewhere(zeros, f, 1, b.Pull(1));
    WriteElsewhere(zeros, f, 1, b.Mux(1));
    assert Read(zeros, b.Pull(0)) == Read(zeros, b.Pull(1)) == Read(zeros, b.Mux(1)) == 0;
    assert ConfigOf(b, Pads(StrayRegisters(), {}, {1}), 0) == Boot(StrayStates()[0]);
    assert ConfigOf(b, Pads(StrayRegisters(), {}, {1}), 1) == Boot(StrayStates()[1]);
  }

  predicate Distinct(pins: seq<nat>) {
    forall j, k :: 0 <= j < k < |pins| ==> pins[j] != pins[k]
  }
}
