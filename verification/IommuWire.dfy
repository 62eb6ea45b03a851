// What the register accesses of the IOMMU driver (pi5-iommu/hardware.c) look like
// in its history: sweeps over all registers, polls, flushes, and what each kind of
// failure leaves behind.
module IommuWire {
  import opened IommuTrace

  const REGISTERS: nat := 9
  const OFFSETS: seq<nat> := [0, 4, 0x14, 0x1c, 0x20, 0x24, 0x30, 0x34, 0x38]
  const POLL_LIMIT: nat := 1000
  const FAULT_FLAGS: Reg := 0x08101000

  predicate Sizes(units: seq<seq<Reg>>) {
    |units| == 3 && forall u :: 0 <= u < 3 ==> |units[u]| == REGISTERS
  }

  // Control words: the cache switched on, and asked to flush; a unit that translates,
  // whatever faults it shows.
  function Enabled(cache: Reg): Reg {
    cache | 1
  }

  function Asking(cache: Reg): Reg {
    cache | 3
  }

  function Flags(control: Reg): Reg {
    control & FAULT_FLAGS
  }

  predicate Translates(control: Reg) {
    control & !FAULT_FLAGS == TRANSLATING
  }

  // ----- sweeps -----

  // The first n registers of a unit, read in order with these values, but for those
  // left out.
  function Reads(u: nat, values: seq<Reg>, out: set<nat>, n: nat): seq<Event>
    requires n <= REGISTERS == |values|
  {
    if n == 0 then [] else Reads(u, values, out, n - 1) + if n - 1 in out then [] else [Read(u, OFFSETS[n - 1], values[n - 1])]
  }

  // So the first n units.
  function Rows(units: seq<seq<Reg>>, out: set<nat>, n: nat): seq<Event>
    requires n <= 3 && Sizes(units)
  {
    if n == 0 then [] else Rows(units, out, n - 1) + Reads(n - 1, units[n - 1], if n - 1 == OURS then out else {}, REGISTERS)
  }

  // And the cache after them.
  function Sweep(units: seq<seq<Reg>>, cache: Reg): seq<Event>
    requires Sizes(units)
  {
    Rows(units, {}, 3) + [Read(CACHE, 0, cache)]
  }

  lemma {:induction false} ReadsLength(u: nat, values: seq<Reg>, out: set<nat>, n: nat)
    requires n <= REGISTERS == |values| && (out == {} || out == {0})
    ensures |Reads(u, values, out, n)| == if n > 0 && 0 in out then n - 1 else n
  {
    if n > 0 {
      ReadsLength(u, values, out, n - 1);
    }
  }

  lemma RowsLength(units: seq<seq<Reg>>, out: set<nat>)
    requires Sizes(units) && (out == {} || out == {0})
    ensures |Rows(units, out, 3)| == if 0 in out then 26 else 27
  {
    hide Reads;
    ReadsLength(0, units[0], {}, REGISTERS);
    ReadsLength(1, units[1], out, REGISTERS);
    ReadsLength(2, units[2], {}, REGISTERS);
    assert Rows(units, out, 1) == Rows(units, out, 0) + Reads(0, units[0], {}, REGISTERS);
    assert Rows(units, out, 2) == Rows(units, out, 1) + Reads(1, units[1], out, REGISTERS);
  }

  lemma SweepLength(units: seq<seq<Reg>>, cache: Reg)
    requires Sizes(units)
    ensures |Sweep(units, cache)| == 28 && |Rows(units, {0}, 3)| == 26
  {
    RowsLength(units, {});
    RowsLength(units, {0});
  }

  // Registers 1 to n - 1 of our unit, written in order.
  function Stores(values: seq<Reg>, n: nat): seq<Event>
    requires n <= REGISTERS == |values|
  {
    if n <= 1 then [] else Stores(values, n - 1) + [Write(OURS, OFFSETS[n - 1], values[n - 1])]
  }

  // ----- polls and flushes -----

  predicate Pending(e: Event, unit: nat, mask: Reg) {
    e.Read? && e.unit == unit && e.offset == 0 && e.value & mask != 0
  }

  predicate Over(e: Event, unit: nat, mask: Reg) {
    e.Read? && e.unit == unit && e.offset == 0 && e.value & mask == 0
  }

  // A whole flush: all is in place, the cache is asked to flush and seen to be done,
  // then the TLB, and all is still in place.
  ghost predicate Flushing(before: seq<Event>, after: seq<Event>, units: seq<seq<Reg>>, cache: Reg, p: nat)
    requires Sizes(units)
  {
    && |before| + 29 < p && p + 32 <= |after|
    && after[..|before| + 28] == before + Sweep(units, cache)
    && after[|before| + 28] == Write(CACHE, 0, Asking(cache)) && Over(after[p - 1], CACHE, 4)
    && after[p] == Write(CACHE, 0, cache) && after[p + 1] == Write(OURS, 0, 4) && Over(after[|after| - 30], OURS, 0x80)
    && after[|after| - 29] == Write(OURS, 0, 0) && after[|after| - 28..] == Sweep(units, cache)
  }

  // ----- failures: each ends with the latch being set -----

  predicate Differs(e: Event, units: seq<seq<Reg>>, cache: Reg)
    requires Sizes(units)
  {
    e.Read? &&
    (if e.unit < 3 then exists j {:trigger OFFSETS[j]} :: 0 <= j < REGISTERS && e.offset == OFFSETS[j] && e.value != units[e.unit][j]
     else e.unit == CACHE && e.offset == 0 && e.value != cache)
  }

  // A register that does not read as it should.
  predicate Contrary(log: seq<Event>, units: seq<seq<Reg>>, cache: Reg)
    requires Sizes(units)
  {
    |log| >= 2 && log[|log| - 1] == Latch && Differs(log[|log| - 2], units, cache)
  }

  // A poll that went on for as long as it may.
  predicate Stuck(log: seq<Event>, unit: nat, mask: Reg) {
    && |log| > POLL_LIMIT && log[|log| - 1] == Latch
    && forall k :: |log| - 1 - POLL_LIMIT <= k < |log| - 1 ==> Pending(log[k], unit, mask)
  }

  // A flush that failed.
  ghost predicate Unflushed(drift: bool, log: seq<Event>, units: seq<seq<Reg>>, cache: Reg)
    requires Sizes(units)
  {
    if drift then Contrary(log, units, cache) else Stuck(log, CACHE, 4) || Stuck(log, OURS, 0x80)
  }

  // Cache and unit, switched on or in use, were not both seen to be so.
  predicate NotOn(log: seq<Event>, cache: Reg) {
    && |log| >= 3 && log[|log| - 1] == Latch && log[|log| - 2].Read? && log[|log| - 3].Read?
    && (log[|log| - 3].value != Enabled(cache) || log[|log| - 2].value != TRANSLATING)
  }

  predicate NotActive(log: seq<Event>, cache: Reg) {
    && |log| >= 3 && log[|log| - 1] == Latch && log[|log| - 2].Read? && log[|log| - 3].Read?
    && (!Translates(log[|log| - 3].value) || log[|log| - 2].value != Enabled(cache))
  }

  // Switched off, our unit was not seen to be.
  predicate NotOff(log: seq<Event>, flags: Reg) {
    |log| >= 2 && log[|log| - 1] == Latch && log[|log| - 2].Read? && log[|log| - 2].value != flags
  }

  lemma NotOnSeen(log: seq<Event>, shared: Reg, control: Reg, cache: Reg)
    requires shared != Enabled(cache) || control != TRANSLATING
    ensures NotOn(log + [Read(CACHE, 0, shared), Read(OURS, 0, control), Latch], cache)
  {
  }

  lemma NotActiveSeen(log: seq<Event>, control: Reg, shared: Reg, cache: Reg)
    requires !Translates(control) || shared != Enabled(cache)
    ensures NotActive(log + [Read(OURS, 0, control), Read(CACHE, 0, shared), Latch], cache)
  {
  }

  // A closing window: all is in place but for our unit's control, which translates;
  // then our unit is switched off, and the cache as it was.
  ghost predicate Shut(before: seq<Event>, after: seq<Event>, units: seq<seq<Reg>>, cache: Reg, off: nat)
    requires Sizes(units)
  {
    var n := |before|;
    && off == n + 33 && off + 4 < |after|
    && after[n + 5].Read? && Translates(after[n + 5].value) && after[n + 6] == Read(CACHE, 0, Enabled(cache))
    && after[n + 7..off] == Rows(units, {0}, 3)
    && after[off..off + 4] == [Write(OURS, 0, 0), Read(OURS, 0, 0), Write(CACHE, 0, cache), Read(CACHE, 0, cache)]
  }

  // The latch was set, and why.
  ghost predicate Trouble(log: seq<Event>, units: seq<seq<Reg>>, cache: Reg, flags: Reg)
    requires Sizes(units)
  {
    || Contrary(log, units, cache) || Stuck(log, CACHE, 4) || Stuck(log, OURS, 0x80)
    || NotOn(log, cache) || NotActive(log, cache) || NotOff(log, flags)
    || (flags != 0 && log != [] && log[|log| - 1] == Latch)
  }

  // Somewhere in a part of the history.
  ghost predicate Troubled(log: seq<Event>, from: nat, units: seq<seq<Reg>>, cache: Reg, flags: Reg)
    requires Sizes(units)
  {
    exists k :: from <= k <= |log| && Trouble(log[..k], units, cache, flags)
  }

  lemma TroubleIs(log: seq<Event>, at: seq<Event>, from: nat, units: seq<seq<Reg>>, cache: Reg, flags: Reg)
    requires Sizes(units) && at <= log && from <= |at| && Trouble(at, units, cache, flags)
    ensures Troubled(log, from, units, cache, flags)
  {
    hide Trouble;
    assert log[..|at|] == at;
  }

  lemma TroubledEarlier(log: seq<Event>, from: nat, earlier: nat, units: seq<seq<Reg>>, cache: Reg, flags: Reg)
    requires Sizes(units) && Troubled(log, from, units, cache, flags) && earlier <= from
    ensures Troubled(log, earlier, units, cache, flags)
  {
    hide Trouble;
  }
}
