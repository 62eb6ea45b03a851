// The multimedia IOMMU provider: its hardware sequences (pi5-iommu/hardware.c)
// and its sessions (pi5-iommu/driver.c). Every register read returns whatever
// the hardware likes; consumers, allocators and guard pages may fail at any time.
module IommuDriver {
  import opened IommuTrace
  import opened IommuWire
  import opened PageEntry
  import Table = IommuTable

  datatype Code = Ok | Invalid | Busy | Timeout | Drift | DeviceFault

  datatype Status =
    | Success | DeviceBusy | InvalidParameter | HardwareError | IoTimeout | InsufficientResources
    | ConfigurationError | NotFound | AlreadyComplete | DataError | InvalidDeviceState | CallbackFailed

  // A HAL common buffer.
  datatype Memory = Memory(id: Id, dma: nat, bytes: nat)

  // What the HAL does with a request for a common buffer.
  datatype Hal = Exhausted | At(dma: nat)

  datatype Tables = NoTables | Tables(root: Memory, l2: Memory, trap: Memory)
  {
    function Ids(): set<Id> {
      if NoTables? then {} else {root.id, l2.id, trap.id}
    }

    predicate Distinct() {
      Tables? ==> root.id != l2.id && root.id != trap.id && l2.id != trap.id
    }
  }

  datatype Buffer = NoBuffer | Buffer(memory: Memory, pages: nat, writable: bool, mapped: bool, token: nat)

  datatype Owner = Nobody | File(id: nat)

  const ACTIVE_CONTROL: Reg := 0x04090803

  predicate Grows(f: Flush, g: Flush) {
    && (f.cacheAsked ==> g.cacheAsked) && (f.cacheDone ==> g.cacheDone)
    && (f.tlbAsked ==> g.tlbAsked) && (f.tlbDone ==> g.tlbDone)
  }

  function Key(u: nat, j: nat): (nat, nat)
    requires j < REGISTERS
  {
    (u, OFFSETS[j])
  }

  ghost predicate Shown(known: map<(nat, nat), Reg>, u: nat, j: nat, value: Reg)
    requires j < REGISTERS
  {
    Key(u, j) in known && known[Key(u, j)] == value
  }

  // The HAL has that many pages, on a page boundary and within 36 bits.
  predicate Good(hal: Hal, pages: nat) {
    hal.At? && hal.dma % PAGE == 0 && hal.dma <= Table.DMA_LIMIT && pages * PAGE - 1 <= Table.DMA_LIMIT - hal.dma
  }

  // What the source's checks look for before they touch anything: a unit that
  // translates, a TLB too small, a cache being flushed.
  predicate Occupied(e: Event) {
    e.Read? && ((e.unit < 3 && e.offset == 0 && e.value != 0) || (e.unit == CACHE && e.offset == 0 && e.value & 6 != 0))
  }

  predicate Unfit(e: Event) {
    e.Read? && e.unit == OURS && e.offset == 0x38 && !Capable(e.value)
  }

  // What a refusal to begin is told, and why.
  ghost predicate Refused(r: Code, from: nat, log: seq<Event>, table: nat, trapPage: nat) {
    if !(Table.Address(table, 1) && Table.Address(trapPage, 1) && table >= Table.IOVA_BASE / 0x100000) then r == Invalid
    else
      || (r == Invalid && exists k :: from <= k < |log| && Unfit(log[k]))
      || (r == Busy && exists k :: from <= k < |log| && Occupied(log[k]))
  }

  lemma RefusedMore(r: Code, from: nat, log: seq<Event>, more: seq<Event>, earlier: nat, table: nat, trapPage: nat)
    requires Refused(r, from, log, table, trapPage) && log <= more && earlier <= from
    ensures Refused(r, earlier, more, table, trapPage)
  {
    hide Unfit, Occupied, Table.Address;
    if exists k :: from <= k < |log| && Unfit(log[k]) {
      var k :| from <= k < |log| && Unfit(log[k]);
      assert more[k] == log[k];
    }
    if exists k :: from <= k < |log| && Occupied(log[k]) {
      var k :| from <= k < |log| && Occupied(log[k]);
      assert more[k] == log[k];
    }
  }

  predicate Capable(debug: Reg) {
    debug & 15 >= 4 && (debug >> 4) & 15 >= 6 && (debug >> 8) & 15 >= 6 && debug & 0x20000000 != 0
  }

  // Our unit walks from `root`, sends what it refuses to `trap`, and serves the
  // window at 0xa00000000; everything else is as the session found it.
  ghost predicate InPlace(known: map<(nat, nat), Reg>, found: map<(nat, nat), Reg>, root: nat, trap: nat) {
    && (forall u: nat, o: nat :: u < 3 && o in {0, 4, 0x14, 0x1c, 0x20, 0x24, 0x30, 0x34, 0x38} ==> (u, o) in known && (u, o) in found)
    && (forall u: nat, o: nat :: u < 3 && o in {0, 4, 0x14, 0x1c, 0x20, 0x24, 0x30, 0x34, 0x38} && (u != OURS || o in {0, 0x34, 0x38}) ==>
          known[(u, o)] == found[(u, o)])
    && (CACHE, 0) in known && (CACHE, 0) in found && known[(CACHE, 0)] == found[(CACHE, 0)] && found[(CACHE, 0)] & 6 == 0
    && (forall u: nat :: u < 3 ==> found[(u, 0)] == 0) && Capable(found[(1, 0x38)])
    && Programmed(known[(1, 4)], known[(1, 0x14)], known[(1, 0x1c)], known[(1, 0x20)], known[(1, 0x24)], known[(1, 0x30)], root, trap, found[(1, 0x24)], found[(1, 0x38)])
  }

  // A register that holds a page number, one with its top bit set, and a word
  // with some of another's bits.
  function Number(n: nat): Reg
    requires n < 0x1_0000_0000
  {
    n as Reg
  }

  function Topped(w: Reg): Reg {
    0x80000000 | w
  }

  function Of(w: Reg, bits: Reg): Reg {
    w & bits
  }

  // The registers at 4, 0x14, 0x1c, 0x20, 0x24 and 0x30.
  predicate Programmed(base: Reg, first: Reg, none: Reg, second: Reg, bypass: Reg, illegal: Reg, root: nat, trap: nat, bypassed: Reg, debug: Reg) {
    && 0 <= root / 4096 - 10 < 0x1_0000_0000 && base == (root / 4096 - 10) as Reg
    && first == 0x800000a0 && none == 0
    && second == (if debug & 0x10000000 != 0 then 0x80002800 else 0x800000a0)
    && bypass == bypassed & 0x7fffffff
    && trap / 4096 < 0x80000000 && illegal == 0x80000000 | (trap / 4096) as Reg
  }

  // The three units and the cache show exactly these values.
  ghost predicate Settled(known: map<(nat, nat), Reg>, units: seq<seq<Reg>>, cache: Reg)
    requires |units| == 3 && (forall u :: 0 <= u < 3 ==> |units[u]| == REGISTERS)
  {
    && (forall u, j {:trigger units[u][j]} :: 0 <= u < 3 && 0 <= j < REGISTERS ==> Shown(known, u, j, units[u][j]))
    && Shown(known, CACHE, 0, cache)
  }

  // What is known of the other units stays known.
  ghost predicate KnownKeeps(before: map<(nat, nat), Reg>, after: map<(nat, nat), Reg>, u: nat) {
    forall key <- before :: key.0 != u ==> key in after && after[key] == before[key]
  }

  lemma KnownSame(known: map<(nat, nat), Reg>, u: nat)
    ensures KnownKeeps(known, known, u)
  {
  }

  // One more register of unit u read: what is known of the others stays ...
  lemma KnownTouched(before: map<(nat, nat), Reg>, known: map<(nat, nat), Reg>, after: map<(nat, nat), Reg>, u: nat, j: nat)
    requires j < REGISTERS && KnownKeeps(before, known, u)
    requires Key(u, j) in after && after == known[Key(u, j) := after[Key(u, j)]]
    ensures KnownKeeps(before, after, u)
  {
  }

  // ... and so does what was read of u before.
  lemma KnownMore(known: map<(nat, nat), Reg>, after: map<(nat, nat), Reg>, u: nat, j: nat, values: seq<Reg>)
    requires j < REGISTERS && |values| == REGISTERS
    requires after == known[Key(u, j) := values[j]]
    requires forall k {:trigger values[k]} :: 0 <= k < j ==> Shown(known, u, k, values[k])
    ensures forall k {:trigger values[k]} :: 0 <= k <= j ==> Shown(after, u, k, values[k])
  {
    OffsetsDistinct();
  }

  lemma OffsetsDistinct()
    ensures forall j, k :: 0 <= j < k < REGISTERS ==> OFFSETS[j] != OFFSETS[k]
  {
  }

  function Live(bs: seq<Buffer>): nat {
    if bs == [] then 0 else Live(bs[..|bs| - 1]) + (if bs[|bs| - 1].Buffer? then 1 else 0)
  }

  lemma {:induction false} LiveUpdate(bs: seq<Buffer>, i: nat, b: Buffer)
    requires i < |bs|
    ensures Live(bs[i := b]) == Live(bs) + (if b.Buffer? then 1 else 0) - (if bs[i].Buffer? then 1 else 0)
  {
    var n := |bs| - 1;
    if i < n {
      LiveUpdate(bs[..n], i, b);
      assert bs[i := b][..n] == bs[..n][i := b];
    } else {
      assert bs[i := b][..n] == bs[..n];
    }
  }

  lemma {:induction false} AllEmpty(bs: seq<Buffer>)
    requires forall i :: 0 <= i < |bs| ==> bs[i] == NoBuffer
    ensures Live(bs) == 0
  {
    if bs != [] {
      AllEmpty(bs[..|bs| - 1]);
    }
  }

  lemma {:induction false} NoneLive(bs: seq<Buffer>, i: nat)
    requires i < |bs| && Live(bs) == 0
    ensures bs[i] == NoBuffer
  {
    if i < |bs| - 1 {
      NoneLive(bs[..|bs| - 1], i);
    }
  }

  // ----- the books of a session -----

  // A live buffer owns its memory alone and is mapped exactly as recorded.
  ghost predicate Held(b: Buffer, s: nat, ids: set<Id>, slots: Table.Slots, nextId: Id) {
    && (b.Buffer? ==> ids != {} && b.memory.id < nextId && b.memory.id !in ids)
    && (b.Buffer? && b.mapped <==> s in slots)
  }

  // What the hardware may reach: the session's tables, or a mapped buffer.
  ghost predicate Named(bs: seq<Buffer>, ids: set<Id>, id: Id) {
    id in ids || exists s :: 0 <= s < |bs| && bs[s].Buffer? && bs[s].mapped && bs[s].memory.id == id
  }

  ghost predicate Books(exposed: set<Id>, ids: set<Id>, bs: seq<Buffer>, slots: Table.Slots, nextId: Id) {
    && |bs| == Table.SLOTS
    && (forall id :: id in ids ==> id < nextId)
    && (forall s :: 0 <= s < |bs| ==> Held(bs[s], s, ids, slots, nextId))
    && (forall s, t :: 0 <= s < t < |bs| && bs[s].Buffer? && bs[t].Buffer? ==> bs[s].memory.id != bs[t].memory.id)
    && (forall s :: s in slots ==> s < |bs|)
    && (forall id :: id in exposed ==> Named(bs, ids, id))
  }

  // Buffers are told apart by their tokens, none of which is yet to come.
  ghost predicate Tokens(bs: seq<Buffer>, last: nat) {
    && (forall s :: 0 <= s < |bs| && bs[s].Buffer? ==> bs[s].token <= last)
    && (forall s, t :: 0 <= s < t < |bs| && bs[s].Buffer? && bs[t].Buffer? ==> bs[s].token != bs[t].token)
  }

  lemma TokensNext(bs: seq<Buffer>, last: nat, s: nat, b: Buffer)
    requires Tokens(bs, last) && s < |bs| && bs[s] == NoBuffer && b.Buffer? && b.token == last + 1
    ensures Tokens(bs[s := b], last + 1)
  {
  }

  lemma TokensKeep(bs: seq<Buffer>, last: nat, s: nat, b: Buffer)
    requires Tokens(bs, last) && s < |bs| && (b == NoBuffer || (b.Buffer? && bs[s].Buffer? && b.token == bs[s].token))
    ensures Tokens(bs[s := b], last)
  {
  }

  lemma TokensTell(bs: seq<Buffer>, last: nat, s: nat, t: nat)
    requires Tokens(bs, last) && s < |bs| && t < |bs| && bs[s].Buffer? && bs[t].Buffer? && bs[s].token == bs[t].token
    ensures s == t
  {
  }

  lemma {:induction false} LiveNone(bs: seq<Buffer>)
    requires forall s :: 0 <= s < |bs| ==> bs[s] == NoBuffer
    ensures Live(bs) == 0
  {
    if bs != [] {
      LiveNone(bs[..|bs| - 1]);
    }
  }

  function MemoryIds(bs: seq<Buffer>): set<Id> {
    set s | 0 <= s < |bs| && bs[s].Buffer? :: bs[s].memory.id
  }

  // What has been handed out is what the session's tables and buffers own.
  ghost predicate OwnedBy(held: set<Id>, tables: Tables, bs: seq<Buffer>) {
    held == tables.Ids() + MemoryIds(bs) && tables.Distinct()
  }

  lemma OwnedOld(held: set<Id>, tables: Tables, exposed: set<Id>, bs: seq<Buffer>, slots: Table.Slots, nextId: Id)
    requires OwnedBy(held, tables, bs) && Books(exposed, tables.Ids(), bs, slots, nextId)
    ensures forall id :: id in held ==> id < nextId
  {
    BooksOld(exposed, tables.Ids(), bs, slots, nextId);
  }

  lemma OwnedInstall(held: set<Id>, tables: Tables, bs: seq<Buffer>, s: nat, b: Buffer)
    requires OwnedBy(held, tables, bs) && s < |bs| && bs[s] == NoBuffer && b.Buffer?
    ensures OwnedBy(held + {b.memory.id}, tables, bs[s := b])
  {
    var cs := bs[s := b];
    assert cs[s] == b && forall t :: 0 <= t < |bs| && t != s ==> cs[t] == bs[t];
    assert MemoryIds(cs) == MemoryIds(bs) + {b.memory.id};
  }

  lemma OwnedRetire(held: set<Id>, tables: Tables, bs: seq<Buffer>, s: nat)
    requires OwnedBy(held, tables, bs) && s < |bs| && bs[s].Buffer?
    ensures OwnedBy(held, tables, bs[s := bs[s].(mapped := false)]) && bs[s].memory.id in held
  {
    var cs := bs[s := bs[s].(mapped := false)];
    assert cs[s].memory == bs[s].memory && forall t :: 0 <= t < |bs| && t != s ==> cs[t] == bs[t];
    assert MemoryIds(cs) == MemoryIds(bs);
  }

  lemma OwnedDiscard(held: set<Id>, tables: Tables, exposed: set<Id>, bs: seq<Buffer>, slots: Table.Slots, nextId: Id, s: nat)
    requires OwnedBy(held, tables, bs) && Books(exposed, tables.Ids(), bs, slots, nextId) && s < |bs| && bs[s].Buffer?
    ensures OwnedBy(held - {bs[s].memory.id}, tables, bs[s := NoBuffer]) && bs[s].memory.id in held
  {
    var cs, id := bs[s := NoBuffer], bs[s].memory.id;
    assert Held(bs[s], s, tables.Ids(), slots, nextId);
    assert forall t :: 0 <= t < |bs| && t != s ==> cs[t] == bs[t];
    assert MemoryIds(cs) == MemoryIds(bs) - {id};
  }

  lemma OwnedNothing(bs: seq<Buffer>)
    requires forall s :: 0 <= s < |bs| ==> bs[s] == NoBuffer
    ensures MemoryIds(bs) == {}
  {
  }

  lemma BooksIdle(exposed: set<Id>, bs: seq<Buffer>, slots: Table.Slots, nextId: Id)
    requires Books(exposed, {}, bs, slots, nextId)
    ensures exposed == {} && slots == map[]
    ensures forall s :: 0 <= s < |bs| ==> bs[s] == NoBuffer
  {
    forall s | 0 <= s < |bs|
      ensures bs[s] == NoBuffer && s !in slots
    {
      assert Held(bs[s], s, {}, slots, nextId);
    }
    assert forall id :: id in exposed ==> Named(bs, {}, id);
  }

  lemma BooksOld(exposed: set<Id>, ids: set<Id>, bs: seq<Buffer>, slots: Table.Slots, nextId: Id)
    requires Books(exposed, ids, bs, slots, nextId)
    ensures forall id :: id in exposed ==> id < nextId
    ensures forall s :: 0 <= s < |bs| && bs[s].Buffer? ==> bs[s].memory.id < nextId
    ensures forall s :: 0 <= s < |bs| && !(bs[s].Buffer? && bs[s].mapped) ==> s !in slots
  {
    assert forall id :: id in exposed ==> Named(bs, ids, id);
    assert forall s :: 0 <= s < |bs| ==> Held(bs[s], s, ids, slots, nextId);
  }

  lemma BooksLater(exposed: set<Id>, ids: set<Id>, bs: seq<Buffer>, slots: Table.Slots, nextId: Id, later: Id)
    requires Books(exposed, ids, bs, slots, nextId) && nextId <= later
    ensures Books(exposed, ids, bs, slots, later)
  {
    assert forall s :: 0 <= s < |bs| ==> Held(bs[s], s, ids, slots, nextId);
  }

  lemma BooksOpen(bs: seq<Buffer>, nextId: Id, ids: set<Id>, later: Id)
    requires Books({}, {}, bs, map[], nextId) && nextId <= later && forall id :: id in ids ==> id < later
    ensures Books(ids, ids, bs, map[], later)
  {
    BooksIdle({}, bs, map[], nextId);
  }

  lemma BooksInstall(exposed: set<Id>, ids: set<Id>, bs: seq<Buffer>, slots: Table.Slots, nextId: Id, s: nat, b: Buffer, m: Table.Mapping)
    requires Books(exposed, ids, bs, slots, nextId) && s < |bs| && bs[s] == NoBuffer && ids != {}
    requires b.Buffer? && b.mapped && b.memory.id == nextId
    ensures Books(exposed + {b.memory.id}, ids, bs[s := b], slots[s := m], nextId + 1)
  {
    BooksOld(exposed, ids, bs, slots, nextId);
    var cs := bs[s := b];
    forall t | 0 <= t < |cs|
      ensures Held(cs[t], t, ids, slots[s := m], nextId + 1)
    {
      assert Held(bs[t], t, ids, slots, nextId);
    }
    forall id | id in exposed + {b.memory.id}
      ensures Named(cs, ids, id)
    {
      if id == b.memory.id {
        assert cs[s].memory.id == id;
      } else {
        NamedKeeps(bs, ids, id, s, b);
      }
    }
  }

  lemma NamedKeeps(bs: seq<Buffer>, ids: set<Id>, id: Id, s: nat, b: Buffer)
    requires Named(bs, ids, id) && s < |bs| && (bs[s].Buffer? && bs[s].mapped ==> bs[s].memory.id != id)
    ensures Named(bs[s := b], ids, id)
  {
    if id !in ids {
      var t :| 0 <= t < |bs| && bs[t].Buffer? && bs[t].mapped && bs[t].memory.id == id;
      assert bs[s := b][t].memory.id == id;
    }
  }

  // A buffer that has left the tables may be remembered as retired, or dropped.
  lemma BooksRemove(exposed: set<Id>, ids: set<Id>, bs: seq<Buffer>, slots: Table.Slots, nextId: Id, s: nat, b: Buffer)
    requires Books(exposed, ids, bs, slots, nextId) && s < |bs| && bs[s].Buffer?
    requires b == NoBuffer || b == bs[s].(mapped := false)
    ensures Books(exposed - {bs[s].memory.id}, ids, bs[s := b], slots - {s}, nextId)
    ensures !bs[s].mapped ==> bs[s].memory.id !in exposed && slots - {s} == slots
  {
    var cs := bs[s := b];
    assert Held(bs[s], s, ids, slots, nextId);
    forall t | 0 <= t < |cs|
      ensures Held(cs[t], t, ids, slots - {s}, nextId)
    {
      assert Held(bs[t], t, ids, slots, nextId);
    }
    forall id | id in exposed - {bs[s].memory.id}
      ensures Named(cs, ids, id)
    {
      NamedKeeps(bs, ids, id, s, b);
    }
  }

  lemma BooksClose(exposed: set<Id>, ids: set<Id>, bs: seq<Buffer>, slots: Table.Slots, nextId: Id)
    requires Books(exposed, ids, bs, slots, nextId) && Live(bs) == 0
    ensures exposed <= ids
    ensures Books({}, {}, bs, slots, nextId)
  {
    forall s | 0 <= s < |bs|
      ensures bs[s] == NoBuffer && s !in slots
    {
      NoneLive(bs, s);
      assert Held(bs[s], s, ids, slots, nextId);
    }
    assert forall id :: id in exposed ==> Named(bs, ids, id);
  }

  // Where in the log the steps of a DMA window stand, or its end if they do not.
  datatype Marks = Marks(prepared: nat, switched: nat, transferred: nat, quiesced: nat, closed: nat)

  // Opened, used, quiesced, closed.
  ghost predicate Used(log: seq<Event>, from: nat, m: Marks) {
    && from <= m.switched < m.transferred < m.quiesced < m.closed < |log|
    && log[m.switched] == Write(OURS, 0, 0x04090803) && log[m.transferred] == Called(Transfer)
    && log[m.quiesced] == Called(Quiesce) && log[m.closed] == Write(OURS, 0, 0)
  }

  ghost predicate InOrder(log: seq<Event>, m: Marks) {
    m.prepared < |log| && log[m.prepared] == Called(Prepare) && Used(log, m.prepared + 1, m)
  }

  // The callbacks that were called, of those that are always to be called.
  ghost predicate Asked(log: seq<Event>, from: nat, m: Marks) {
    && (m.prepared < |log| ==> from <= m.prepared && log[m.prepared] == Called(Prepare))
    && (m.quiesced < |log| ==> m.prepared < m.quiesced && log[m.quiesced] == Called(Quiesce))
  }

  lemma AskedNothing(log: seq<Event>, from: nat, m: Marks)
    requires m.prepared == m.quiesced == |log|
    ensures Asked(log, from, m)
  {
  }

  lemma AskedPrepare(log: seq<Event>, from: nat, m: Marks)
    requires from <= m.prepared < |log| && log[m.prepared] == Called(Prepare) && m.quiesced == |log|
    ensures Asked(log, from, m)
  {
  }

  lemma AskedWhole(log: seq<Event>, from: nat, m: Marks, p: nat)
    requires from <= p < m.quiesced < |log| && log[p] == Called(Prepare) && log[m.quiesced] == Called(Quiesce)
    ensures Asked(log, from, m.(prepared := p)) && (Used(log, p + 1, m) ==> InOrder(log, m.(prepared := p)))
  {
  }

  lemma QuiesceStands(mid: seq<Event>, log: seq<Event>)
    requires mid + [Called(Quiesce)] <= log
    ensures |mid| < |log| && log[|mid|] == Called(Quiesce)
  {
    assert log[|mid|] == (mid + [Called(Quiesce)])[|mid|];
  }

  lemma WasOpened(mid: seq<Event>, log: seq<Event>, from: nat, m: Marks)
    requires mid + [Called(Quiesce)] <= log && from + 5 <= |mid|
    requires var tail := mid[|mid| - 5..]; tail[1] == Write(OURS, 0, 0x04090803) && tail[4] == Called(Transfer)
    requires m.switched == |mid| - 4 && m.transferred == |mid| - 1 && m.quiesced == |mid| && |mid| < m.closed < |log| && log[m.closed] == Write(OURS, 0, 0)
    ensures Used(log, from, m)
  {
    assert log[|mid|] == (mid + [Called(Quiesce)])[|mid|];
    assert forall k :: 0 <= k < |mid| ==> log[k] == (mid + [Called(Quiesce)])[k] == mid[k];
  }

  class Iommu {
    // MMU_HW
    var baseline: seq<seq<Reg>>
    var expected: seq<Reg>
    var cache: Reg
    var staged: bool
    var fault: bool
    var active: bool
    var faultFlags: Reg
    var violation: Reg
    var hits: Reg
    var misses: Reg
    var stalls: Reg
    // MMU_CONTEXT
    var owner: Owner
    var tables: Tables
    var rootEntry: nat            // the one entry of the root page
    var slots: Table.Slots        // the contents of the L2 page
    const buffers: array<Buffer>
    var activeBuffers: nat
    var nextToken: nat
    var bootFault: bool
    // Common buffers are told apart by an identity the HAL never reuses.
    var nextId: Id
    // What has happened so far, and what it amounts to.
    ghost var log: seq<Event>
    ghost var world: World
    // The registers as the session found them.
    ghost var origin: map<(nat, nat), Reg>

    // ----- the invariant -----

    ghost predicate Sound()
      reads this`world, this`log, this`fault, this`baseline, this`expected
    {
      && world == Fold(log) && world.good && world.faulted == fault
      && |baseline| == 3 && |expected| == REGISTERS
      && (forall u :: 0 <= u < 3 ==> |baseline[u]| == REGISTERS)
    }

    // Between calls: activity implies a latched fault, and unless the latch is
    // set the hardware can reach exactly what the session accounts for.
    ghost predicate Valid()
      reads this, buffers
    {
      && Sound()
      && buffers.Length == Table.SLOTS
      && bootFault == fault && nextToken <= 0xffff_ffff_ffff_ffff
      && (active ==> fault)
      && (!fault ==> Accounts(nextId) && OwnedBy(world.held, tables, buffers[..]) && Tokens(buffers[..], nextToken))
    }

    ghost predicate Accounts(owned: Id)
      requires Sound() && buffers.Length == Table.SLOTS
      reads this, buffers
    {
      && (staged <==> owner.File?) && (staged <==> tables.Tables?)
      && (staged ==> expected[0] == baseline[1][0] && expected[7] == baseline[1][7] && expected[8] == baseline[1][8] && Captured())
      && world.concealed == {}
      && activeBuffers == Live(buffers[..])
      && Books(world.exposed, tables.Ids(), buffers[..], slots, owned)
    }

    // Register traffic does not disturb the accounts.
    twostate lemma AccountsKept(owned: Id)
      requires old(Sound()) && Sound() && buffers.Length == Table.SLOTS && old(Accounts(owned))
      requires staged == old(staged) && owner == old(owner) && tables == old(tables) && slots == old(slots) && activeBuffers == old(activeBuffers)
      requires expected == old(expected) && baseline == old(baseline) && origin == old(origin) && cache == old(cache)
      requires buffers[..] == old(buffers[..]) && world.exposed == old(world.exposed) && world.concealed <= old(world.concealed)
      ensures Accounts(owned) && world.concealed == {}
    {
      hide Fold, Books, Live, Settled;
    }

    lemma AccountsLater(owned: Id, later: Id)
      requires Sound() && buffers.Length == Table.SLOTS && Accounts(owned) && owned <= later
      ensures Accounts(later) && world.concealed == {} && forall id :: id in world.exposed ==> id < owned
    {
      hide Fold, Live, Settled, Books;
      BooksLater(world.exposed, tables.Ids(), buffers[..], slots, owned, later);
      BooksOld(world.exposed, tables.Ids(), buffers[..], slots, owned);
    }

    // Every configuration register was read, after it was last written, with
    // exactly the value expected.
    ghost predicate Matches()
      requires Sound()
      reads this
    {
      Settled(world.known, baseline[OURS := expected], cache)
    }

    // The baseline is what the session found.
    ghost predicate Captured()
      requires |baseline| == 3 && (forall u :: 0 <= u < 3 ==> |baseline[u]| == REGISTERS)
      reads this`origin, this`baseline, this`cache
    {
      Settled(origin, baseline, cache)
    }

    // What the registers of the units should show.
    function Units(): (units: seq<seq<Reg>>)
      requires |baseline| == 3 && |expected| == REGISTERS && (forall u :: 0 <= u < 3 ==> |baseline[u]| == REGISTERS)
      reads this`baseline, this`expected
      ensures Sizes(units)
    {
      baseline[OURS := expected]
    }

    // The latch was set by a register that drifted, or a flush that did not end.
    ghost predicate Failing(r: Code)
      requires Sound()
      reads this`world, this`log, this`fault, this`baseline, this`expected, this`cache
    {
      fault && (r == Drift || r == Timeout) && Unflushed(r == Drift, log, Units(), cache)
    }

    // The latch was set in some flush.
    ghost predicate Broken()
      requires Sound()
      reads this`world, this`log, this`fault, this`baseline, this`expected, this`cache
    {
      Failing(Drift) || Failing(Timeout)
    }

    // ----- register access -----

    // Register traffic leaves the hardware's reach alone and only makes
    // flushes progress.
    twostate predicate Quieter()
      reads this`world
    {
      Calm() && world.held == old(world.held)
    }

    // Nor does the handing out of memory.
    twostate predicate Calm()
      reads this`world
    {
      && world.exposed == old(world.exposed)
      && world.concealed <= old(world.concealed)
      && Grows(old(world.flush), world.flush)
    }

    // Registers were read, and nothing else happened.
    twostate predicate Looked()
      reads this`log
    {
      old(log) <= log && forall k :: |old(log)| <= k < |log| ==> log[k].Read?
    }

    ghost method Emit(e: Event)
      requires Sound() && Permitted(world, e) && !e.Latch?
      modifies this`log, this`world
      ensures Sound() && log == old(log) + [e] && world == Observe(old(world), e)
    {
      FoldAppend(log, e);
      log, world := log + [e], Observe(world, e);
    }

    ghost method Call(c: Callback)
      requires Sound() && (c == Transfer ==> !fault && (OURS, 0) in world.known && world.known[(OURS, 0)] == 0x04090803)
      modifies this`log, this`world
      ensures Sound() && log == old(log) + [Called(c)] && Quieter() && world.known == old(world.known)
    {
      hide Fold;
      Emit(Called(c));
    }

    // Read: the value is the hardware's choice.
    method ReadReg(unit: nat, offset: nat) returns (value: Reg)
      requires Sound()
      modifies this`log, this`world
      ensures Sound() && log == old(log) + [Read(unit, offset, value)] && world == Observe(old(world), Read(unit, offset, value))
      ensures Quieter()
    {
      value := *;
      Emit(Read(unit, offset, value));
    }

    method WriteReg(unit: nat, offset: nat, value: Reg)
      requires Sound() && !fault && unit in {OURS, CACHE}
      modifies this`log, this`world
      ensures Sound() && log == old(log) + [Write(unit, offset, value)] && world == Observe(old(world), Write(unit, offset, value))
      ensures Quieter()
    {
      Emit(Write(unit, offset, value));
    }

    method Fault(error: Code) returns (r: Code)
      requires Sound()
      modifies this`fault, this`log, this`world
      ensures Sound() && fault && r == error && Quieter() && world.known == old(world.known)
      ensures log == old(log) + if old(fault) then [] else [Latch]
    {
      if !fault {
        FoldAppend(log, Latch);
        log, world := log + [Latch], Observe(world, Latch);
      }
      fault := true;
      r := error;
    }

    // ----- pi5-iommu/hardware.c -----

    // One unit's nine registers, compared with what they should hold.
    method CheckUnit(u: nat, values: seq<Reg>) returns (r: Code)
      requires Sound() && !fault && u < 3 && |values| == REGISTERS
      modifies this`fault, this`log, this`world
      ensures Sound() && old(log) <= log && Quieter() && KnownKeeps(old(world.known), world.known, u)
      ensures r == Ok ==> !fault && forall j {:trigger values[j]} :: 0 <= j < REGISTERS ==> Shown(world.known, u, j, values[j])
      ensures r != Ok ==> fault && r == Drift
      ensures r == Ok ==> log == old(log) + Reads(u, values, {}, REGISTERS)
      // A failure is one register that reads otherwise.
      ensures r != Ok ==>
                && |log| >= 2 && log[|log| - 1] == Latch && log[|log| - 2].Read? && log[|log| - 2].unit == u
                && exists j {:trigger OFFSETS[j]} :: 0 <= j < REGISTERS && log[|log| - 2].offset == OFFSETS[j] && log[|log| - 2].value != values[j]
    {
      hide Fold, Observe, Sound, KnownKeeps, Shown;
      KnownSame(world.known, u);
      for j := 0 to REGISTERS
        invariant Sound() && old(log) <= log && Quieter() && !fault && KnownKeeps(old(world.known), world.known, u)
        invariant forall k {:trigger values[k]} :: 0 <= k < j ==> Shown(world.known, u, k, values[k])
        invariant log == old(log) + Reads(u, values, {}, j)
      {
        ghost var known := world.known;
        var ok := CheckReg(u, j, values[j]);
        KnownTouched(old(world.known), known, world.known, u, j);
        if !ok {
          return Drift;
        }
        KnownMore(known, world.known, u, j, values);
      }
      r := Ok;
    }

    // One register.
    method CheckReg(u: nat, j: nat, wanted: Reg) returns (ok: bool)
      requires Sound() && !fault && u < 3 && j < REGISTERS
      modifies this`fault, this`log, this`world
      ensures Sound() && old(log) <= log && Quieter() && (ok <==> !fault)
      ensures Key(u, j) in world.known && world.known == old(world.known)[Key(u, j) := world.known[Key(u, j)]]
      ensures ok <==> world.known[Key(u, j)] == wanted
      ensures log == old(log) + [Read(u, OFFSETS[j], world.known[Key(u, j)])] + if ok then [] else [Latch]
    {
      hide Fold;
      var value := ReadReg(u, OFFSETS[j]);
      ok := value == wanted;
      if !ok {
        var r := Fault(Drift);
      }
    }

    method Check() returns (r: Code)
      requires Sound()
      modifies this`fault, this`log, this`world
      ensures Sound() && old(log) <= log && Quieter()
      ensures r == Ok ==> !fault && staged && !active && Matches()
      ensures old(fault) ==> fault && log == old(log) && r == Drift
      ensures !old(fault) && !(staged && !active) ==> !fault && log == old(log) && r == if staged then Busy else Invalid
      // It reads everything, and fails only over what reads otherwise.
      ensures !old(fault) && staged && !active ==> if r == Ok then log == old(log) + Sweep(Units(), cache) else r == Drift && Failing(r)
    {
      hide Fold, Observe, Sweep, Rows, Reads;
      if fault {
        return Drift;
      }
      if !staged {
        return Invalid;
      }
      if active {
        return Busy;
      }
      r := CheckAll();
      if r == Ok {
        r := CheckCache();
        SweepOf(old(log), Units());
      }
    }

    lemma SweepOf(before: seq<Event>, units: seq<seq<Reg>>)
      requires Sizes(units)
      ensures before + Rows(units, {}, 3) + [Read(CACHE, 0, cache)] == before + Sweep(units, cache)
    {
    }

    method CheckAll() returns (r: Code)
      requires Sound() && !fault
      modifies this`fault, this`log, this`world
      ensures Sound() && old(log) <= log && Quieter()
      ensures r == Ok ==>
                && !fault && log == old(log) + Rows(Units(), {}, 3)
                && forall u, j {:trigger Units()[u][j]} :: 0 <= u < 3 && 0 <= j < REGISTERS ==> Shown(world.known, u, j, Units()[u][j])
      ensures r != Ok ==> r == Drift && Failing(r)
    {
      hide Fold, Observe, Reads, Shown;
      for i := 0 to 3
        invariant Sound() && old(log) <= log && Quieter() && !fault && log == old(log) + Rows(Units(), {}, i)
        invariant forall u, j {:trigger Units()[u][j]} :: 0 <= u < i && 0 <= j < REGISTERS ==> Shown(world.known, u, j, Units()[u][j])
      {
        ghost var known := world.known;
        r := CheckUnit(i, if i == OURS then expected else baseline[i]);
        if r != Ok {
          return;
        }
        assert Units()[i] == if i == OURS then expected else baseline[i];
        RowShown(known, world.known, Units(), i);
      }
      r := Ok;
    }

    lemma RowShown(before: map<(nat, nat), Reg>, after: map<(nat, nat), Reg>, units: seq<seq<Reg>>, i: nat)
      requires Sizes(units) && i < 3 && KnownKeeps(before, after, i)
      requires forall u, j {:trigger units[u][j]} :: 0 <= u < i && 0 <= j < REGISTERS ==> Shown(before, u, j, units[u][j])
      ensures forall u, j {:trigger units[u][j]} :: 0 <= u < i && 0 <= j < REGISTERS ==> Shown(after, u, j, units[u][j])
    {
    }

    method CheckCache() returns (r: Code)
      requires Sound() && !fault && forall u, j {:trigger Units()[u][j]} :: 0 <= u < 3 && 0 <= j < REGISTERS ==> Shown(world.known, u, j, Units()[u][j])
      modifies this`fault, this`log, this`world
      ensures Sound() && old(log) <= log && Quieter()
      ensures r == Ok ==> !fault && Matches() && log == old(log) + [Read(CACHE, 0, cache)]
      ensures r != Ok ==> r == Drift && Failing(r)
    {
      hide Fold;
      ghost var units := Units();
      var value := ReadReg(CACHE, CONTROL);
      if value != cache {
        r := Fault(Drift);
        return;
      }
      r := Ok;
    }

    method Poll(unit: nat, mask: Reg) returns (r: Code)
      requires Sound() && !fault
      requires (unit == CACHE && mask == 4 && world.flush.cacheAsked) || (unit == OURS && mask == 0x80 && world.flush.tlbAsked)
      modifies this`fault, this`log, this`world
      ensures Sound() && old(log) <= log && Quieter()
      ensures r == Ok ==> !fault && (if unit == CACHE then world.flush.cacheDone else world.flush.tlbDone)
      ensures r == Ok && world.flush.cacheDone && world.flush.tlbDone ==> world.concealed == {}
      ensures r != Ok ==> fault && r == Timeout
      ensures r == Ok ==> |log| > |old(log)| && Over(log[|log| - 1], unit, mask)
      ensures r != Ok ==> Stuck(log, unit, mask)
    {
      hide Fold;
      for i := 0 to POLL_LIMIT
        invariant Sound() && old(log) <= log && Quieter() && !fault
        invariant |log| == |old(log)| + i && forall k :: |old(log)| <= k < |log| ==> Pending(log[k], unit, mask)
      {
        var value := ReadReg(unit, CONTROL);
        if value & mask == 0 {
          return Ok;
        }
      }
      r := Fault(Timeout);
    }

    method Invalidate() returns (r: Code, ghost p: nat)
      requires Sound()
      modifies this`fault, this`log, this`world
      ensures Sound() && old(log) <= log && Quieter()
      ensures r == Ok ==> !fault && staged && !active && Matches() && world.concealed == {}
      ensures old(fault) ==> fault && log == old(log) && r == Drift
      ensures !old(fault) && !(staged && !active) ==> !fault && log == old(log) && r == if staged then Busy else Invalid
      ensures !old(fault) && staged && !active ==> if r == Ok then Flushing(old(log), log, Units(), cache, p) else Failing(r)
    {
      hide Fold, Observe, Sweep, Settled, Flushing, Over, Unflushed;
      p := 0;
      r := Check();
      if r != Ok {
        return;
      }
      ghost var checked := log;
      r := FlushCache();
      if r != Ok {
        return;
      }
      p := |log|;
      ghost var cached := log;
      r := FlushTlb();
      if r != Ok {
        return;
      }
      ghost var flushed := log;
      WriteReg(OURS, CONTROL, 0);
      r := Check();
      if r == Ok {
        WasFlushed(old(log), checked, cached, flushed, log, Units(), cache);
      }
    }

    lemma WasFlushed(before: seq<Event>, checked: seq<Event>, cached: seq<Event>, flushed: seq<Event>, after: seq<Event>, units: seq<seq<Reg>>, cache: Reg)
      requires Sizes(units) && checked == before + Sweep(units, cache) && checked <= cached <= flushed
      requires |cached| > |checked| + 1 && cached[|checked|] == Write(CACHE, 0, Asking(cache)) && Over(cached[|cached| - 1], CACHE, 4)
      requires |flushed| > |cached| + 2 && flushed[|cached|] == Write(CACHE, 0, cache) && flushed[|cached| + 1] == Write(OURS, 0, 4)
      requires Over(flushed[|flushed| - 1], OURS, 0x80) && after == flushed + [Write(OURS, 0, 0)] + Sweep(units, cache)
      ensures Flushing(before, after, units, cache, |cached|)
    {
      hide Sweep;
      SweepLength(units, cache);
      assert after[..|flushed|] == flushed && flushed[..|cached|] == cached && cached[..|checked|] == checked;
      assert after[..|before| + 28] == checked;
    }

    method FlushCache() returns (r: Code)
      requires Sound() && !fault && staged && !active
      modifies this`fault, this`log, this`world
      ensures Sound() && old(log) <= log && Quieter()
      ensures r == Ok ==>
                && !fault && world.flush.cacheAsked && world.flush.cacheDone
                && |log| > |old(log)| + 1 && log[|old(log)|] == Write(CACHE, 0, Asking(cache)) && Over(log[|log| - 1], CACHE, 4)
      ensures r != Ok ==> Failing(r)
    {
      hide Fold, Over, Stuck;
      AskCache();
      ghost var asked := log;
      r := Poll(CACHE, 4);
      assert log[..|asked|] == asked;
    }

    method AskCache()
      requires Sound() && !fault && staged && !active
      modifies this`log, this`world
      ensures Sound() && log == old(log) + [Write(CACHE, 0, Asking(cache))] && Quieter() && world.flush.cacheAsked
    {
      hide Fold;
      WriteReg(CACHE, CONTROL, cache | 3);
      assert (cache | 3) & 2 != 0;
    }

    method FlushTlb() returns (r: Code)
      requires Sound() && !fault && staged && !active && world.flush.cacheDone
      modifies this`fault, this`log, this`world
      ensures Sound() && old(log) <= log && Quieter()
      ensures r == Ok ==>
                && !fault && world.concealed == {}
                && |log| > |old(log)| + 2 && log[|old(log)|] == Write(CACHE, 0, cache) && log[|old(log)| + 1] == Write(OURS, 0, 4)
                && Over(log[|log| - 1], OURS, 0x80)
      ensures r != Ok ==> Failing(r)
    {
      hide Fold;
      WriteReg(CACHE, CONTROL, cache);
      WriteReg(OURS, CONTROL, 4);
      ghost var asked := log;
      r := Poll(OURS, 0x80);
      assert log[..|asked|] == asked;
    }

    method ReadUnit(u: nat) returns (values: seq<Reg>)
      requires Sound() && u < 3
      modifies this`log, this`world
      ensures Sound() && Looked() && Quieter() && |values| == REGISTERS
      ensures log == old(log) + seq(REGISTERS, j requires 0 <= j < REGISTERS => Read(u, OFFSETS[j], values[j]))
    {
      hide Fold;
      values := [];
      for j := 0 to REGISTERS
        invariant Sound() && Looked() && Quieter() && |values| == j
        invariant log == old(log) + seq(j, k requires 0 <= k < j => Read(u, OFFSETS[k], values[k]))
      {
        var value := ReadReg(u, OFFSETS[j]);
        values := values + [value];
      }
    }

    // Program registers 1..6 of our unit.
    method Program(values: seq<Reg>)
      requires Sound() && !fault && |values| == REGISTERS
      modifies this`expected, this`log, this`world
      ensures Sound() && Quieter() && log == old(log) + Stores(values, 7)
      ensures |expected| == REGISTERS && forall j :: 0 <= j < REGISTERS ==> expected[j] == if 1 <= j <= 6 then values[j] else old(expected[j])
    {
      hide Fold;
      for j := 1 to 7
        invariant Sound() && Quieter() && log == old(log) + Stores(values, j)
        invariant forall k :: 0 <= k < REGISTERS ==> expected[k] == if 1 <= k < j then values[k] else old(expected[k])
      {
        expected := expected[j := values[j]];
        WriteReg(OURS, OFFSETS[j], expected[j]);
      }
    }

    // The register image MmuBegin derives from the table and trap addresses.
    function Image(found: seq<Reg>, table: nat, trapPage: nat): (image: seq<Reg>)
      requires |found| == REGISTERS
      requires Table.Address(table, 1) && Table.Address(trapPage, 1) && table >= Table.IOVA_BASE / 0x100000
      ensures |image| == REGISTERS && image[0] == found[0] && image[7] == found[7] && image[8] == found[8]
    {
      Frames(table, trapPage);
      var far := if Of(found[8], 0x10000000) != 0 then 22 else 28;
      found[1 := Number(table / PAGE - Table.IOVA_BASE / 0x1_0000_0000)]
      [2 := Topped(0xa0)]
      [3 := 0]
      [4 := Topped(if far == 22 then 0x2800 else 0xa0)]
      [5 := Of(found[5], 0x7fff_ffff)]
      [6 := Topped(Number(trapPage / PAGE))]
    }

    // The image is what the driver means to program, register by register.
    lemma ImagePrograms(found: seq<Reg>, table: nat, trapPage: nat)
      requires |found| == REGISTERS
      requires Table.Address(table, 1) && Table.Address(trapPage, 1) && table >= Table.IOVA_BASE / 0x100000
      ensures var m := Image(found, table, trapPage);
              Programmed(m[1], m[2], m[3], m[4], m[5], m[6], table, trapPage, found[5], found[8])
    {
      hide Table.Address, Number, Topped, Of, Programmed;
      Windows();
      Frames(table, trapPage);
      var m := Image(found, table, trapPage);
      assert m[1] == Number(table / PAGE - Table.IOVA_BASE / 0x1_0000_0000) && m[3] == 0 && m[5] == Of(found[5], 0x7fff_ffff);
      assert m[2] == Topped(0xa0) && m[4] == Topped(if Of(found[8], 0x10000000) != 0 then 0x2800 else 0xa0) && m[6] == Topped(Number(trapPage / PAGE));
      Spelled(m[1], m[4], m[5], m[6], table, trapPage, found[5], found[8]);
    }

    // The same, word by word.
    lemma Spelled(base: Reg, second: Reg, bypass: Reg, illegal: Reg, root: nat, trap: nat, bypassed: Reg, debug: Reg)
      requires 0 <= root / 4096 - 10 < 0x1_0000_0000 && base == Number(root / 4096 - 10) && bypass == Of(bypassed, 0x7fffffff)
      requires second == if Of(debug, 0x10000000) != 0 then 0x80002800 else 0x800000a0
      requires trap / 4096 < 0x80000000 && illegal == Topped(Number(trap / 4096))
      ensures Programmed(base, 0x800000a0, 0, second, bypass, illegal, root, trap, bypassed, debug)
    {
    }

    lemma Windows()
      ensures Topped(0xa0) == 0x800000a0 && Topped(0x2800) == 0x80002800
    {
    }

    lemma Frames(table: nat, trapPage: nat)
      requires Table.Address(table, 1) && Table.Address(trapPage, 1) && table >= Table.IOVA_BASE / 0x100000
      ensures 0 <= table / PAGE - Table.IOVA_BASE / 0x1_0000_0000 == table / 4096 - 10 < 0x1_0000_0000 && trapPage / PAGE == trapPage / 4096 < 0x80000000
    {
    }

    lemma Arrives(table: nat, trapPage: nat)
      requires Sound() && Matches() && Captured()
      requires cache & 6 == 0 && Capable(baseline[OURS][8]) && forall i :: 0 <= i < 3 ==> baseline[i][0] == 0
      requires Table.Address(table, 1) && Table.Address(trapPage, 1) && table >= Table.IOVA_BASE / 0x100000
      requires expected == Image(baseline[OURS], table, trapPage)
      ensures InPlace(world.known, origin, table, trapPage)
    {
      hide Fold, Capable, Image, Programmed, Table.Address;
      var units := baseline[OURS := expected];
      forall u: nat, o: nat | u < 3 && o in {0, 4, 0x14, 0x1c, 0x20, 0x24, 0x30, 0x34, 0x38}
        ensures exists j :: 0 <= j < REGISTERS && OFFSETS[j] == o && (u, o) in world.known && (u, o) in origin && world.known[(u, o)] == units[u][j] && origin[(u, o)] == baseline[u][j]
      {
        var j := Place(o);
        assert Shown(world.known, u, j, units[u][j]) && Shown(origin, u, j, baseline[u][j]);
      }
      OffsetsDistinct();
      ImagePrograms(baseline[OURS], table, trapPage);
    }

    lemma Place(o: nat) returns (j: nat)
      requires o in {0, 4, 0x14, 0x1c, 0x20, 0x24, 0x30, 0x34, 0x38}
      ensures j < REGISTERS && OFFSETS[j] == o
    {
      j := if o == 0 then 0 else if o == 4 then 1 else if o == 0x14 then 2 else if o == 0x1c then 3 else if o == 0x20 then 4
           else if o == 0x24 then 5 else if o == 0x30 then 6 else if o == 0x34 then 7 else 8;
    }

    // Lines 80-89: take the baseline of an idle IOMMU.
    method Capture() returns (r: Code)
      requires Sound() && !fault && !staged
      modifies this`baseline, this`cache, this`log, this`world
      ensures Sound() && Looked() && Quieter()
      ensures r == Ok ==> cache & 6 == 0 && Capable(baseline[OURS][8]) && forall i :: 0 <= i < 3 ==> baseline[i][0] == 0
      ensures r in {Ok, Busy, Invalid}
      ensures r == Busy ==> exists k :: |old(log)| <= k < |log| && Occupied(log[k])
      ensures r == Invalid ==> exists k :: |old(log)| <= k < |log| && Unfit(log[k])
    {
      hide Fold, Capable;
      for i := 0 to 3
        invariant Sound() && Looked() && Quieter()
        invariant forall k :: 0 <= k < i ==> baseline[k][0] == 0
        invariant |log| == |old(log)| + REGISTERS * i
        invariant i > OURS ==> log[|old(log)| + 2 * REGISTERS - 1] == Read(OURS, 0x38, baseline[OURS][8])
      {
        var found := ReadUnit(i);
        baseline := baseline[i := found];
        if found[0] != 0 {
          assert Occupied(log[|log| - REGISTERS]);
          return Busy;
        }
      }
      var debug := baseline[OURS][8];
      ghost var seen := |log|;
      assert log[seen - 10] == Read(OURS, 0x38, debug);
      var capable := IsCapable(debug);
      if !capable {
        assert Unfit(log[seen - 10]);
        return Invalid;
      }
      cache := ReadReg(CACHE, CONTROL);
      r := if cache & 6 != 0 then Busy else Ok;
      assert cache & 6 != 0 ==> Occupied(log[|log| - 1]);
    }

    // TLB and walk cache are as large as the driver relies on.
    method IsCapable(debug: Reg) returns (capable: bool)
      ensures capable <==> Capable(debug)
    {
      capable := !(debug & 15 < 4 || (debug >> 4) & 15 < 6 || (debug >> 8) & 15 < 6 || debug & 0x20000000 == 0);
    }

    method MmuBegin(table: nat, trapPage: nat, ghost ids: set<Id>) returns (r: Code)
      requires Sound() && (fault || (!active && (staged ==> Captured())))
      modifies this`baseline, this`expected, this`cache, this`staged, this`fault, this`log, this`world, this`origin
      ensures Sound() && old(log) <= log && world.held == old(world.held)
      ensures old(fault) || old(staged) ==> r == Busy && log == old(log) && staged == old(staged) && fault == old(fault) && unchanged(this)
      // A refusal without a fault has written no register, and given nothing away.
      ensures r != Ok && !fault && !old(staged) ==> !staged && Looked() && Quieter()
      ensures r == Ok ==>
                && staged && !fault && Matches() && Captured() && world.concealed == {}
                && world.exposed == old(world.exposed) + ids
                && Table.Address(table, 1) && Table.Address(trapPage, 1) && table >= Table.IOVA_BASE / 0x100000
                && expected == Image(baseline[OURS], table, trapPage) && InPlace(world.known, origin, table, trapPage)
      // Without a fault, only a bad address or a register that deters is a reason.
      ensures r != Ok && !fault && !old(staged) ==> Refused(r, |old(log)|, log, table, trapPage)
      ensures r != Ok && fault && !old(fault) ==> Failing(r)
    {
      hide Fold, Table.Address, Image, InPlace, Capable, Occupied, Unfit;
      if staged || fault {
        return Busy;
      }
      if !Table.Address(table, 1) || !Table.Address(trapPage, 1) || table < Table.IOVA_BASE / 0x100000 {
        return Invalid;
      }
      r := Capture();
      if r != Ok {
        return;
      }
      expected := baseline[OURS];
      staged := true;
      r := Check();
      if r != Ok {
        return Drift;
      }
      assert Units() == baseline;
      r := Configure(table, trapPage, ids);
      if r == Ok {
        Arrives(table, trapPage);
      }
    }

    // The hardware is shown the tables, and flushes what it had.
    method Configure(table: nat, trapPage: nat, ghost ids: set<Id>) returns (r: Code)
      requires Sound() && !fault && staged && !active && expected == baseline[OURS] && Settled(world.known, baseline, cache)
      requires Table.Address(table, 1) && Table.Address(trapPage, 1) && table >= Table.IOVA_BASE / 0x100000
      modifies this`expected, this`fault, this`log, this`world, this`origin
      ensures Sound() && old(log) <= log && (r != Ok ==> Failing(r)) && world.held == old(world.held)
      ensures r == Ok ==>
                && !fault && Matches() && Captured() && world.concealed == {} && world.exposed == old(world.exposed) + ids
                && expected == Image(baseline[OURS], table, trapPage)
    {
      hide Fold, Table.Address, Image, Settled, Flushing, Unflushed, Stores;
      origin := world.known;
      Emit(Expose(ids));
      Program(Image(baseline[OURS], table, trapPage));
      assert expected == Image(baseline[OURS], table, trapPage);
      ghost var p;
      r, p := Invalidate();
    }

    method MmuEnd(ghost ids: set<Id>) returns (r: Code)
      requires Sound() && staged && !active && !fault && Captured()
      requires expected[0] == baseline[OURS][0] && expected[7] == baseline[OURS][7] && expected[8] == baseline[OURS][8]
      modifies this`expected, this`staged, this`fault, this`log, this`world
      ensures Sound() && old(log) <= log && world.held == old(world.held)
      ensures r == Ok ==>
                && !staged && !fault && world.concealed == {} && world.exposed == old(world.exposed) - ids
                // every register reads as the session found it
                && Settled(world.known, baseline, cache) && Settled(origin, baseline, cache)
      ensures r != Ok ==> Failing(r)
    {
      hide Fold, Settled, Flushing;
      ghost var p;
      r, p := Invalidate();
      if r != Ok {
        return;
      }
      Program(baseline[OURS]);
      Emit(Conceal(ids));
      assert expected == baseline[OURS];
      assert Units() == baseline;
      r, p := Invalidate();
      if r == Ok {
        staged := false;
      }
    }

    // The control register of a unit, or of the cache, was last read with that value.
    ghost predicate Seen(unit: nat, value: Reg)
      reads this`world
    {
      (unit, 0) in world.known && world.known[(unit, 0)] == value
    }

    method MmuActivate() returns (r: Code)
      requires Sound() && staged && !active && !fault
      modifies this`active, this`fault, this`log, this`world
      ensures Sound() && old(log) <= log && Quieter()
      ensures r == Ok ==> active && !fault && Seen(OURS, 0x04090803) && Seen(CACHE, cache | 1)
      ensures r == Ok ==> |log| >= |old(log)| + 4 && log[|log| - 4..] == Starts(cache)
      ensures r != Ok ==> fault && (Failing(r) || (r == Drift && NotOn(log, cache)))
    {
      hide Fold, Observe, Settled, Flushing;
      ghost var p;
      r, p := Invalidate();
      if r == Ok {
        active := true;
        r := SwitchOn();
      }
    }

    // Cache first, then our unit, then both are read back.
    function Starts(cache: Reg): seq<Event> {
      [Write(CACHE, 0, Enabled(cache)), Write(OURS, 0, 0x04090803), Read(CACHE, 0, Enabled(cache)), Read(OURS, 0, 0x04090803)]
    }

    method SwitchOn() returns (r: Code)
      requires Sound() && !fault
      modifies this`fault, this`log, this`world
      ensures Sound() && old(log) <= log && Quieter()
      ensures r == Ok ==> !fault && Seen(OURS, 0x04090803) && Seen(CACHE, Enabled(cache)) && log == old(log) + Starts(cache)
      ensures r != Ok ==> fault && r == Drift && NotOn(log, cache)
    {
      hide Fold, Observe, NotOn, Enabled;
      var enabled := Enabled(cache);
      WriteBoth(enabled);
      ghost var mid := log;
      var shared := ReadAgain(CACHE);
      var control := ReadAgain(OURS);
      if shared != enabled || control != ACTIVE_CONTROL {
        r := Fault(Drift);
        assert log == mid + [Read(CACHE, 0, shared), Read(OURS, 0, control), Latch];
        NotOnSeen(mid, shared, control, cache);
        return;
      }
      r := Ok;
    }

    method WriteBoth(enabled: Reg)
      requires Sound() && !fault && enabled == Enabled(cache)
      modifies this`log, this`world
      ensures Sound() && log == old(log) + [Write(CACHE, 0, enabled), Write(OURS, 0, 0x04090803)] && Quieter()
    {
      hide Fold, Observe;
      WriteReg(CACHE, CONTROL, enabled);
      WriteReg(OURS, CONTROL, ACTIVE_CONTROL);
    }

    // The control register once more.
    method ReadAgain(unit: nat) returns (value: Reg)
      requires Sound()
      modifies this`log, this`world
      ensures Sound() && log == old(log) + [Read(unit, 0, value)] && Quieter()
      ensures world.known == old(world.known)[(unit, 0) := value]
    {
      hide Fold;
      value := ReadReg(unit, CONTROL);
    }

    // Lines 139-143: fault flags, violation address and counters.
    method ReadStatistics() returns (ghost control: Reg)
      requires Sound()
      modifies this`faultFlags, this`violation, this`hits, this`misses, this`stalls, this`log, this`world
      ensures Sound() && Quieter() && faultFlags == Flags(control)
      ensures log == old(log) + [Read(OURS, 0, control), Read(OURS, 0x34, violation), Read(OURS, 8, hits), Read(OURS, 12, misses), Read(OURS, 16, stalls)]
    {
      hide Fold, Observe, Flags;
      var value := ReadReg(OURS, CONTROL);
      control := value;
      faultFlags := Flags(value);
      violation := ReadReg(OURS, 0x34);
      ReadCounters();
    }

    method ReadCounters()
      requires Sound()
      modifies this`hits, this`misses, this`stalls, this`log, this`world
      ensures Sound() && Quieter() && log == old(log) + [Read(OURS, 8, hits), Read(OURS, 12, misses), Read(OURS, 16, stalls)]
    {
      hide Fold, Observe;
      hits := ReadReg(OURS, 8);
      misses := ReadReg(OURS, 12);
      stalls := ReadReg(OURS, 16);
    }

    // What a window that could not be closed is told.
    ghost predicate Unclosed(r: Code)
      requires Sound()
      reads this`world, this`log, this`fault, this`baseline, this`expected, this`cache, this`faultFlags
    {
      || Failing(r)
      || (r == Drift && (NotActive(log, cache) || NotOff(log, faultFlags)))
      || (r == DeviceFault && faultFlags != 0)
    }

    method MmuDeactivate(quiesced: bool) returns (r: Code, ghost off: nat)
      requires Sound() && (active ==> staged)
      modifies this`active, this`fault, this`faultFlags, this`violation, this`hits, this`misses, this`stalls, this`log, this`world
      ensures Sound() && old(log) <= log && Quieter()
      ensures !old(active) ==> r == Invalid && log == old(log) && !active && fault == old(fault)
      ensures old(active) && r != Ok ==> fault
      ensures r == Ok ==> old(active) && quiesced && !old(fault) && !active && !fault && world.concealed == {}
      // Translation is off, the cache as before, and everything as programmed.
      ensures r == Ok ==> Matches() && |old(log)| <= off < |log| && log[off] == Write(OURS, 0, 0)
      ensures r == Ok ==> faultFlags == 0 && Shut(old(log), log, Units(), cache, off)
      // Each failure has its reason.
      ensures old(active) && !quiesced ==> r == Busy
      ensures old(active) && quiesced && old(fault) ==> r == Drift
      ensures old(active) && quiesced && !old(fault) && r != Ok ==> Unclosed(r) && |log| > |old(log)| && log[|log| - 1] == Latch
    {
      hide Fold, Observe, Settled, Rows, Shut, Flushing, Unflushed, NotOff, NotActive, Translates, Enabled;
      off := 0;
      if !active {
        return Invalid, off;
      }
      ghost var first := ReadStatistics();
      if !quiesced {
        r := Fault(Busy);
        return;
      }
      if fault {
        return Drift, off;
      }
      r, off := Leave(old(log));
    }

    // With the window still to be closed: is all in place, and does it close?
    method Leave(ghost before: seq<Event>) returns (r: Code, ghost off: nat)
      requires Sound() && active && staged && !fault && before <= log && |log| == |before| + 5
      modifies this`active, this`fault, this`log, this`world
      ensures Sound() && old(log) <= log && Quieter()
      ensures r == Ok ==>
                && !active && !fault && world.concealed == {} && Matches() && faultFlags == 0
                && |before| <= off < |log| && log[off] == Write(OURS, 0, 0) && Shut(before, log, Units(), cache, off)
      ensures r != Ok ==> fault && Unclosed(r) && |log| > |old(log)| && log[|log| - 1] == Latch
    {
      hide Fold, Observe, Settled, Rows, Shut, Flushing, Unflushed, NotOff, NotActive, Translates, Enabled;
      off := 0;
      ghost var counted, control := log, 0;
      r, control := StillActive();
      if r != Ok {
        return;
      }
      ghost var seen := log;
      r := VerifyActive();
      if r != Ok {
        FailingLatch(r);
        return;
      }
      off := |log|;
      ghost var verified := log;
      r := Disable();
      if r == Ok {
        WasClosed(before, counted, seen, verified, log, Units(), cache, control);
        ShutAt(before, log, Units(), cache, off);
      }
    }

    lemma ShutAt(before: seq<Event>, after: seq<Event>, units: seq<seq<Reg>>, cache: Reg, off: nat)
      requires Sizes(units) && Shut(before, after, units, cache, off)
      ensures off < |after| && after[off] == Write(OURS, 0, 0)
    {
      assert after[off..off + 4][0] == after[off];
    }

    lemma WasClosed(before: seq<Event>, counted: seq<Event>, seen: seq<Event>, verified: seq<Event>, after: seq<Event>, units: seq<seq<Reg>>, cache: Reg, control: Reg)
      requires Sizes(units) && before <= counted && |counted| == |before| + 5
      requires seen == counted + [Read(OURS, 0, control), Read(CACHE, 0, Enabled(cache))] && Translates(control)
      requires verified == seen + Rows(units, {0}, 3)
      requires verified + [Write(OURS, 0, 0), Read(OURS, 0, 0), Write(CACHE, 0, cache), Read(CACHE, 0, cache)] < after
      ensures Shut(before, after, units, cache, |verified|)
    {
      hide Rows;
      SweepLength(units, cache);
      assert after[..|verified|] == verified && verified[..|seen|] == seen;
      assert after[|before| + 7..|verified|] == verified[|seen|..];
    }

    // Lines 146-149: our unit translates, and the cache is on.
    method StillActive() returns (r: Code, ghost control: Reg)
      requires Sound() && !fault
      modifies this`fault, this`log, this`world
      ensures Sound() && old(log) <= log && Quieter()
      ensures r == Ok ==>
                !fault && log == old(log) + [Read(OURS, 0, control), Read(CACHE, 0, Enabled(cache))] && Translates(control)
      ensures r != Ok ==> fault && r == Drift && NotActive(log, cache) && log[|log| - 1] == Latch && |log| > |old(log)|
    {
      hide Fold, Observe, NotActive, Enabled, Translates;
      var value := ReadReg(OURS, CONTROL);
      control := value;
      var shared := ReadReg(CACHE, CONTROL);
      if !Translates(value) || shared != Enabled(cache) {
        r := Fault(Drift);
        assert log == old(log) + [Read(OURS, 0, value), Read(CACHE, 0, shared), Latch];
        NotActiveSeen(old(log), value, shared, cache);
        return;
      }
      r := Ok;
    }

    // What VerifyActive passes over in our unit.
    function Passed(): set<nat>
      reads this`faultFlags
    {
      if faultFlags != 0 then {0, 7} else {0}
    }

    // Lines 150-157: the configuration is what it was before activation.
    method VerifyActive() returns (r: Code)
      requires Sound() && !fault
      modifies this`fault, this`log, this`world
      ensures Sound() && old(log) <= log && Quieter()
      ensures r == Ok ==> !fault && log == old(log) + Rows(Units(), Passed(), 3)
      ensures r != Ok ==> r == Drift && Failing(r)
    {
      hide Fold, Observe, Reads;
      for i := 0 to 3
        invariant Sound() && old(log) <= log && Quieter() && !fault && log == old(log) + Rows(Units(), Passed(), i)
      {
        r := VerifyUnit(i);
        if r != Ok {
          return;
        }
      }
      r := Ok;
    }

    method VerifyUnit(i: nat) returns (r: Code)
      requires Sound() && !fault && i < 3
      modifies this`fault, this`log, this`world
      ensures Sound() && old(log) <= log && Quieter()
      ensures r == Ok ==> !fault && log == old(log) + Reads(i, Units()[i], if i == OURS then Passed() else {}, REGISTERS)
      ensures r != Ok ==> r == Drift && Failing(r)
    {
      hide Fold, Observe;
      ghost var out := if i == OURS then Passed() else {};
      for j := 0 to REGISTERS
        invariant Sound() && old(log) <= log && Quieter() && !fault && log == old(log) + Reads(i, Units()[i], out, j)
      {
        if i == OURS && (j == 0 || (j == 7 && faultFlags != 0)) {
          continue;
        }
        var value := ReadReg(i, OFFSETS[j]);
        if value != (if i == OURS then expected[j] else baseline[i][j]) {
          r := Fault(Drift);
          return;
        }
      }
      r := Ok;
    }

    // Lines 158-169: switch translation off without discarding the evidence.
    method Disable() returns (r: Code)
      requires Sound() && !fault && active && staged
      modifies this`active, this`fault, this`log, this`world
      ensures Sound() && old(log) <= log && Quieter()
      ensures r != Ok ==> fault && Unclosed(r) && log[|log| - 1] == Latch
      ensures r == Ok ==> !active && !fault && world.concealed == {} && Matches() && faultFlags == 0
      ensures r == Ok ==> old(log) + [Write(OURS, 0, 0), Read(OURS, 0, 0), Write(CACHE, 0, cache), Read(CACHE, 0, cache)] < log
    {
      hide Fold, Observe, Settled, Flushing, Unflushed, NotOff, NotActive, Differs;
      r := SwitchOff();
      if r != Ok {
        return;
      }
      r := RestoreCache();
      if r != Ok {
        FailingLatch(r);
        return;
      }
      if faultFlags != 0 {
        r := Fault(DeviceFault);
        return;
      }
      ghost var p, mid := 0, log;
      r, p := Invalidate();
      if r == Ok {
        WasSwept(mid, log, Units(), cache, p);
      } else {
        FailingLatch(r);
      }
    }

    lemma FailingLatch(r: Code)
      requires Sound() && Failing(r)
      ensures log != [] && log[|log| - 1] == Latch
    {
      hide Fold, Differs;
    }

    lemma WasSwept(before: seq<Event>, after: seq<Event>, units: seq<seq<Reg>>, cache: Reg, p: nat)
      requires Sizes(units) && before <= after && Flushing(before, after, units, cache, p)
      ensures before < after
    {
    }

    method SwitchOff() returns (r: Code)
      requires Sound() && !fault && active
      modifies this`active, this`fault, this`log, this`world
      ensures Sound() && old(log) <= log && Quieter()
      ensures r == Ok ==> !active && !fault && log == old(log) + [Write(OURS, 0, 0), Read(OURS, 0, faultFlags)]
      ensures r != Ok ==> fault && active && r == Drift && NotOff(log, faultFlags) && log[|log| - 1] == Latch
    {
      hide Fold, Observe;
      WriteReg(OURS, CONTROL, 0);
      var control := ReadReg(OURS, CONTROL);
      if control != faultFlags {
        r := Fault(Drift);
        return;
      }
      active := false;
      r := Ok;
    }

    method RestoreCache() returns (r: Code)
      requires Sound() && !fault
      modifies this`fault, this`log, this`world
      ensures Sound() && old(log) <= log && Quieter()
      ensures r == Ok ==> !fault && log == old(log) + [Write(CACHE, 0, cache), Read(CACHE, 0, cache)]
      ensures r != Ok ==> fault && r == Drift && Failing(r)
    {
      hide Fold, Observe;
      WriteReg(CACHE, CONTROL, cache);
      var shared := ReadReg(CACHE, CONTROL);
      if shared != cache {
        r := Fault(Drift);
        return;
      }
      r := Ok;
    }

    // ----- pi5-iommu/driver.c -----

    constructor ()
      ensures Valid() && fresh(this) && fresh(buffers)
      ensures owner == Nobody && !bootFault && log == [] && world == Origin()
    {
      baseline := seq(3, _ => seq(REGISTERS, _ => 0));
      expected := seq(REGISTERS, _ => 0);
      cache, faultFlags, violation, hits, misses, stalls := 0, 0, 0, 0, 0, 0;
      staged, fault, active, bootFault := false, false, false, false;
      owner, tables, rootEntry, slots := Nobody, NoTables, 0, map[];
      buffers := new Buffer[Table.SLOTS](i => NoBuffer);
      activeBuffers, nextToken := 0, 0;
      log, world, nextId, origin := [], Origin(), 0, map[];
      new;
      AllEmpty(buffers[..]);
    }

    method Quarantine(status: Status) returns (s: Status)
      requires Sound()
      modifies this`fault, this`bootFault, this`log, this`world
      ensures Sound() && fault && bootFault && s == status && Quieter() && log == old(log) + if old(fault) then [] else [Latch]
    {
      var r := Fault(DeviceFault);
      bootFault := true;
      s := status;
    }

    method Result(r: Code) returns (s: Status)
      requires Sound()
      modifies this`fault, this`bootFault, this`log, this`world
      ensures Sound() && log == old(log) && Quieter() && world.known == old(world.known) && fault == old(fault)
      ensures r == Ok || !fault ==> bootFault == old(bootFault) && world == old(world)
      ensures r != Ok && fault ==> bootFault
      ensures s == Success <==> r == Ok
      ensures s == if r == Ok then Success
                   else if fault then (if r == Timeout then IoTimeout else HardwareError)
                   else if r == Busy then DeviceBusy else InvalidParameter
    {
      if r == Ok {
        return Success;
      }
      if fault {
        s := Quarantine(if r == Timeout then IoTimeout else HardwareError);
        return;
      }
      s := if r == Busy then DeviceBusy else InvalidParameter;
    }

    // Memory the hardware can be given or be refused: nothing it has ever had
    // under this identity.
    ghost predicate Unreached(id: Id)
      reads this`world
    {
      id !in world.exposed && id !in world.concealed
    }

    method FreeMemory(m: Memory)
      requires Sound() && !fault && Unreached(m.id) && m.id in world.held
      modifies this`log, this`world
      ensures Sound() && log == old(log) + [Free(m.id)] && Calm() && world.known == old(world.known) && world.held == old(world.held) - {m.id}
    {
      Emit(Free(m.id));
    }

    // Both tables and the trap page.
    method FreePages(p: Tables)
      requires Sound() && !fault && p.Tables? && p.Distinct() && forall id :: id in p.Ids() ==> Unreached(id) && id in world.held
      modifies this`log, this`world
      ensures Sound() && old(log) <= log && Calm() && world.known == old(world.known) && world.held == old(world.held) - p.Ids()
    {
      hide Fold;
      assert p.root.id in p.Ids() && p.l2.id in p.Ids() && p.trap.id in p.Ids();
      FreeMemory(p.root);
      FreeMemory(p.l2);
      FreeMemory(p.trap);
    }

    method AllocateMemory(pages: nat, hal: Hal) returns (m: Memory, s: Status)
      requires Sound() && !fault && 0 < pages && world.concealed == {} && (forall id :: id in world.exposed || id in world.held ==> id < nextId)
      modifies this`nextId, this`log, this`world
      ensures Sound() && old(log) <= log && Calm() && old(nextId) <= nextId
      ensures world.held == if s == Success then old(world.held) + {m.id} else old(world.held)
      ensures s == Success ==>
                && hal == At(m.dma) && m.id == old(nextId) && nextId == m.id + 1 && m.bytes == pages * PAGE
                && m.dma % PAGE == 0 && m.dma <= Table.DMA_LIMIT && m.bytes - 1 <= Table.DMA_LIMIT - m.dma
      ensures s == Success <==> Good(hal, pages)
      ensures s != Success ==> s == if hal.Exhausted? then InsufficientResources else ConfigurationError
    {
      hide Fold;
      m := Memory(nextId, 0, pages * PAGE);
      if hal.Exhausted? {
        return m, InsufficientResources;
      }
      m := m.(dma := hal.dma);
      nextId := nextId + 1;
      Emit(Alloc(m.id));
      if m.dma % PAGE != 0 || m.dma > Table.DMA_LIMIT || m.bytes - 1 > Table.DMA_LIMIT - m.dma {
        FreeMemory(m);
        return m, ConfigurationError;
      }
      s := Success;
    }

    // The root, level-two and trap pages, all or none of them.
    method AllocatePages(hal: (Hal, Hal, Hal)) returns (pages: Tables, s: Status)
      requires Sound() && !fault && world.concealed == {} && world.exposed == {} && world.held == {}
      modifies this`nextId, this`log, this`world
      ensures Sound() && old(log) <= log && Calm() && old(nextId) <= nextId
      ensures world.held == pages.Ids() && pages.Distinct()
      ensures s == Success <==> pages.Tables?
      ensures s in {Success, InsufficientResources, ConfigurationError}
      ensures s == Success <==> Good(hal.0, 1) && Good(hal.1, 1) && Good(hal.2, 1)
      ensures s == Success ==> forall id :: id in pages.Ids() ==> old(nextId) <= id < nextId
      ensures s == Success ==> pages.root.dma % PAGE == 0 && pages.l2.dma % PAGE == 0 && pages.l2.dma <= Table.DMA_LIMIT && hal == (At(pages.root.dma), At(pages.l2.dma), At(pages.trap.dma))
    {
      hide Fold, Observe, Good;
      pages := NoTables;
      var root, l2, trap;
      root, s := AllocateMemory(1, hal.0);
      if s != Success {
        return;
      }
      l2, s := AllocateMemory(1, hal.1);
      if s != Success {
        FreeMemory(root);
        return;
      }
      trap, s := AllocateMemory(1, hal.2);
      if s != Success {
        FreeMemory(root);
        FreeMemory(l2);
        return;
      }
      pages := Tables(root, l2, trap);
    }

    // What a caller is told whose session is not begun: of the HAL, of an address,
    // or of a register that was read.
    ghost predicate Declined(s: Status, from: nat, hal: (Hal, Hal, Hal))
      reads this`log
    {
      if !(Good(hal.0, 1) && Good(hal.1, 1) && Good(hal.2, 1)) then s == InsufficientResources || s == ConfigurationError
      else if hal.0.dma < 0xa000 then s == InvalidParameter
      else
        || (s == InvalidParameter && exists k :: from <= k < |log| && Unfit(log[k]))
        || (s == DeviceBusy && exists k :: from <= k < |log| && Occupied(log[k]))
    }

    // Begin a session for `file`: three pages, then the hardware.
    method Begin(file: nat, hal: (Hal, Hal, Hal)) returns (s: Status)
      requires Valid()
      modifies this
      ensures Valid() && old(log) <= log
      ensures old(bootFault) ==> s == HardwareError && unchanged(this)
      ensures !old(bootFault) && old(owner) != Nobody ==> s == DeviceBusy && unchanged(this)
      ensures s == Success ==> !old(staged) && owner == File(file) && staged && Matches() && Opens(hal)
      ensures s != Success ==> owner == old(owner)
      // Without a fault or another session, only the HAL or a register that deters
      // is a reason to fail.
      ensures s != Success && !fault && old(owner) == Nobody ==>
                Declined(s, |old(log)|, hal)
      ensures s != Success && fault && !old(fault) ==> Failing(if s == IoTimeout then Timeout else Drift)
    {
      hide Fold, Observe, Settled, Image, Table.Address, Live, Books, Sound, Captured, Opens, Good;
      if bootFault {
        return HardwareError;
      }
      if owner != Nobody {
        return DeviceBusy;
      }
      s := Open(file, hal);
    }

    lemma RootNames(l2: Memory)
      requires l2.dma % PAGE == 0 && l2.dma <= Table.DMA_LIMIT
      ensures var e := SetValid(l2.dma / PAGE); ValidBit(e) && !WriteBit(e) && Frame(e) * 4096 == l2.dma
    {
      Fields(l2.dma / PAGE, false);
    }

    // The three pages are those of the HAL, in this order; the first names the
    // second, and the hardware has the first and the third.
    ghost predicate Opens(hal: (Hal, Hal, Hal))
      reads this`tables, this`rootEntry, this`world, this`origin
    {
      && tables.Tables? && hal == (At(tables.root.dma), At(tables.l2.dma), At(tables.trap.dma))
      && ValidBit(rootEntry) && !WriteBit(rootEntry) && Frame(rootEntry) * 4096 == tables.l2.dma
      && InPlace(world.known, origin, tables.root.dma, tables.trap.dma)
    }

    // Take the pages over.
    method Adopt(file: nat, pages: Tables)
      requires pages.Tables? && pages.l2.dma % PAGE == 0 && pages.l2.dma <= Table.DMA_LIMIT
      modifies this`tables, this`slots, this`owner, this`rootEntry
      ensures tables == pages && slots == map[] && owner == File(file)
      ensures ValidBit(rootEntry) && !WriteBit(rootEntry) && Frame(rootEntry) * 4096 == pages.l2.dma
    {
      hide SetValid, Frame, ValidBit, WriteBit;
      RootNames(pages.l2);
      tables, slots, owner, rootEntry := pages, map[], File(file), SetValid(pages.l2.dma / PAGE);
    }

    lemma DeclinedBy(s: Status, from: nat, at: nat, hal: (Hal, Hal, Hal))
      requires Good(hal.0, 1) && Good(hal.1, 1) && Good(hal.2, 1) && from <= at && (s == InvalidParameter || s == DeviceBusy)
      requires Refused(if s == DeviceBusy then Busy else Invalid, at, log, hal.0.dma, hal.2.dma)
      ensures Declined(s, from, hal)
    {
      hide Unfit, Occupied;
    }

    method Open(file: nat, hal: (Hal, Hal, Hal)) returns (s: Status)
      requires Valid() && !bootFault && owner == Nobody
      modifies this
      ensures Valid() && old(log) <= log
      ensures s == Success ==> !old(staged) && owner == File(file) && staged && Matches() && Opens(hal)
      ensures s != Success ==> owner == old(owner)
      ensures s != Success && !fault ==>
                Declined(s, |old(log)|, hal)
      ensures s != Success && fault && !old(fault) ==> Failing(if s == IoTimeout then Timeout else Drift)
    {
      hide Fold, Observe, Settled, Image, Live, Books, Sound, Captured, Accounts, InPlace, Occupied, Unfit, Frame, ValidBit, WriteBit, Refused, Unflushed, Tokens;
      ghost var bs, before := buffers[..], nextId;
      Opening();
      OwnedNothing(bs);
      var pages;
      pages, s := AllocatePages(hal);
      if s == Success {
        ghost var at := |log|;
        s := Stage(pages);
        if s != Success && !fault {
          DeclinedBy(s, |old(log)|, at, hal);
        }
        if s == Success {
          BooksOpen(bs, before, pages.Ids(), nextId);
          Adopt(file, pages);
          assert buffers[..] == bs;
          Opened();
          return;
        }
      }
      if !fault {
        assert buffers[..] == bs;
        BooksLater({}, {}, bs, map[], before, nextId);
        Closed();
      }
    }

    lemma Opening()
      requires Valid() && !fault && owner == Nobody
      ensures !staged && world.concealed == world.exposed == {} && activeBuffers == Live(buffers[..])
      ensures tables == NoTables && slots == map[] && Books({}, {}, buffers[..], map[], nextId)
      ensures world.held == {} && forall s :: 0 <= s < buffers.Length ==> buffers[s] == NoBuffer
    {
      hide Fold, Settled, Books, Live;
      BooksIdle(world.exposed, buffers[..], slots, nextId);
      OwnedNothing(buffers[..]);
    }

    lemma Opened()
      requires Sound() && buffers.Length == Table.SLOTS && staged && owner.File? && tables.Tables? && activeBuffers == Live(buffers[..])
      requires world.concealed == {} && Captured() && expected[0] == baseline[1][0] && expected[7] == baseline[1][7] && expected[8] == baseline[1][8]
      requires Books(world.exposed, tables.Ids(), buffers[..], slots, nextId)
      ensures Accounts(nextId)
    {
      hide Fold, Settled, Books, Live;
    }

    // Hand the pages to the hardware, or back.
    method Stage(pages: Tables) returns (s: Status)
      requires Sound() && bootFault == fault && !fault && !active && !staged && world.concealed == {} && world.exposed == {}
      requires pages.Tables? && pages.Distinct() && world.held == pages.Ids()
      modifies this`baseline, this`expected, this`cache, this`staged, this`fault, this`bootFault, this`log, this`world, this`origin
      ensures Sound() && bootFault == fault && old(log) <= log
      ensures s == Success ==> staged && !fault && Matches() && Captured() && world.concealed == {} && world.exposed == world.held == pages.Ids()
      ensures s == Success ==> expected[0] == baseline[1][0] && expected[7] == baseline[1][7] && expected[8] == baseline[1][8]
      ensures s != Success && !fault ==> !staged && world.concealed == world.exposed == world.held == {}
      ensures s == Success ==> InPlace(world.known, origin, pages.root.dma, pages.trap.dma)
      ensures s != Success && !fault ==>
                && (s == InvalidParameter || s == DeviceBusy)
                && Refused(if s == DeviceBusy then Busy else Invalid, |old(log)|, log, pages.root.dma, pages.trap.dma)
      ensures s != Success && fault ==> Failing(if s == IoTimeout then Timeout else Drift)
    {
      hide Fold, Observe, Settled, Table.Address, InPlace, Occupied, Unfit;
      var r := MmuBegin(pages.root.dma, pages.trap.dma, pages.Ids());
      s := Result(r);
      ghost var asked := log;
      if s != Success && !fault {
        FreePages(pages);
        RefusedMore(r, |old(log)|, asked, log, |old(log)|, pages.root.dma, pages.trap.dma);
      }
    }

    method FreeSlot() returns (slot: nat)
      requires buffers.Length == Table.SLOTS
      ensures slot <= Table.SLOTS && forall t :: 0 <= t < slot ==> buffers[t].Buffer?
      ensures slot < Table.SLOTS ==> buffers[slot] == NoBuffer
    {
      slot := 0;
      while slot < Table.SLOTS && buffers[slot].Buffer?
        invariant slot <= Table.SLOTS && forall t :: 0 <= t < slot ==> buffers[t].Buffer?
      {
        slot := slot + 1;
      }
    }

    // MmuMap and the bookkeeping around it: the buffer becomes reachable. It
    // cannot refuse, because a free slot has no entries and the run fits.
    method Install(slot: nat, b: Buffer, ghost before: Id)
      requires Sound() && !fault && staged && buffers.Length == Table.SLOTS && slot < Table.SLOTS && buffers[slot] == NoBuffer
      requires Books(world.exposed, tables.Ids(), buffers[..], slots, before) && tables.Tables?
      requires b.Buffer? && b.mapped && b.memory.id == before && nextId == before + 1
      requires activeBuffers == Live(buffers[..]) && Table.Address(b.memory.dma + PAGE, b.pages)
      modifies this`log, this`world, this`slots, this`activeBuffers, buffers
      ensures Sound() && old(log) <= log && world.exposed == old(world.exposed) + {b.memory.id} && world.concealed <= old(world.concealed)
      ensures world.held == old(world.held)
      ensures Books(world.exposed, tables.Ids(), buffers[..], slots, nextId) && activeBuffers == Live(buffers[..])
      ensures buffers[..] == old(buffers[..])[slot := b] && activeBuffers == old(activeBuffers) + 1
      ensures slot !in old(slots) && slots == old(slots)[slot := Table.Mapping(b.memory.dma + PAGE, b.pages, b.writable)]
    {
      hide Fold, Books, Live;
      var m := Table.Mapping(b.memory.dma + PAGE, b.pages, b.writable);
      LiveUpdate(buffers[..], slot, b);
      BooksOld(world.exposed, tables.Ids(), buffers[..], slots, before);
      BooksInstall(world.exposed, tables.Ids(), buffers[..], slots, before, slot, b, m);
      Emit(Expose({b.memory.id}));
      slots := slots[slot := m];
      buffers[slot] := b;
      activeBuffers := activeBuffers + 1;
      assert buffers[..] == old(buffers[..])[slot := b];
    }

    method Allocate(pages: nat, writable: bool, hal: Hal) returns (s: Status, slot: nat, iova: nat, dma: nat)
      requires Valid() && 1 <= pages <= Table.MAX_PAGES
      modifies this`fault, this`bootFault, this`log, this`world, this`nextId, this`slots, this`activeBuffers, this`nextToken, buffers
      ensures Valid() && old(log) <= log
      // The buffer handed out is exactly what the table translates its IOVA to.
      ensures s == Success ==>
                && !fault && nextToken == old(nextToken) + 1 && activeBuffers == old(activeBuffers) + 1
                && slot !in old(slots) && slots == old(slots)[slot := Table.Mapping(dma, pages, writable)]
                && iova == Table.Iova(slot, 0) && PAGE <= dma && hal == At(dma - PAGE)
                && slot < Table.SLOTS && old(buffers[slot]) == NoBuffer
                && buffers[..] == old(buffers[..])[slot := Buffer(Memory(old(nextId), dma - PAGE, (pages + 2) * PAGE), pages, writable, true, nextToken)]
      ensures s == Success <==>
                && !fault && staged && Good(hal, pages + 2) && old(nextToken) < 0xffff_ffff_ffff_ffff
                && exists t :: 0 <= t < Table.SLOTS && old(buffers[t]) == NoBuffer
      ensures s != Success && !fault ==> slots == old(slots) && buffers[..] == old(buffers[..]) && nextToken == old(nextToken)
      ensures s != Success && !fault ==> Unobtained(s, hal)
      ensures fault && !old(fault) ==> Broken()
    {
      hide Fold, Observe, Settled, Live, Books, Sound, Captured, OwnedBy, Unobtained, Broken;
      iova, dma := 0, 0;
      var m;
      s, slot, m := Obtain(pages, hal);
      if s != Success {
        return;
      }
      nextToken := nextToken + 1;
      s := Publish(slot, Buffer(m, pages, writable, true, nextToken), m.id);
      if s != Success {
        return;
      }
      iova, dma := Table.Iova(slot, 0), m.dma + PAGE;
    }

    // Map the buffer, and flush.
    method Publish(slot: nat, b: Buffer, ghost before: Id) returns (s: Status)
      requires Sound() && bootFault == fault && !fault && staged && !active && buffers.Length == Table.SLOTS && Accounts(before)
      requires slot < Table.SLOTS && buffers[slot] == NoBuffer
      requires before in world.held && OwnedBy(world.held - {before}, tables, buffers[..]) && nextToken <= 0xffff_ffff_ffff_ffff
      requires 0 < nextToken && Tokens(buffers[..], nextToken - 1) && b.Buffer? && b.token == nextToken
      requires b.Buffer? && b.mapped && b.memory.id == before && nextId == before + 1 && Table.Address(b.memory.dma + PAGE, b.pages)
      modifies this`fault, this`bootFault, this`log, this`world, this`slots, this`activeBuffers, buffers
      ensures Valid() && old(log) <= log
      ensures s == Success ==>
                && !fault && activeBuffers == old(activeBuffers) + 1
                && slot !in old(slots) && slots == old(slots)[slot := Table.Mapping(b.memory.dma + PAGE, b.pages, b.writable)]
                && buffers[..] == old(buffers[..])[slot := b]
      ensures s == Success <==> !fault
      ensures fault ==> Broken()
    {
      hide Fold, Observe, Settled, Live, Books, Sound, Captured, OwnedBy, Tokens, Flushing, Unflushed, Table.Address;
      OwnedInstall(world.held - {before}, tables, buffers[..], slot, b);
      TokensNext(buffers[..], nextToken - 1, slot, b);
      assert world.held - {before} + {before} == world.held;
      Install(slot, b, before);
      ghost var bs := buffers[..];
      ghost var p;
      var r;
      r, p := Invalidate();
      s := Result(r);
      assert buffers[..] == bs;
    }

    // What a caller is told who gets no buffer.
    ghost predicate Unobtained(s: Status, hal: Hal)
      requires buffers.Length == Table.SLOTS
      reads this`staged, this`nextToken, buffers
    {
      s == if !staged then InvalidParameter
           else if nextToken == 0xffff_ffff_ffff_ffff || (forall t :: 0 <= t < Table.SLOTS ==> buffers[t].Buffer?) || hal.Exhausted? then InsufficientResources
           else ConfigurationError
    }

    // The memory for a buffer and a free slot to map it in.
    method Obtain(pages: nat, hal: Hal) returns (s: Status, slot: nat, m: Memory)
      requires Valid() && 1 <= pages <= Table.MAX_PAGES
      modifies this`fault, this`bootFault, this`log, this`world, this`nextId
      ensures old(log) <= log && Sound() && bootFault == fault
      ensures s != Success ==> Valid()
      ensures s == Success ==>
                && !fault && staged && !active && Accounts(m.id) && nextId == m.id + 1
                && m.id in world.held && OwnedBy(world.held - {m.id}, tables, buffers[..]) && Tokens(buffers[..], nextToken)
                && slot < Table.SLOTS && buffers[slot] == NoBuffer && Table.Address(m.dma + PAGE, pages)
                && m == Memory(old(nextId), m.dma, (pages + 2) * PAGE) && hal == At(m.dma) && nextToken < 0xffff_ffff_ffff_ffff
      ensures s == Success <==>
                && !fault && staged && Good(hal, pages + 2) && nextToken < 0xffff_ffff_ffff_ffff
                && exists t :: 0 <= t < Table.SLOTS && buffers[t] == NoBuffer
      ensures fault && !old(fault) ==> Broken()
      ensures s != Success && !fault ==> Unobtained(s, hal)
    {
      hide Fold, Observe, Settled, Live, Books, Sound, Captured, Accounts, Grows, OwnedBy, Tokens, Good;
      slot, m := Table.SLOTS, Memory(0, 0, 0);
      ghost var before := nextId;
      s := Ready();
      if s != Success {
        return;
      }
      slot := FreeSlot();
      if slot == Table.SLOTS || nextToken == 0xffff_ffff_ffff_ffff {
        s := InsufficientResources;
        return;
      }
      AccountsLater(before, before);
      ghost var held, bs := world.held, buffers[..];
      HeldOld();
      m, s := AllocateMemory(pages + 2, hal);
      assert buffers[..] == bs && (s == Success ==> held + {m.id} - {m.id} == held);
      assert s == Success ==> Table.Address(m.dma + PAGE, pages);
      AccountsKept(before);
      AccountsLater(before, nextId);
    }

    lemma HeldOld()
      requires Valid() && !fault
      ensures forall id :: id in world.held ==> id < nextId
    {
      hide Fold, Books, OwnedBy, Tokens;
      OwnedOld(world.held, tables, world.exposed, buffers[..], slots, nextId);
    }

    // The session's configuration is in place, as every operation checks first.
    method Ready() returns (s: Status)
      requires Valid()
      modifies this`fault, this`bootFault, this`log, this`world
      ensures Valid() && old(log) <= log && Quieter() && s in {Success, DeviceBusy, InvalidParameter, HardwareError, IoTimeout}
      ensures s == Success ==> !fault && staged && !active && Matches()
      ensures old(fault) ==> s == HardwareError
      ensures !old(fault) && !staged ==> s == InvalidParameter && !fault
      ensures !old(fault) && staged && s != Success ==> s == HardwareError && Broken()
      ensures old(fault) || (old(staged) && s != Success) ==> s != Success && fault
    {
      hide Fold, Observe, Settled, Live, Books, Sound, Captured, Accounts;
      var r := Check();
      s := Result(r);
      if !fault {
        AccountsKept(nextId);
      }
    }

    // Find a buffer by its token.
    method Find(token: nat) returns (slot: nat)
      requires buffers.Length == Table.SLOTS
      ensures slot <= Table.SLOTS && forall t :: 0 <= t < slot ==> !(buffers[t].Buffer? && buffers[t].token == token)
      ensures slot < Table.SLOTS ==> buffers[slot].Buffer? && buffers[slot].token == token
    {
      slot := 0;
      while slot < Table.SLOTS && !(buffers[slot].Buffer? && buffers[slot].token == token)
        invariant slot <= Table.SLOTS && forall t :: 0 <= t < slot ==> !(buffers[t].Buffer? && buffers[t].token == token)
      {
        slot := slot + 1;
      }
    }

    // MmuUnmap, then the invalidation without which nothing may be reused.
    method Withdraw(slot: nat) returns (s: Status)
      requires Valid() && !fault && staged && slot < Table.SLOTS && buffers[slot].Buffer? && buffers[slot].mapped
      modifies this`fault, this`bootFault, this`log, this`world, this`slots, buffers
      ensures Valid() && old(log) <= log
      ensures s == Success ==> !fault && buffers[..] == old(buffers[..])[slot := old(buffers[slot]).(mapped := false)] && slots == old(slots) - {slot}
      ensures s != Success ==> fault && s in {HardwareError, IoTimeout} && Broken()
    {
      hide Fold, Settled, Books, Live, Observe, Captured, Accounts, Sound, OwnedBy, Tokens;
      OwnedRetire(world.held, tables, buffers[..], slot);
      var b := buffers[slot];
      var retired := b.(mapped := false);
      TokensKeep(buffers[..], nextToken, slot, retired);
      ghost var bs := buffers[..];
      Withdrawing(slot, retired);
      s := Unmap(slot, b.memory.id);
      if s != Success {
        return;
      }
      buffers[slot] := retired;
      assert buffers[..] == bs[slot := retired];
      Withdrawn();
    }

    method Unmap(slot: nat, ghost id: Id) returns (s: Status)
      requires Sound() && bootFault == fault && !fault && staged && !active
      modifies this`fault, this`bootFault, this`log, this`world, this`slots
      ensures Sound() && bootFault == fault && old(log) <= log && slots == old(slots) - {slot} && world.held == old(world.held)
      ensures s == Success ==> !fault && world.exposed == old(world.exposed) - {id} && world.concealed == {}
      ensures s != Success ==> fault && s in {HardwareError, IoTimeout} && Broken()
    {
      hide Fold, Settled, Captured;
      Emit(Conceal({id}));
      slots := slots - {slot};
      ghost var p;
      var r;
      r, p := Invalidate();
      s := Result(r);
    }

    lemma Withdrawing(slot: nat, retired: Buffer)
      requires Valid() && !fault && staged && slot < Table.SLOTS && buffers[slot].Buffer? && retired == buffers[slot].(mapped := false)
      ensures Books(world.exposed - {buffers[slot].memory.id}, tables.Ids(), buffers[..][slot := retired], slots - {slot}, nextId)
      ensures activeBuffers == Live(buffers[..][slot := retired]) && !active && Committed()
    {
      hide Fold, Settled, Books, Live;
      LiveUpdate(buffers[..], slot, retired);
      BooksRemove(world.exposed, tables.Ids(), buffers[..], slots, nextId, slot, retired);
    }

    // What the accounts say of registers and ownership while a session is open.
    ghost predicate Committed()
      reads this`staged, this`owner, this`tables, this`expected, this`baseline, this`origin, this`cache
    {
      && staged && owner.File? && tables.Tables? && |baseline| == 3 && |expected| == REGISTERS
      && (forall u :: 0 <= u < 3 ==> |baseline[u]| == REGISTERS)
      && expected[0] == baseline[1][0] && expected[7] == baseline[1][7] && expected[8] == baseline[1][8] && Captured()
    }

    lemma Withdrawn()
      requires Sound() && buffers.Length == Table.SLOTS && Committed() && world.concealed == {} && activeBuffers == Live(buffers[..])
      requires Books(world.exposed, tables.Ids(), buffers[..], slots, nextId)
      ensures Accounts(nextId)
    {
      hide Fold, Settled, Books, Live;
    }

    method Discard(slot: nat)
      requires Valid() && !fault && slot < Table.SLOTS && buffers[slot].Buffer? && !buffers[slot].mapped
      modifies this`log, this`world, this`activeBuffers, buffers
      ensures Valid() && !fault
      ensures buffers[..] == old(buffers[..])[slot := NoBuffer] && activeBuffers == old(activeBuffers) - 1
      ensures log == old(log) + [Free(old(buffers[slot]).memory.id)]
    {
      hide Fold, Observe, Settled, Books, Live, OwnedBy, Tokens;
      var b := buffers[slot];
      OwnedDiscard(world.held, tables, world.exposed, buffers[..], slots, nextId, slot);
      TokensKeep(buffers[..], nextToken, slot, NoBuffer);
      LiveUpdate(buffers[..], slot, NoBuffer);
      BooksRemove(world.exposed, tables.Ids(), buffers[..], slots, nextId, slot, NoBuffer);
      assert world.exposed - {b.memory.id} == world.exposed;
      FreeMemory(b.memory);
      buffers[slot] := NoBuffer;
      activeBuffers := activeBuffers - 1;
      assert buffers[..] == old(buffers[..])[slot := NoBuffer];
    }

    lemma BufferStaged(slot: nat)
      requires Valid() && !fault && slot < Table.SLOTS && buffers[slot].Buffer?
      ensures staged
    {
      hide Fold, Settled, Live;
      assert Held(buffers[..][slot], slot, tables.Ids(), slots, nextId);
    }

    // Retire (release = false) or Free (release = true) the buffer of a token.
    // `intact` says whether its two guard pages still hold the guard word.
    method Retire(token: nat, release: bool, intact: bool) returns (s: Status, slot: nat)
      requires Valid()
      modifies this`fault, this`bootFault, this`log, this`world, this`slots, this`activeBuffers, buffers
      ensures Valid() && old(log) <= log
      ensures s == Success ==>
                && !fault && intact && slot < Table.SLOTS && slot !in slots
                && old(buffers[slot].Buffer? && buffers[slot].token == token)
                && buffers[..] == old(buffers[..])[slot := if release then NoBuffer else old(buffers[slot]).(mapped := false)]
      ensures s == NotFound <==> forall t :: 0 <= t < Table.SLOTS ==> !old(buffers[t].Buffer? && buffers[t].token == token)
      ensures slot <= Table.SLOTS && (s == NotFound <==> slot == Table.SLOTS)
      // What was found is retired or freed, unless it was retired before, or else the
      // fault latch is set.
      ensures slot < Table.SLOTS ==> old(buffers[slot].Buffer? && buffers[slot].token == token)
      ensures s == AlreadyComplete <==> slot < Table.SLOTS && !fault && !release && !old(buffers[slot].mapped)
      ensures s == Success <==> slot < Table.SLOTS && !fault && (release || old(buffers[slot].mapped))
      ensures s == Success && release ==> log != [] && log[|log| - 1] == Free(old(buffers[slot]).memory.id)
      ensures s in {NotFound, AlreadyComplete} ==> buffers[..] == old(buffers[..]) && slots == old(slots)
      ensures slot < Table.SLOTS && !intact ==> fault
      // Guards that do not hold, and a flush that failed, are the only reasons to fault.
      ensures fault && !old(fault) ==> Broken() || (!intact && s == DataError)
      ensures old(fault) && slot < Table.SLOTS ==> s == HardwareError
    {
      hide Fold, Observe, Settled, Live, Books, Sound, Captured, Accounts, OwnedBy, Tokens;
      slot := Find(token);
      if slot == Table.SLOTS {
        return NotFound, slot;
      }
      if !fault {
        BufferStaged(slot);
      }
      s := Ready();
      if s != Success {
        return;
      }
      if !intact {
        s := Quarantine(DataError);
        return;
      }
      if !buffers[slot].mapped && !release {
        return AlreadyComplete, slot;
      }
      s := Remove(slot, release);
    }

    // Out of the table, and then out of memory if asked for.
    method Remove(slot: nat, release: bool) returns (s: Status)
      requires Valid() && !fault && staged && slot < Table.SLOTS && buffers[slot].Buffer? && (release || buffers[slot].mapped)
      modifies this`fault, this`bootFault, this`log, this`world, this`slots, this`activeBuffers, buffers
      ensures Valid() && old(log) <= log && s != NotFound && s != AlreadyComplete
      ensures s == Success <==> !fault
      ensures fault ==> Broken()
      ensures s == Success ==> slot !in slots && buffers[..] == old(buffers[..])[slot := if release then NoBuffer else old(buffers[slot]).(mapped := false)]
      ensures s == Success && release ==> log != [] && log[|log| - 1] == Free(old(buffers[slot]).memory.id)
    {
      hide Fold, Observe, Settled, Live, Books, Sound, Captured, Accounts, OwnedBy, Tokens;
      Unlisted();
      s := Success;
      if buffers[slot].mapped {
        s := Withdraw(slot);
        if s != Success {
          return;
        }
      }
      if release {
        Discard(slot);
      }
    }

    lemma Unlisted()
      requires Valid() && !fault
      ensures forall t :: 0 <= t < Table.SLOTS && !(buffers[t].Buffer? && buffers[t].mapped) ==> t !in slots
    {
      hide Fold, Live, Settled, Books;
      BooksOld(world.exposed, tables.Ids(), buffers[..], slots, nextId);
      assert forall t :: 0 <= t < Table.SLOTS ==> buffers[..][t] == buffers[t];
    }

    method End() returns (s: Status)
      requires Valid() && (fault || staged)
      modifies this`expected, this`staged, this`fault, this`bootFault, this`log, this`world, this`tables, this`slots, this`owner
      ensures Valid() && old(log) <= log
      // Every register of every unit, and the cache control, read back as the
      // session found them.
      ensures s == Success ==> !fault && owner == Nobody && Settled(world.known, baseline, cache) && Settled(origin, baseline, cache)
      ensures s != Success ==> fault || (s == DeviceBusy && unchanged(this))
      ensures s == Success <==> !fault && old(activeBuffers) == 0
      ensures fault && !old(fault) ==> Broken()
      ensures old(activeBuffers) != 0 ==> s == DeviceBusy
      ensures s == Success ==> world.held == world.exposed == {} && tables == NoTables
    {
      hide Fold, Observe, Settled, Books, Live, Sound, Captured, Accounts;
      if activeBuffers != 0 {
        return DeviceBusy;
      }
      if fault {
        s := Result(Drift);
        return;
      }
      Closing();
      var r := MmuEnd(tables.Ids());
      s := Result(r);
      if s != Success {
        return;
      }
      GiveBack();
    }

    // The tables and the trap page are the last to go.
    method GiveBack()
      requires Sound() && buffers.Length == Table.SLOTS && !fault && !bootFault && !active && !staged && tables.Tables?
      requires world.exposed == world.concealed == {} && Books({}, {}, buffers[..], slots, nextId) && activeBuffers == Live(buffers[..])
      requires OwnedBy(world.held, tables, buffers[..]) && MemoryIds(buffers[..]) == {} && nextToken <= 0xffff_ffff_ffff_ffff
      requires Tokens(buffers[..], nextToken)
      modifies this`log, this`world, this`tables, this`owner
      ensures Valid() && old(log) <= log && owner == Nobody && world.known == old(world.known)
      ensures tables == NoTables && world.held == world.exposed == {}
    {
      hide Fold, Observe, Settled, Books, Live, Sound, Captured, Accounts;
      FreePages(tables);
      tables, owner := NoTables, Nobody;
      Closed();
    }

    // What a session without live buffers has to give back.
    lemma Closing()
      requires Valid() && !fault && staged && activeBuffers == 0
      ensures tables.Tables? && world.concealed == {} && world.exposed - tables.Ids() == {} && Captured()
      ensures expected[0] == baseline[OURS][0] && expected[7] == baseline[OURS][7] && expected[8] == baseline[OURS][8]
      ensures Books({}, {}, buffers[..], slots, nextId) && Live(buffers[..]) == 0 && MemoryIds(buffers[..]) == {}
    {
      hide Fold, Settled, Books, Live;
      forall s | 0 <= s < buffers.Length
        ensures buffers[..][s] == NoBuffer
      {
        NoneLive(buffers[..], s);
      }
      OwnedNothing(buffers[..]);
      BooksClose(world.exposed, tables.Ids(), buffers[..], slots, nextId);
    }

    lemma Closed()
      requires Sound() && buffers.Length == Table.SLOTS && !staged && owner == Nobody && tables == NoTables
      requires world.exposed == world.concealed == {} && Books({}, {}, buffers[..], slots, nextId) && activeBuffers == Live(buffers[..])
      ensures Accounts(nextId)
    {
      hide Fold, Settled, Books, Live;
      assert tables.Ids() == {};
    }

    // A bounded DMA window. The consumer's three callbacks and the guard scan
    // may each go either way; a window that was not provably closed leaves the
    // fault latch set.
    method Execute(prepare: bool, transfer: bool, quiesce: bool, intact: bool) returns (s: Status, ghost m: Marks)
      requires Valid()
      modifies this`active, this`fault, this`bootFault, this`faultFlags, this`violation, this`hits, this`misses, this`stalls, this`log, this`world
      ensures Valid() && old(log) <= log
      ensures s == Success <==> !fault && staged && activeBuffers != 0 && prepare && transfer && quiesce && intact
      // Whoever was asked to prepare, and did, is asked to quiesce; in between the
      // window is opened, used and closed.
      ensures !fault && staged && activeBuffers != 0 ==> m.prepared < |log|
      ensures Asked(log, |old(log)|, m) && (m.prepared < |log| && prepare ==> m.quiesced < |log|)
      ensures s == Success ==> !active && InOrder(log, m)
      ensures !prepare ==> active == old(active)
      // What a caller is told, by the first thing that went wrong, and why the latch
      // was set.
      ensures old(fault) ==> s == HardwareError
      ensures !old(fault) && !staged ==> s == InvalidParameter
      ensures !fault && staged && activeBuffers == 0 ==> s == InvalidDeviceState
      ensures m.prepared < |log| && !(prepare && quiesce) ==> s == CallbackFailed
      ensures m.prepared < |log| && prepare && quiesce && !intact && !active ==> s == DataError
      ensures m.prepared < |log| && prepare && quiesce && intact && !transfer && !fault ==> s == CallbackFailed
      ensures fault && !old(fault) ==>
                || (m.prepared < |log| && prepare && (!quiesce || !intact))
                || Troubled(log, |old(log)|, Units(), cache, faultFlags)
    {
      hide Fold, Observe, Settled, Live, Books, Sound, Captured, Accounts, InOrder, Used, Asked, Troubled, Trouble, OwnedBy, Tokens, Broken;
      s := Ready();
      m := Marks(|log|, |log|, |log|, |log|, |log|);
      AskedNothing(log, |old(log)|, m);
      if s != Success {
        if fault && !old(fault) {
          BrokenIs(|old(log)|);
        }
        return;
      }
      if activeBuffers == 0 {
        return InvalidDeviceState, m;
      }
      Call(Prepare);
      AccountsKept(nextId);
      m := Marks(|log| - 1, |log|, |log|, |log|, |log|);
      if !prepare {
        AskedPrepare(log, |old(log)|, m);
        return CallbackFailed, m;
      }
      ghost var p := |log| - 1;
      s, m := Run(transfer, quiesce, intact);
      TroubledWhole(p + 1, |old(log)|);
      AskedWhole(log, |old(log)|, m, p);
      m := m.(prepared := p);
    }

    lemma TroubledWhole(from: nat, earlier: nat)
      requires Sound() && earlier <= from
      ensures Troubled(log, from, Units(), cache, faultFlags) ==> Troubled(log, earlier, Units(), cache, faultFlags)
    {
      hide Fold, Troubled;
      if Troubled(log, from, Units(), cache, faultFlags) {
        TroubledEarlier(log, from, earlier, Units(), cache, faultFlags);
      }
    }

    lemma BrokenIs(from: nat)
      requires Sound() && Broken() && from <= |log|
      ensures Troubled(log, from, Units(), cache, faultFlags)
    {
      hide Fold;
      TroubleIs(log, log, from, Units(), cache, faultFlags);
    }

    // The window, and the guards afterwards.
    method Run(transfer: bool, quiesce: bool, intact: bool) returns (s: Status, ghost m: Marks)
      requires Valid() && !fault && staged && !active
      modifies this`active, this`fault, this`bootFault, this`faultFlags, this`violation, this`hits, this`misses, this`stalls, this`log, this`world
      ensures Valid() && old(log) <= log && |old(log)| <= m.quiesced < |log| && log[m.quiesced] == Called(Quiesce)
      ensures s == Success <==> !fault && transfer && quiesce && intact
      ensures s == Success ==> !active && Used(log, |old(log)|, m)
      ensures !quiesce ==> s == CallbackFailed
      ensures quiesce && !intact && !active ==> s == DataError
      ensures quiesce && intact && !transfer && !fault ==> s == CallbackFailed
      ensures fault ==> !quiesce || !intact || Troubled(log, |old(log)|, Units(), cache, faultFlags)
    {
      hide Fold, Observe, Settled, Live, Books, Sound, Captured, Accounts, Used, Troubled, Trouble;
      s, m := Window(transfer, quiesce);
      if !quiesce {
        s := Quarantine(CallbackFailed);
      }
      if !active && quiesce && !intact {
        s := Quarantine(DataError);
      }
      if !fault {
        AccountsKept(nextId);
      }
    }

    // Activation, the transfer, deactivation.
    method Window(transfer: bool, quiesce: bool) returns (s: Status, ghost m: Marks)
      requires Sound() && staged && !active && !fault && bootFault == fault
      modifies this`active, this`fault, this`bootFault, this`faultFlags, this`violation, this`hits, this`misses, this`stalls, this`log, this`world
      ensures Sound() && old(log) <= log && Quieter() && |old(log)| <= m.quiesced < |log| && log[m.quiesced] == Called(Quiesce)
      ensures s == Success <==> !fault && transfer
      ensures s == Success ==> !active && quiesce && world.concealed == {} && Used(log, |old(log)|, m)
      ensures bootFault == fault && (active ==> fault) && (!fault ==> quiesce && world.concealed == {})
      ensures !fault && !transfer ==> s == CallbackFailed
      ensures fault ==> !quiesce || Troubled(log, |old(log)|, Units(), cache, faultFlags)
    {
      hide Fold, Observe, Settled, Live, Books, Sound, Captured, Used, Troubled, Trouble, Shut, Unclosed;
      s := Use(transfer);
      // Quiesce is asked for even after a failed activation.
      ghost var at, mid, broke := |log|, log, fault;
      Call(Quiesce);
      assert log == mid + [Called(Quiesce)];
      var r;
      ghost var off;
      r, off := MmuDeactivate(quiesce);
      if r != Ok {
        if !broke && quiesce {
          UnclosedIs(r, |old(log)|);
        }
        s := Result(r);
      }
      m := Marks(0, if at >= 4 then at - 4 else 0, if at >= 1 then at - 1 else 0, at, off);
      QuiesceStands(mid, log);
      if broke {
        TroubleIs(log, mid, |old(log)|, Units(), cache, faultFlags);
      }
      if s == Success {
        WasOpened(mid, log, |old(log)|, m);
      }
    }

    lemma UnclosedIs(r: Code, from: nat)
      requires Sound() && fault && Unclosed(r) && from < |log| && log[|log| - 1] == Latch
      ensures Troubled(log, from, Units(), cache, faultFlags)
    {
      hide Fold;
      TroubleIs(log, log, from, Units(), cache, faultFlags);
    }

    // Activation, and the transfer if it succeeds.
    method Use(transfer: bool) returns (s: Status)
      requires Sound() && staged && !active && !fault && bootFault == fault
      modifies this`active, this`fault, this`bootFault, this`log, this`world
      ensures Sound() && old(log) <= log && Quieter() && bootFault == fault
      ensures if fault then s != Success else active && (s == Success <==> transfer)
      ensures !fault && !transfer ==> s == CallbackFailed
      ensures fault ==> forall flags :: Trouble(log, Units(), cache, flags)
      ensures !fault ==> |log| >= |old(log)| + 5 && log[|log| - 5..] == Starts(cache) + [Called(Transfer)]
    {
      hide Fold, Observe, Settled, Live, Books, Captured;
      var r := MmuActivate();
      s := Result(r);
      if s == Success {
        ghost var mid := log;
        Call(Transfer);
        assert log[|log| - 5..] == mid[|mid| - 4..] + [Called(Transfer)];
        s := if transfer then Success else CallbackFailed;
      }
    }

    // EvtFileCleanup of the owning file: free every buffer, end the session,
    // and latch the fault if either fails.
    method Cleanup(file: nat, intact: bool)
      requires Valid()
      modifies this`expected, this`staged, this`fault, this`bootFault, this`log, this`world, this`tables, this`slots, this`owner, this`activeBuffers, buffers
      ensures Valid() && old(log) <= log
      ensures owner != File(file) && (old(owner) != File(file) ==> unchanged(this))
      ensures old(owner) == File(file) && !fault ==> Settled(world.known, baseline, cache) && Settled(origin, baseline, cache) && world.held == {}
      ensures fault && !old(fault) ==> Broken() || !intact
    {
      hide Fold, Observe, Settled, Live, Books, Sound, Captured, Accounts;
      if owner != File(file) {
        return;
      }
      FreeAll(intact);
      if !bootFault {
        OwnerStaged();
        var s := End();
        if s != Success && !bootFault {
          // With every buffer freed, an end that fails has set the latch itself.
          assert false;
        }
      }
      owner := Nobody;
    }

    lemma OwnerStaged()
      requires Valid() && !fault && owner.File?
      ensures staged
    {
    }

    method FreeAll(intact: bool)
      requires Valid()
      modifies this`fault, this`bootFault, this`log, this`world, this`slots, this`activeBuffers, buffers
      ensures Valid() && old(log) <= log
      ensures !fault ==> activeBuffers == 0
      ensures fault && !old(fault) ==> Broken() || !intact
    {
      hide Fold, Observe, Settled, Live, Books, Sound, Captured, Accounts, OwnedBy, Tokens;
      var i := 0;
      while i < Table.SLOTS && !bootFault
        invariant Valid() && old(log) <= log && i <= Table.SLOTS
        invariant !fault ==> forall k :: 0 <= k < i ==> buffers[k] == NoBuffer
        invariant fault && !old(fault) ==> Broken() || !intact
        invariant old(fault) ==> fault
      {
        if buffers[i].Buffer? {
          ghost var bs, token := buffers[..], buffers[i].token;
          label Before:
          var s, slot := Retire(buffers[i].token, true, intact);
          assert old@Before(buffers[i].Buffer? && buffers[i].token == token);
          if s != Success {
            break;
          }
          TokensTell(bs, nextToken, i, slot);
        }
        i := i + 1;
      }
      if !fault {
        NoBuffersLeft();
      }
    }

    lemma NoBuffersLeft()
      requires Valid() && !fault && forall k :: 0 <= k < Table.SLOTS ==> buffers[k] == NoBuffer
      ensures activeBuffers == 0
    {
      hide Fold, Observe, Settled, Live, Books, Captured, OwnedBy, Tokens;
      assert forall k :: 0 <= k < Table.SLOTS ==> buffers[..][k] == buffers[k];
      LiveNone(buffers[..]);
    }

    // D0Exit with a session open.
    method PowerDown()
      requires Valid()
      modifies this`fault, this`bootFault, this`log, this`world
      ensures Valid() && old(log) <= log
      ensures owner != Nobody || staged ==> fault
      ensures owner == Nobody && !staged ==> log == old(log) && fault == old(fault)
    {
      if owner != Nobody || staged {
        var s := Quarantine(DeviceBusy);
      }
    }

    // Whatever this driver has done so far: memory it freed was out of the
    // hardware's reach, only unit 1 and the cache were ever written, and after
    // the latch no register was written and no memory freed.
    lemma HistoryIsSafe(k: nat, m: nat, id: Id)
      requires Valid() && m < k < |log|
      ensures log[k] == Free(id) && Exposure(log, id, m) ==> exists p :: Evidence(log, id, m, k, p)
      ensures log[k].Write? ==> log[k].unit in {OURS, CACHE}
      ensures log[m] == Latch ==> fault && !log[k].Write? && !log[k].Free? && !log[k].Expose?
      // It freed nothing twice, and let nobody transfer unless unit 1 translated.
      ensures log[k] == Free(id) ==> exists a: nat :: HeldSince(log[..k], a, id)
      ensures log[k] == Called(Transfer) ==> exists r: nat :: ReadLast(log[..k], r, OURS, 0, 0x04090803)
    {
      if log[k] == Free(id) {
        FreedOnce(log, k, id);
      }
      if log[k] == Called(Transfer) {
        TransferTranslates(log, k);
      }
      if log[k] == Free(id) && Exposure(log, id, m) {
        FreedIsOutOfReach(log, k, m, id);
      }
      if log[k].Write? {
        OnlyOurUnits(log, k);
      }
      if log[m] == Latch {
        SilentAfterFault(log, m, k);
        FaultSticks(log, m);
      }
    }
  }
}
