// The observable life of the IOMMU driver: register traffic, memory handed out
// and taken back, and what the hardware can reach in between.
module IommuTrace {
  type Reg = bv32
  type Id = nat

  // Units 0..2 are the three translation units, unit 3 is the shared cache.
  const CACHE: nat := 3
  const OURS: nat := 1
  const CONTROL: nat := 0

  // What the consumer of a DMA window is asked to do.
  datatype Callback = Prepare | Transfer | Quiesce

  // The control word under which our unit translates.
  const TRANSLATING: Reg := 0x04090803

  datatype Event =
    | Read(unit: nat, offset: nat, value: Reg)
    | Write(unit: nat, offset: nat, value: Reg)
    | Alloc(id: Id)
    | Free(id: Id)
    | Expose(ids: set<Id>)   // the hardware can now reach these buffers
    | Conceal(ids: set<Id>)  // no table entry or register names them any more
    | Called(callback: Callback)
    | Latch                  // the fault latch is set

  // A cache flush or a TLB flush is asked for by a write and confirmed by a
  // later read that shows it no longer pending.
  predicate AsksCache(e: Event) {
    e.Write? && e.unit == CACHE && e.offset == CONTROL && e.value & 2 != 0
  }

  predicate ShowsCache(e: Event) {
    e.Read? && e.unit == CACHE && e.offset == CONTROL && e.value & 4 == 0
  }

  predicate AsksTlb(e: Event) {
    e.Write? && e.unit == OURS && e.offset == CONTROL && e.value & 4 != 0
  }

  predicate ShowsTlb(e: Event) {
    e.Read? && e.unit == OURS && e.offset == CONTROL && e.value & 0x80 == 0
  }

  // How far the flushes that must follow the latest Conceal have come.
  datatype Flush = Flush(cacheAsked: bool, cacheDone: bool, tlbAsked: bool, tlbDone: bool)

  datatype World = World(
    known: map<(nat, nat), Reg>,  // registers read since they were last written
    held: set<Id>,                // memory that was handed out and not yet taken back
    exposed: set<Id>,
    concealed: set<Id>,           // no longer named, but perhaps still cached
    flush: Flush,
    faulted: bool,
    good: bool)                   // no rule below was ever broken

  const Dirty := Flush(false, false, false, false)

  function Origin(): World {
    World(map[], {}, {}, {}, Dirty, false, true)
  }

  // What each event must respect: only memory that is held, and that the hardware
  // cannot reach, is freed, only our own unit and the cache are written, and after
  // a fault nothing is written, freed or exposed any more. The consumer transfers
  // only when our unit was last seen translating.
  predicate Permitted(w: World, e: Event) {
    match e
    case Write(unit, _, _) => !w.faulted && unit in {OURS, CACHE}
    case Alloc(id) => id !in w.held
    case Free(id) => !w.faulted && id in w.held && id !in w.exposed && id !in w.concealed
    case Expose(_) => !w.faulted
    case Called(c) => c == Transfer ==> (OURS, CONTROL) in w.known && w.known[(OURS, CONTROL)] == TRANSLATING
    case _ => true
  }

  function Flushed(f: Flush, e: Event): Flush {
    Flush(
      f.cacheAsked || AsksCache(e), f.cacheDone || (f.cacheAsked && ShowsCache(e)),
      f.tlbAsked || AsksTlb(e), f.tlbDone || (f.tlbAsked && ShowsTlb(e)))
  }

  function Observe(w: World, e: Event): World {
    var flush := Flushed(w.flush, e);
    var v := w.(flush := flush, good := w.good && Permitted(w, e),
                concealed := if flush.cacheDone && flush.tlbDone then {} else w.concealed);
    match e
    case Read(unit, offset, value) => v.(known := w.known[(unit, offset) := value])
    case Write(unit, offset, _) => v.(known := w.known - {(unit, offset)})
    case Expose(ids) => v.(exposed := w.exposed + ids)
    case Conceal(ids) => v.(exposed := w.exposed - ids, concealed := w.concealed + ids * w.exposed, flush := Dirty)
    case Latch => v.(faulted := true)
    case Alloc(id) => v.(held := w.held + {id})
    case Free(id) => v.(held := w.held - {id})
    case Called(_) => v
  }

  function Fold(log: seq<Event>): World {
    if log == [] then Origin() else Observe(Fold(log[..|log| - 1]), log[|log| - 1])
  }

  lemma FoldAppend(log: seq<Event>, e: Event)
    ensures Fold(log + [e]) == Observe(Fold(log), e)
  {
    assert (log + [e])[..|log|] == log;
  }

  // ----- what a good trace means, event by event -----

  lemma {:induction false} GoodEach(log: seq<Event>, k: nat)
    requires Fold(log).good && k < |log|
    ensures Fold(log[..k]).good && Permitted(Fold(log[..k]), log[k])
  {
    if k < |log| - 1 {
      GoodEach(log[..|log| - 1], k);
      assert log[..|log| - 1][..k] == log[..k];
    }
  }

  lemma {:induction false} FaultSticks(log: seq<Event>, k: nat)
    requires k < |log| && log[k] == Latch
    ensures Fold(log).faulted
  {
    if k < |log| - 1 {
      FaultSticks(log[..|log| - 1], k);
    }
  }

  // Once the fault latch is set, no register is written and no memory freed.
  lemma SilentAfterFault(log: seq<Event>, k: nat, m: nat)
    requires Fold(log).good && k < m < |log| && log[k] == Latch
    ensures !log[m].Write? && !log[m].Free? && !log[m].Expose?
  {
    GoodEach(log, m);
    FaultSticks(log[..m], k);
  }

  // Memory was handed out at `a`, and was not freed since.
  predicate HeldSince(log: seq<Event>, a: nat, id: Id) {
    a < |log| && log[a] == Alloc(id) && forall b :: a < b < |log| ==> log[b] != Free(id)
  }

  lemma {:induction false} HeldMeans(log: seq<Event>, id: Id)
    requires id in Fold(log).held
    ensures exists a: nat :: HeldSince(log, a, id)
  {
    var n := |log| - 1;
    var e, front := log[n], log[..n];
    if e != Alloc(id) {
      HeldStep(Fold(front), e, id);
    }
    hide Observe, Fold;
    if e == Alloc(id) {
      assert HeldSince(log, n, id);
    } else {
      HeldMeans(front, id);
      var a: nat :| HeldSince(front, a, id);
      assert forall b :: 0 <= b < n ==> log[b] == front[b];
      assert HeldSince(log, a, id);
    }
  }

  lemma HeldStep(w: World, e: Event, id: Id)
    requires id in Observe(w, e).held && e != Alloc(id)
    ensures id in w.held && e != Free(id)
  {
  }

  // Nothing is freed twice: what is freed was handed out before, and not freed
  // in between.
  lemma FreedOnce(log: seq<Event>, k: nat, id: Id)
    requires Fold(log).good && k < |log| && log[k] == Free(id)
    ensures exists a: nat :: HeldSince(log[..k], a, id)
  {
    GoodEach(log, k);
    HeldMeans(log[..k], id);
  }

  // What is known of a register was read last, and not written since.
  predicate ReadLast(log: seq<Event>, r: nat, unit: nat, offset: nat, value: Reg) {
    && r < |log| && log[r] == Read(unit, offset, value)
    && forall b :: r < b < |log| ==> !(log[b].Write? && log[b].unit == unit && log[b].offset == offset)
  }

  lemma {:induction false} KnownMeans(log: seq<Event>, unit: nat, offset: nat)
    requires (unit, offset) in Fold(log).known
    ensures exists r: nat :: ReadLast(log, r, unit, offset, Fold(log).known[(unit, offset)])
  {
    var n, e := |log| - 1, log[|log| - 1];
    var value := Fold(log).known[(unit, offset)];
    if e == Read(unit, offset, value) {
      assert ReadLast(log, n, unit, offset, value);
    } else {
      KnownStep(Fold(log[..n]), e, unit, offset);
      KnownMeans(log[..n], unit, offset);
      var r: nat :| ReadLast(log[..n], r, unit, offset, value);
      assert log[r] == log[..n][r] && forall b :: r < b < n ==> log[b] == log[..n][b];
      assert ReadLast(log, r, unit, offset, value);
    }
  }

  lemma KnownStep(w: World, e: Event, unit: nat, offset: nat)
    requires (unit, offset) in Observe(w, e).known && e != Read(unit, offset, Observe(w, e).known[(unit, offset)])
    ensures (unit, offset) in w.known && w.known[(unit, offset)] == Observe(w, e).known[(unit, offset)]
    ensures !(e.Write? && e.unit == unit && e.offset == offset)
  {
  }

  // A transfer finds our unit translating: that was read last, and its control
  // register not written since.
  lemma TransferTranslates(log: seq<Event>, k: nat)
    requires Fold(log).good && k < |log| && log[k] == Called(Transfer)
    ensures exists r: nat :: ReadLast(log[..k], r, OURS, CONTROL, 0x04090803)
  {
    GoodEach(log, k);
    KnownMeans(log[..k], OURS, CONTROL);
  }

  lemma OnlyOurUnits(log: seq<Event>, k: nat)
    requires Fold(log).good && k < |log| && log[k].Write?
    ensures log[k].unit == OURS || log[k].unit == CACHE
  {
    GoodEach(log, k);
  }

  // Evidence that what was concealed at c was flushed from both caches before n.
  datatype Proof = Proof(c: nat, askCache: nat, showCache: nat, askTlb: nat, showTlb: nat)

  predicate Evidence(log: seq<Event>, id: Id, m: nat, n: nat, p: Proof) {
    && m < p.c < p.askCache < p.showCache < n <= |log|
    && p.c < p.askTlb < p.showTlb < n
    && log[p.c].Conceal? && id in log[p.c].ids
    && AsksCache(log[p.askCache]) && ShowsCache(log[p.showCache])
    && AsksTlb(log[p.askTlb]) && ShowsTlb(log[p.showTlb])
  }

  predicate Exposure(log: seq<Event>, id: Id, m: nat) {
    m < |log| && log[m].Expose? && id in log[m].ids
  }

  // Where the flushes after the latest Conceal, at c, were asked and shown.
  ghost predicate FlushTrail(log: seq<Event>, c: nat, n: nat, f: Flush) {
    && c < n <= |log|
    && (f.cacheAsked ==> exists a :: c < a < n && AsksCache(log[a]))
    && (f.cacheDone ==> exists a, b :: c < a < b < n && AsksCache(log[a]) && ShowsCache(log[b]))
    && (f.tlbAsked ==> exists a :: c < a < n && AsksTlb(log[a]))
    && (f.tlbDone ==> exists a, b :: c < a < b < n && AsksTlb(log[a]) && ShowsTlb(log[b]))
  }

  lemma TrailGrows(log: seq<Event>, c: nat, n: nat, f: Flush)
    requires n < |log| && FlushTrail(log, c, n, f)
    ensures c < n && FlushTrail(log, c, n + 1, Flushed(f, log[n]))
  {
    var g := Flushed(f, log[n]);
    if g.cacheAsked && !f.cacheAsked {
      assert AsksCache(log[n]);
    }
    if g.tlbAsked && !f.tlbAsked {
      assert AsksTlb(log[n]);
    }
    if g.cacheDone && !f.cacheDone {
      var a :| c < a < n && AsksCache(log[a]);
      assert ShowsCache(log[n]);
    }
    if g.tlbDone && !f.tlbDone {
      var a :| c < a < n && AsksTlb(log[a]);
      assert ShowsTlb(log[n]);
    }
  }

  // Every buffer the hardware was ever given is still reachable, or concealed
  // and not yet flushed, or provably flushed out of both caches.
  ghost predicate Accounted(log: seq<Event>, id: Id, m: nat, n: nat)
    requires n <= |log|
  {
    var w := Fold(log[..n]);
    || id in w.exposed
    || (id in w.concealed && exists c :: ConcealedAt(log, id, m, c) && FlushTrail(log, c, n, w.flush))
    || exists p :: Evidence(log, id, m, n, p)
  }

  predicate ConcealedAt(log: seq<Event>, id: Id, m: nat, c: nat) {
    m < c < |log| && log[c].Conceal? && id in log[c].ids
  }

  lemma FlushProof(log: seq<Event>, id: Id, m: nat, c: nat, n: nat, f: Flush)
    requires ConcealedAt(log, id, m, c) && FlushTrail(log, c, n, f) && f.cacheDone && f.tlbDone
    ensures exists p :: Evidence(log, id, m, n, p)
  {
    var a, b :| c < a < b < n && AsksCache(log[a]) && ShowsCache(log[b]);
    var d, e :| c < d < e < n && AsksTlb(log[d]) && ShowsTlb(log[e]);
    assert Evidence(log, id, m, n, Proof(c, a, b, d, e));
  }

  lemma FoldStep(log: seq<Event>, n: nat)
    requires n < |log|
    ensures Fold(log[..n + 1]) == Observe(Fold(log[..n]), log[n])
  {
    assert log[..n + 1][..n] == log[..n];
  }

  lemma {:induction false} StaysAccounted(log: seq<Event>, id: Id, m: nat, n: nat)
    requires Exposure(log, id, m) && m < n <= |log|
    ensures Accounted(log, id, m, n)
  {
    FoldStep(log, n - 1);
    if n > m + 1 {
      StaysAccounted(log, id, m, n - 1);
      AccountedStep(log, id, m, n - 1);
    }
  }

  lemma ReachChanges(w: World, e: Event, id: Id)
    ensures Observe(w, e).flush == if e.Conceal? then Dirty else Flushed(w.flush, e)
    ensures id in w.exposed && id !in Observe(w, e).exposed ==> e.Conceal? && id in e.ids && id in Observe(w, e).concealed
    ensures id in w.concealed && id !in Observe(w, e).concealed ==>
              Observe(w, e).flush == Flushed(w.flush, e) && Observe(w, e).flush.cacheDone && Observe(w, e).flush.tlbDone
  {
  }

  lemma AccountedStep(log: seq<Event>, id: Id, m: nat, n: nat)
    requires n < |log| && m < n && Accounted(log, id, m, n)
    ensures Accounted(log, id, m, n + 1)
  {
    hide Fold, Observe, FlushTrail, Evidence;
    FoldStep(log, n);
    var w := Fold(log[..n]);
    ReachChanges(w, log[n], id);
    if exists p :: Evidence(log, id, m, n, p) {
      var p :| Evidence(log, id, m, n, p);
      EvidenceKeeps(log, id, m, n, p);
    } else if id in w.exposed {
      FreshTrail(log, n);
      assert ConcealedAt(log, id, m, n) || id in Fold(log[..n + 1]).exposed;
    } else {
      var c :| ConcealedAt(log, id, m, c) && FlushTrail(log, c, n, w.flush);
      TrailGrows(log, c, n, w.flush);
      DirtyTrail(log, c, n);
      if id !in Fold(log[..n + 1]).concealed {
        FlushProof(log, id, m, c, n + 1, Fold(log[..n + 1]).flush);
      }
    }
  }

  lemma EvidenceKeeps(log: seq<Event>, id: Id, m: nat, n: nat, p: Proof)
    requires n < |log| && Evidence(log, id, m, n, p)
    ensures Evidence(log, id, m, n + 1, p)
  {
  }

  lemma FreshTrail(log: seq<Event>, c: nat)
    requires c < |log|
    ensures FlushTrail(log, c, c + 1, Dirty)
  {
  }

  lemma DirtyTrail(log: seq<Event>, c: nat, n: nat)
    requires c < n < |log|
    ensures FlushTrail(log, c, n + 1, Dirty)
  {
  }

  // Memory is freed only if the hardware never had it, or after each time it
  // was given away its last name was removed and then both the shared cache and
  // the TLB were flushed and shown to be so.
  lemma FreedIsOutOfReach(log: seq<Event>, k: nat, m: nat, id: Id)
    requires Fold(log).good && k < |log| && log[k] == Free(id) && m < k && Exposure(log, id, m)
    ensures exists p :: Evidence(log, id, m, k, p)
  {
    GoodEach(log, k);
    StaysAccounted(log, id, m, k);
  }
}
