// A V3D memory session (pi5-v3d/driver.c): first-fit placement, creation,
// import and destruction of buffer objects, bounded CPU transfers, GPU jobs,
// and the cached verdict of the guard scan. Register polls may time out.
module V3dSession {
  import opened PageEntry
  import opened V3dObjects
  import opened V3dBooks

  const MAX_BYTES: nat := 0x4000000
  const OWN_TOTAL: nat := 0x10000000
  const IMPORT_MAX: nat := 0x10000000
  const IMPORT_TOTAL: nat := 0x20000000
  const TRANSFER_MAX: nat := 65536
  const SERIAL_MAX: nat := 0xffffffff

  datatype Status = Success | InvalidParameter | InsufficientResources | ConfigurationError | DataError | HardwareError | Overflow

  // How the polls of one operation end, and what the HAL does with a request
  // for `pages` payload pages.
  datatype Polls = Polls(drained: bool, flushed: bool, invalidated: bool)
  datatype Hal = Exhausted | Misaligned | At(base: nat)

  const FENCE_MAX: nat := 0xffffffffffffffff

  // PI5_V3D_SUBMIT_CL: a render list, and a bin list with its scratch memory.
  datatype CommandLists = CommandLists(renderStart: nat, renderEnd: nat, binStart: nat, binEnd: nat,
                                       tile: nat, tileBytes: nat, state: nat, stateBytes: nat)

  const TILE_BYTES: nat := 16384

  predicate Ranged(objs: seq<Object>, address: nat, bytes: int, writable: bool) {
    0 < bytes && exists i :: 0 <= i < |objs| && InRange(objs[i], address, bytes, writable)
  }

  predicate Accepted(objs: seq<Object>, l: CommandLists) {
    && Ranged(objs, l.renderStart, l.renderEnd - l.renderStart, false)
    && if l.binStart != l.binEnd then
         && Ranged(objs, l.binStart, l.binEnd - l.binStart, false)
         && l.tile % PAGE == 0 && l.tileBytes % PAGE == 0 && l.state % PAGE == 0 && l.stateBytes % PAGE == 0
         && TILE_BYTES <= l.tileBytes && PAGE <= l.stateBytes
         && Ranged(objs, l.tile, l.tileBytes, true) && Ranged(objs, l.state, l.stateBytes, true)
       else l.binStart == l.tile == l.tileBytes == l.state == l.stateBytes == 0
  }

  class Session {
    const session: seq<Buffer>
    const objects: array<Object>
    const table: array<nat>
    var ram: Ram
    var serial: nat
    var objectBytes: nat
    var importedBytes: nat
    var submitted: nat
    var completed: nat
    var guardsClean: bool
    var guardFailures: nat
    var scratchWrites: nat
    var bootFault: bool
    // The GPU has run, since the last full scan, with a frame exposed that the
    // scan looks at; or, ever, with one of the page table.
    ghost var spoiled: bool
    ghost var forged: bool

    ghost predicate Sane()
      reads this, objects, table
    {
      && objects.Length == LIMIT && table.Length == TABLE_PAGES
      && Books(session, objects[..], table[..], serial, bootFault, forged)
      && Memory(ram)
      && objectBytes == OwnBytes(objects[..]) <= OWN_TOTAL
      && importedBytes == ImportedBytes(objects[..]) <= IMPORT_TOTAL
      && serial <= SERIAL_MAX
      && completed <= submitted <= FENCE_MAX
      // The cached bit promises what the scan it skips would find.
      && (guardsClean ==> guardFailures == 0 && scratchWrites == 0)
    }

    ghost predicate Kept()
      reads this, objects, table
    {
      Sane() && (guardsClean && !spoiled && !bootFault ==> Clean())
    }

    // Between operations no job is outstanding, unless the GPU was given up.
    ghost predicate Valid()
      reads this, objects, table
    {
      Kept() && (!bootFault ==> completed == submitted)
    }

    ghost predicate Clean()
      requires objects.Length == LIMIT
      reads this`ram, objects
    {
      Intact(ram, Buffers(session, objects[..]))
    }

    // Will the next check of the guards succeed?
    ghost predicate Passes()
      requires objects.Length == LIMIT
      reads this`guardsClean, this`guardFailures, this`scratchWrites, this`ram, objects
    {
      guardsClean || (guardFailures == 0 && scratchWrites == 0 && Clean())
    }

    // ----- the start of a session -----

    // MemoryBegin: eight buffers from the HAL, and an empty page table. Handles
    // go on counting from the sessions before.
    constructor (buffers: seq<Buffer>, memory: Ram, lastSerial: nat, fences: nat)
      requires Begun(buffers) && Disjoint(buffers) && Memory(memory) && lastSerial <= SERIAL_MAX && fences <= FENCE_MAX
      ensures Valid() && !bootFault && !guardsClean && !spoiled && !forged && session == buffers && serial == lastSerial
      ensures ram == memory && guardFailures == scratchWrites == importedBytes == 0 && submitted == completed == fences
      ensures forall i :: 0 <= i < LIMIT ==> objects[i] == NoObject
      ensures fresh(objects) && fresh(table)
      ensures forall va, write, f :: !Reaches(table[..], va, write, f)
    {
      session := buffers;
      objects := new Object[LIMIT](_ => NoObject);
      table := new nat[TABLE_PAGES](_ => 0);
      ram := memory;
      serial, submitted, completed := lastSerial, fences, fences;
      objectBytes, importedBytes, guardFailures, scratchWrites := 0, 0, 0, 0;
      guardsClean, bootFault, spoiled, forged := false, false, false, false;
      new;
      ZeroInvalid();
      BooksBegin(session, objects[..], table[..], serial);
      NoBytes(objects[..]);
    }

    // ----- GPU jobs -----

    // What the GPU can write.
    ghost function All(): World
      reads this`ram, table
    {
      World(ram, table[..])
    }

    // The GPU runs: a permitted write lands in the frame its entry names; any
    // other is recorded as a fault and may land in the trap page instead.
    method GpuRun(writes: seq<GpuWrite>) returns (faults: bool)
      requires Sane()
      modifies this`ram, this`spoiled, this`forged, table
      ensures Sane() && All() == GpuRuns(session, old(All()), writes)
      ensures faults <==> Faults(session, old(All()), writes)
      ensures spoiled <==> old(spoiled || forged) || Exposed(session, objects[..])
      ensures forged <==> old(forged) || Rewritable(session, objects[..])
      ensures old(guardsClean && !spoiled ==> Clean()) && !faults ==> (guardsClean && !spoiled ==> Clean())
      ensures !forged ==> table[..] == old(table[..]) && OthersKept(session, objects[..], old(ram), ram)
    {
      hide Books, Intact, Exposed, Rewritable, OthersKept, GpuStep, GpuRuns, Faults, Permitted, Memory;
      ghost var start := All();
      Expose();
      assert All() == start;
      NoRuns(start, writes[..0]);
      NothingChanged();
      faults := false;
      for k := 0 to |writes|
        invariant Sane() && (Rewritable(session, objects[..]) ==> forged) && (spoiled <==> old(spoiled || forged) || Exposed(session, objects[..]))
        invariant (forged <==> old(forged) || Rewritable(session, objects[..])) && (forged ==> spoiled)
        invariant All() == GpuRuns(session, start, writes[..k]) && (faults <==> Faults(session, start, writes[..k]))
        invariant old(guardsClean && !spoiled ==> Clean()) && !faults ==> (guardsClean && !spoiled ==> Clean())
        invariant !forged ==> table[..] == old(table[..]) && OthersKept(session, objects[..], old(ram), ram)
      {
        RunsSnoc(session, start, writes, k);
        if !Permitted(table[..], writes[k].va) {
          faults := true;
        }
        OneStep(writes[k], old(ram));
      }
      assert writes[..|writes|] == writes;
    }

    ghost method Expose()
      requires Sane()
      modifies this`spoiled, this`forged
      ensures Sane() && (spoiled <==> old(spoiled || forged) || Exposed(session, objects[..]))
      ensures (forged <==> old(forged) || Rewritable(session, objects[..])) && (forged ==> spoiled)
    {
      hide Books, Intact, Memory, Writable;
      spoiled := spoiled || forged || Exposed(session, objects[..]);
      forged := forged || Rewritable(session, objects[..]);
      BooksForged(session, objects[..], table[..], serial, bootFault, old(forged), table[..]);
      assert Rewritable(session, objects[..]) ==> Exposed(session, objects[..]);
    }

    lemma NoRuns(m: World, ws: seq<GpuWrite>)
      requires ws == []
      ensures GpuRuns(session, m, ws) == m && !Faults(session, m, ws)
    {
    }

    lemma NothingChanged()
      requires Sane()
      ensures OthersKept(session, objects[..], ram, ram)
    {
    }

    method OneStep(w: GpuWrite, ghost first: Ram)
      requires Sane() && (Rewritable(session, objects[..]) ==> forged)
      modifies this`ram, table
      ensures Sane() && All() == GpuStep(session, old(All()), w)
      ensures !forged && !Exposed(session, objects[..]) && Permitted(old(table[..]), w.va) && old(Clean()) ==> Clean()
      ensures !forged ==> table[..] == old(table[..])
      ensures !forged && OthersKept(session, objects[..], first, old(ram)) ==> OthersKept(session, objects[..], first, ram)
    {
      hide Books, Intact, Exposed, Rewritable, Landed, Memory, Writable;
      StepKeeps(session, objects[..], serial, bootFault, forged, All(), w);
      TrapFrame();
      if Permitted(table[..], w.va) {
        Land(Frame(table[w.va / PAGE]), w.Word(), w.value);
      } else if w.trapped {
        Land(session[TRAP].base + 1, w.Word(), w.value);
      }
    }

    method Land(f: nat, word: nat, value: nat)
      requires Sane()
      modifies this`ram, table
      ensures All() == Landed(session, old(All()), f, word, value)
    {
      hide Books, Intact, Memory;
      TrapFrame();
      if TableFrame(session, f) {
        var p := (f - session[TABLE].base - 1) * WORDS + word;
        if p < table.Length {
          table[p] := value;
        }
      } else if f in ram && word < |ram[f]| {
        var page: seq<nat> := ram[f][word := value];
        ram := ram[f := page];
      }
    }

    lemma TrapFrame()
      requires Sane()
      ensures |session| == SESSION && session[TRAP].Buffer? && session[TRAP].base + 1 < FRAMES
    {
      assert Buffers(session, objects[..])[TRAP] == session[TRAP];
    }

    // What both kinds of job start with: the job becomes outstanding.
    method Launch(polls: Polls) returns (s: Status)
      requires Valid() && !bootFault && submitted < FENCE_MAX
      modifies this`submitted, this`guardsClean, this`guardFailures, this`scratchWrites, this`spoiled, this`bootFault
      ensures Kept() && (s == DataError || s == HardwareError || s == Success)
      ensures s == Success <==> polls.drained && polls.invalidated && old(Passes())
      ensures s == DataError <==> polls.drained && !old(Passes())
      ensures s == Success ==> !bootFault && submitted == completed + 1 && guardsClean
      ensures s != Success ==> Valid() && bootFault
    {
      hide Books, Intact;
      s := DrainAndCheck(polls);
      if s == Success && !polls.invalidated {
        s := Fault(HardwareError);
      }
      if s == Success {
        submitted := submitted + 1;
      }
    }

    // And end with: `good` says that the hardware finished without a fault.
    method Settle(good: bool) returns (s: Status, fence: nat)
      requires Sane() && !bootFault && submitted == completed + 1
      requires good && guardsClean && !spoiled ==> Clean()
      modifies this`completed, this`guardsClean, this`guardFailures, this`scratchWrites, this`spoiled, this`bootFault
      ensures Valid() && (s == DataError || s == HardwareError || s == Success)
      ensures (s == Success <==> !bootFault) && (s == Success ==> good) && (old(guardsClean) && good ==> s == Success)
      ensures s == DataError ==> good
      ensures s == Success ==> fence == completed == submitted && guardsClean && (!spoiled ==> Clean())
      ensures s != Success ==> completed == old(completed)
    {
      hide Books, Intact;
      fence := 0;
      if !good {
        s := Fault(HardwareError);
        return;
      }
      s := Guards();
      if s != Success {
        s := Fault(s);
        return;
      }
      completed := submitted;
      fence := completed;
    }

    // ObjectTfu: `done` says whether the wait for the transfer succeeds. A fence
    // is handed out only for a job that raised no fault and finished, and only
    // after the guards were found, or are known to be, in place.
    method ObjectTfu(writes: seq<GpuWrite>, polls: Polls, done: bool, drained: bool) returns (s: Status, fence: nat)
      requires Valid() && !bootFault
      modifies this`ram, this`submitted, this`completed, this`guardsClean, this`guardFailures, this`scratchWrites, this`spoiled, this`forged, this`bootFault, table
      ensures Valid() && completed >= old(completed)
      ensures s == Overflow <==> old(submitted) == FENCE_MAX
      ensures s == Overflow || s == Success <==> !bootFault
      ensures s == Success <==>
                && old(submitted) < FENCE_MAX && polls.drained && polls.invalidated && old(Passes())
                && !Faults(session, old(All()), writes) && done && drained
      ensures s == DataError <==> old(submitted) < FENCE_MAX && polls.drained && !old(Passes())
      ensures s in {Success, Overflow, DataError, HardwareError}
      ensures s == Success ==>
                && fence == completed == old(completed) + 1
                && All() == GpuRuns(session, old(All()), writes)
                && guardsClean && (!spoiled ==> Clean())
      ensures s != Success ==> completed == old(completed)
    {
      hide Books, Intact;
      fence := 0;
      if submitted == FENCE_MAX {
        return Overflow, fence;
      }
      s := Launch(polls);
      if s != Success {
        return;
      }
      var faults := GpuRun(writes);
      s, fence := Settle(done && drained && !faults);
    }

    // ObjectSubmit: an optional binning pass, then rendering. A fault of the
    // first pass may go unnoticed until the check after the second.
    method ObjectSubmit(list: CommandLists, bins: seq<GpuWrite>, renders: seq<GpuWrite>, polls: Polls,
                        binned: bool, rendered: bool, drained: bool)
      returns (s: Status, fence: nat)
      requires Valid() && !bootFault
      modifies this`ram, this`submitted, this`completed, this`guardsClean, this`guardFailures, this`scratchWrites, this`spoiled, this`forged, this`bootFault, table
      ensures Valid() && completed >= old(completed)
      ensures s == InvalidParameter <==> !old(Accepted(objects[..], list))
      ensures s == InvalidParameter || s == Overflow || s == Success <==> !bootFault
      ensures s == Overflow <==> old(Accepted(objects[..], list)) && old(submitted) == FENCE_MAX
      ensures s == DataError <==> old(Accepted(objects[..], list)) && old(submitted) < FENCE_MAX && polls.drained && !old(Passes())
      ensures s in {Success, InvalidParameter, Overflow, DataError, HardwareError}
      ensures s == Success <==>
                var bin := list.binStart != list.binEnd;
                && old(Accepted(objects[..], list)) && old(submitted) < FENCE_MAX && polls.drained && polls.invalidated && old(Passes())
                && (bin ==> binned) && rendered && drained
                && !Faults(session, old(All()), if bin then bins + renders else renders)
      ensures s == Success ==>
                && fence == completed == old(completed) + 1
                && All() == GpuRuns(session, old(All()), if list.binStart != list.binEnd then bins + renders else renders)
                && guardsClean && (!spoiled ==> Clean())
      ensures s != Success ==> completed == old(completed)
    {
      hide Books, Intact;
      fence := 0;
      var bin := list.binStart != list.binEnd;
      var ok := CheckLists(list);
      if !ok {
        return InvalidParameter, fence;
      }
      if submitted == FENCE_MAX {
        return Overflow, fence;
      }
      s := Launch(polls);
      if s != Success {
        return;
      }
      var hung, faults := RunLists(bin, bins, renders, binned);
      if hung {
        s := Fault(HardwareError);
        return;
      }
      s, fence := Settle(rendered && drained && !faults);
    }

    method RunLists(bin: bool, bins: seq<GpuWrite>, renders: seq<GpuWrite>, binned: bool) returns (hung: bool, faults: bool)
      requires Kept() && !bootFault
      modifies this`ram, this`spoiled, this`forged, table
      ensures Sane() && (hung <==> bin && !binned) && (!hung && !faults && guardsClean && !spoiled ==> Clean())
      ensures !hung ==>
                var ran := if bin then bins + renders else renders;
                (faults <==> Faults(session, old(All()), ran)) && All() == GpuRuns(session, old(All()), ran)
    {
      hide Books, Intact, Memory, Exposed, Rewritable, OthersKept, GpuRuns, Faults;
      ghost var start := All();
      hung, faults := false, false;
      if bin {
        faults := GpuRun(bins);
        if !binned {
          return true, faults;
        }
        RunsJoin(session, start, bins, renders);
      }
      var more := GpuRun(renders);
      faults := faults || more;
    }

    // ObjectRange.
    method ObjectRange(address: nat, bytes: int, writable: bool) returns (found: bool)
      requires objects.Length == LIMIT
      ensures found <==> Ranged(objects[..], address, bytes, writable)
    {
      if bytes <= 0 {
        return false;
      }
      for i := 0 to LIMIT
        invariant forall k :: 0 <= k < i ==> !InRange(objects[k], address, bytes, writable)
      {
        var o := objects[i];
        if o.Object? && o.writable == writable && address >= o.address && address - o.address < o.Bytes() && bytes <= o.Bytes() - (address - o.address) {
          assert InRange(objects[..][i], address, bytes, writable);
          return true;
        }
      }
      found := false;
    }

    method CheckLists(l: CommandLists) returns (ok: bool)
      requires objects.Length == LIMIT
      ensures ok <==> Accepted(objects[..], l)
    {
      if l.renderEnd <= l.renderStart {
        return false;
      }
      ok := ObjectRange(l.renderStart, l.renderEnd - l.renderStart, false);
      if !ok {
        return;
      }
      if l.binStart != l.binEnd {
        if l.binEnd <= l.binStart {
          return false;
        }
        ok := ObjectRange(l.binStart, l.binEnd - l.binStart, false);
        if !ok {
          return;
        }
        if l.tile % PAGE != 0 || l.tileBytes % PAGE != 0 || l.state % PAGE != 0 || l.stateBytes % PAGE != 0 || l.tileBytes < TILE_BYTES || l.stateBytes < PAGE {
          return false;
        }
        ok := ObjectRange(l.tile, l.tileBytes, true);
        if !ok {
          return;
        }
        ok := ObjectRange(l.state, l.stateBytes, true);
      } else {
        ok := l.binStart == 0 && l.tile == 0 && l.tileBytes == 0 && l.state == 0 && l.stateBytes == 0;
      }
    }

    // QUERY: the scan is forced, and the answer is about memory as it now is.
    method Query() returns (s: Status)
      requires Valid() && !bootFault
      modifies this`guardsClean, this`guardFailures, this`scratchWrites, this`spoiled, this`bootFault
      ensures Valid()
      ensures s == Success <==> old(guardFailures == 0 && scratchWrites == 0) && Clean()
      ensures bootFault <==> s != Success
      // What the cached bit would have answered is what the scan finds.
      ensures old(guardsClean && !spoiled) ==> s == Success
    {
      hide Books, Intact;
      guardsClean := false;
      s := Guards();
      if s != Success {
        s := Fault(s);
      }
    }

    // End: `idle` says that the GPU drains, resets and lets go of its table. The
    // scan is forced; after it every common buffer goes back to the HAL, once.
    method End(idle: bool) returns (s: Status, freed: seq<Buffer>)
      requires Valid()
      modifies this`guardsClean, this`guardFailures, this`scratchWrites, this`spoiled, this`bootFault, this`objectBytes, this`importedBytes, objects
      ensures s == Success <==> !old(bootFault) && idle && old(guardFailures == 0 && scratchWrites == 0) && old(Clean())
      ensures s == Success ==> (forall i :: 0 <= i < LIMIT ==> objects[i] == NoObject) && objectBytes == importedBytes == 0
      ensures s == Success ==> forall b: Buffer :: b.Buffer? ==> multiset(freed)[b] == if b in Buffers(session, old(objects[..])) then 1 else 0
      ensures s != Success ==> Valid() && bootFault && freed == [] && objects[..] == old(objects[..])
      ensures s == if old(bootFault) || !idle then HardwareError
                   else if old(guardFailures == 0 && scratchWrites == 0) && old(Clean()) then Success
                   else DataError
      ensures !guardsClean || s != Success
    {
      hide Books, Intact;
      freed := [];
      guardsClean := false;
      if bootFault {
        return HardwareError, freed;
      }
      if !idle {
        s := Fault(HardwareError);
        return;
      }
      s := Guards();
      if s != Success {
        s := Fault(s);
        return;
      }
      AllApart();
      FreedOnce(session, objects[..]);
      freed := FreeAll();
      objectBytes, importedBytes, guardsClean := 0, 0, false;
    }

    lemma AllApart()
      requires Valid()
      ensures |objects[..]| == LIMIT && Disjoint(Buffers(session, objects[..]))
    {
    }

    // FreeBuffer for every slot, then for the session's own, last first.
    method FreeAll() returns (freed: seq<Buffer>)
      requires objects.Length == LIMIT
      modifies objects
      ensures freed == Handed(FreeOrder(session, old(objects[..]))) && forall i :: 0 <= i < LIMIT ==> objects[i] == NoObject
    {
      ghost var order := FreeOrder(session, objects[..]);
      freed := [];
      for i := 0 to LIMIT
        invariant freed == Handed(order[..i])
        invariant forall k :: 0 <= k < i ==> objects[k] == NoObject
        invariant forall k :: i <= k < LIMIT ==> objects[k] == old(objects[k])
      {
        HandedSnoc(order, i);
        if BufferOf(objects[i]).Buffer? {
          freed := freed + [BufferOf(objects[i])];
        }
        objects[i] := NoObject;
      }
      for i := 0 to |session|
        invariant freed == Handed(order[..LIMIT + i])
        invariant forall k :: 0 <= k < LIMIT ==> objects[k] == NoObject
      {
        HandedSnoc(order, LIMIT + i);
        var b := session[|session| - 1 - i];
        if b.Buffer? {
          freed := freed + [b];
        }
      }
      assert order[..LIMIT + |session|] == order;
    }

    // ----- placement -----

    // ObjectPlacement: a free object slot and the least address that fits; it
    // fails exactly when the serials or the slots are used up, or nothing fits.
    method ObjectPlacement(size: nat) returns (s: Status, slot: nat, address: nat)
      requires Valid() && 0 < size && size % PAGE == 0
      ensures s == Success || s == InsufficientResources
      ensures s == Success ==>
                && slot < LIMIT && objects[slot] == NoObject && (forall i :: 0 <= i < slot ==> objects[i].Object?) && serial < SERIAL_MAX
                && Fits(objects[..], size, address) && address % PAGE == 0
                && forall a :: LOWEST <= a < address ==> !Fits(objects[..], size, a)
      ensures s == InsufficientResources <==>
                || serial == SERIAL_MAX
                || (forall i :: 0 <= i < LIMIT ==> objects[i].Object?)
                || (forall a :: !Fits(objects[..], size, a))
    {
      slot, address := 0, LOWEST;
      if serial == SERIAL_MAX {
        return InsufficientResources, slot, address;
      }
      while slot < LIMIT && objects[slot].Object?
        invariant slot <= LIMIT && forall i :: 0 <= i < slot ==> objects[i].Object?
      {
        slot := slot + 1;
      }
      if slot == LIMIT {
        return InsufficientResources, slot, address;
      }
      ghost var objs := objects[..];
      var overlap := true;
      while overlap
        invariant LOWEST <= address && address % PAGE == 0
        invariant forall a :: LOWEST <= a < address ==> !Fits(objs, size, a)
        invariant !overlap ==> Fits(objs, size, address)
        decreases HIGHEST + PAGE - address, overlap
      {
        if address + size + PAGE > HIGHEST {
          assert forall a :: Fits(objs, size, a) ==> a < address;
          return InsufficientResources, slot, address;
        }
        var i;
        overlap, i := FirstOverlap(size, address);
        if overlap {
          Passed(objs, size, address, i);
          address := objects[i].End() + 2 * PAGE;
        }
      }
      s := Success;
    }

    // Every address up to just past a conflicting object conflicts with it too.
    lemma Passed(objs: seq<Object>, size: nat, address: nat, i: nat)
      requires i < |objs| && objs[i].Object? && !Misses(objs[i], address, size)
      ensures forall a :: address <= a < objs[i].End() + 2 * PAGE ==> !Fits(objs, size, a)
    {
      forall a | address <= a < objs[i].End() + 2 * PAGE
        ensures !Fits(objs, size, a)
      {
        assert !Misses(objs[i], a, size);
      }
    }

    method FirstOverlap(size: nat, address: nat) returns (overlap: bool, i: nat)
      requires objects.Length == LIMIT
      ensures overlap ==> i < LIMIT && objects[i].Object? && !Misses(objects[i], address, size)
      ensures !overlap ==> forall k :: 0 <= k < LIMIT ==> Misses(objects[k], address, size)
    {
      i := 0;
      while i < LIMIT
        invariant i <= LIMIT && forall k :: 0 <= k < i ==> Misses(objects[k], address, size)
      {
        if objects[i].Object? && address - PAGE < objects[i].End() + PAGE && address + size + PAGE > objects[i].address - PAGE {
          return true, i;
        }
        i := i + 1;
      }
      overlap := false;
    }

    // ----- guards -----

    method Fault(status: Status) returns (s: Status)
      requires Sane() && status != Success
      modifies this`bootFault
      ensures Valid() && bootFault && s == status
    {
      hide Books;
      if !bootFault {
        BooksFault(session, objects[..], table[..], serial, forged);
      }
      bootFault := true;
      s := status;
    }

    // Words of a frame that differ from `word`.
    method CountBad(f: nat, word: nat) returns (bad: nat)
      requires f in ram && |ram[f]| == WORDS
      ensures bad == 0 <==> ram[f] == Page(word)
    {
      bad := 0;
      for j := 0 to WORDS
        invariant bad == 0 <==> forall k :: 0 <= k < j ==> ram[f][k] == word
      {
        if ram[f][j] != word {
          bad := bad + 1;
        }
      }
      if bad != 0 {
        assert exists k :: 0 <= k < WORDS && ram[f][k] != Page(word)[k];
      }
    }

    // Both guard frames of one buffer.
    method ScanBuffer(b: Buffer) returns (bad: nat)
      requires Memory(ram) && (b.Buffer? ==> b.Last() < FRAMES)
      ensures bad == 0 <==> b.Buffer? ==> ram[b.base] == Page(GUARD) && ram[b.Last()] == Page(GUARD)
    {
      bad := 0;
      if b.Buffer? {
        var front := CountBad(b.base, GUARD);
        var back := CountBad(b.Last(), GUARD);
        bad := front + back;
      }
    }

    ghost predicate Whole(b: Buffer)
      reads this`ram
    {
      b.Buffer? ==> b.base in ram && b.Last() in ram && ram[b.base] == Page(GUARD) && ram[b.Last()] == Page(GUARD)
    }

    // The full scan: the eight session buffers, the trap page, every object.
    method Scan() returns (bad: nat, scratch: nat)
      requires Sane()
      ensures bad == 0 && scratch == 0 <==> Clean()
    {
      ghost var bs := Buffers(session, objects[..]);
      bad, scratch := 0, 0;
      for i := 0 to SESSION
        invariant bad == 0 <==> forall k :: 0 <= k < i ==> Whole(bs[k])
      {
        assert bs[i] == session[i];
        var found := ScanBuffer(session[i]);
        bad := bad + found;
      }
      assert bs[TRAP] == session[TRAP];
      scratch := CountBad(session[TRAP].base + 1, 0);
      for i := 0 to LIMIT
        invariant bad == 0 <==> forall k :: 0 <= k < SESSION + i ==> Whole(bs[k])
      {
        assert bs[SESSION + i] == BufferOf(objects[i]);
        var found := ScanBuffer(BufferOf(objects[i]));
        bad := bad + found;
      }
      CleanMeans(bs);
    }

    lemma CleanMeans(bs: seq<Buffer>)
      requires Sane() && bs == Buffers(session, objects[..])
      ensures session[TRAP].base + 1 in ram
      ensures Clean() <==> (forall k :: 0 <= k < |bs| ==> Whole(bs[k])) && ram[session[TRAP].base + 1] == Page(0)
    {
      assert bs[TRAP] == session[TRAP];
      if Clean() {
        forall k | 0 <= k < |bs|
          ensures Whole(bs[k])
        {
          if bs[k].Buffer? {
            assert Protects(bs, k, bs[k].base) && Protects(bs, k, bs[k].Last());
          }
        }
        assert Protects(bs, TRAP, bs[TRAP].base + 1);
      }
      if (forall k :: 0 <= k < |bs| ==> Whole(bs[k])) && ram[session[TRAP].base + 1] == Page(0) {
        forall i, f | 0 <= i < |bs| && Protects(bs, i, f)
          ensures f in ram && ram[f] == (if bs[i].Guards(f) then Page(GUARD) else Page(0))
        {
          assert Whole(bs[i]);
        }
      }
    }

    // Guards: whether or not the cached bit lets it skip the scan, the verdict
    // is the one the scan would give.
    method Guards() returns (s: Status)
      requires Kept() && !bootFault
      modifies this`guardsClean, this`guardFailures, this`scratchWrites, this`spoiled
      ensures Kept() && (s == Success || s == DataError)
      ensures !old(spoiled && guardsClean) ==> (s == Success <==> old(guardFailures == 0 && scratchWrites == 0) && Clean())
      ensures s == Success ==> guardsClean && spoiled == (old(spoiled) && old(guardsClean))
      ensures old(guardsClean) ==> s == Success
    {
      hide Books, Intact;
      if guardsClean {
        return Success;
      }
      var bad, scratch := Scan();
      guardFailures := guardFailures + bad;
      scratchWrites := scratchWrites + scratch;
      if guardFailures != 0 || scratchWrites != 0 {
        return DataError;
      }
      guardsClean, spoiled := true, false;
      s := Success;
    }

    // Drain and check, as every operation on an object starts.
    method DrainAndCheck(polls: Polls) returns (s: Status)
      requires Kept() && !bootFault
      modifies this`guardsClean, this`guardFailures, this`scratchWrites, this`spoiled, this`bootFault
      ensures Kept() && (s == Success || s == DataError || s == HardwareError)
      ensures (s == Success <==> !bootFault) && (s == Success <==> polls.drained && old(Passes()))
      ensures (s == HardwareError <==> !polls.drained) && (s == DataError <==> polls.drained && !old(Passes()))
      ensures s == Success ==> guardsClean && (!spoiled ==> Clean())
    {
      hide Books, Intact;
      if !polls.drained {
        s := Fault(HardwareError);
        return;
      }
      s := Guards();
      if s != Success {
        s := Fault(s);
      }
    }

    // ----- objects -----

    // Write `count` entries from page `first` on.
    method MapPages(o: Object)
      requires objects.Length == LIMIT && table.Length == TABLE_PAGES
      requires o.Object? && o.address % PAGE == 0 && o.End() <= TABLE_PAGES * PAGE
      modifies table
      ensures forall p :: 0 <= p < TABLE_PAGES ==> table[p] == if Covers(o, p) then PteOf(o, p) else old(table[p])
    {
      var first := o.address / PAGE;
      for k := 0 to |o.frames|
        invariant forall p :: 0 <= p < TABLE_PAGES ==> table[p] == if first <= p < first + k then PteOf(o, p) else old(table[p])
      {
        table[first + k] := Make(o.frames[k], o.writable);
      }
    }

    method ClearPages(o: Object)
      requires objects.Length == LIMIT && table.Length == TABLE_PAGES
      requires o.Object? && o.address % PAGE == 0 && o.End() <= TABLE_PAGES * PAGE
      modifies table
      ensures forall p :: 0 <= p < TABLE_PAGES ==> table[p] == if Covers(o, p) then 0 else old(table[p])
    {
      var first := o.address / PAGE;
      for k := 0 to |o.frames|
        invariant forall p :: 0 <= p < TABLE_PAGES ==> table[p] == if first <= p < first + k then 0 else old(table[p])
      {
        table[first + k] := 0;
      }
    }

    // Allocate's initialisation: guard words around a zeroed payload.
    method Fill(b: Buffer)
      requires Memory(ram) && b.Buffer? && b.Last() < FRAMES
      modifies this`ram
      ensures Memory(ram)
      ensures forall f :: f in old(ram) && !b.Contains(f) ==> f in ram && ram[f] == old(ram)[f]
      ensures forall f :: b.Contains(f) ==> f in ram && ram[f] == if b.Guards(f) then Page(GUARD) else Page(0)
    {
      for k := 0 to b.pages + 2
        invariant Memory(ram)
        invariant forall f :: f in old(ram) && !(b.base <= f < b.base + k) ==> f in ram && ram[f] == old(ram)[f]
        invariant forall f :: b.base <= f < b.base + k ==> f in ram && ram[f] == if b.Guards(f) then Page(GUARD) else Page(0)
      {
        ram := ram[b.base + k := if k == 0 || k == b.pages + 1 then Page(GUARD) else Page(0)];
      }
    }

    // Guards of old buffers survive the filling of a fresh one, whose own are
    // then in place as well.
    lemma FilledClean(before: Ram, after: Ram, objs: seq<Object>, slot: nat, o: Object)
      requires |session| == SESSION && slot < |objs| && objs[slot] == NoObject && o.Object? && o.own
      requires Intact(before, Buffers(session, objs)) && Unused(session, objs, BufferOf(o))
      requires forall f :: f in before && !BufferOf(o).Contains(f) ==> f in after && after[f] == before[f]
      requires forall f :: BufferOf(o).Contains(f) ==> f in after && after[f] == if BufferOf(o).Guards(f) then Page(GUARD) else Page(0)
      ensures Intact(after, Buffers(session, objs[slot := o]))
    {
      var bs, cs := Buffers(session, objs), Buffers(session, objs[slot := o]);
      BuffersUpdate(session, objs, slot, o);
      forall i, f | 0 <= i < |cs| && Protects(cs, i, f)
        ensures f in after && after[f] == (if cs[i].Guards(f) then Page(GUARD) else Page(0))
      {
        if i != SESSION + slot {
          assert Protects(bs, i, f);
        }
      }
    }

    // The totals, the handles, the slots and the address space have room for it.
    ghost predicate Placeable(size: nat, room: int)
      requires objects.Length == LIMIT
      reads this`serial, objects
    {
      && size <= room && serial < SERIAL_MAX
      && (exists i :: 0 <= i < LIMIT && objects[i] == NoObject) && exists a :: Fits(objects[..], size, a)
    }

    // ObjectCreate. A buffer handed out is placed, zeroed, guarded, mapped page
    // by page and counted; nothing else in the session changes.
    method ObjectCreate(size: nat, writable: bool, hal: Hal, polls: Polls) returns (s: Status, slot: nat)
      requires Valid() && !bootFault
      requires hal.At? && size % PAGE == 0 ==> Unused(session, objects[..], Buffer(hal.base, size / PAGE))
      modifies this`ram, this`serial, this`objectBytes, this`guardsClean, this`guardFailures, this`scratchWrites, this`spoiled, this`bootFault, objects, table
      ensures Valid()
      ensures s == InvalidParameter <==> size == 0 || size > MAX_BYTES || size % PAGE != 0
      ensures s in {InsufficientResources, DataError, HardwareError, ConfigurationError, Success, InvalidParameter}
      ensures s != InvalidParameter ==>
                var room := old(Placeable(size, OWN_TOTAL - objectBytes));
                && (s == InsufficientResources <==> !room || (polls.drained && old(Passes()) && hal.Exhausted?))
                && (s == DataError <==> room && polls.drained && !old(Passes()))
                && (s == ConfigurationError <==> room && polls.drained && old(Passes()) && hal.Misaligned?)
                && (s == Success <==> room && polls.drained && old(Passes()) && hal.At? && polls.flushed)
      // The new buffer stands between its guards; all other memory is as it was.
      ensures s == Success ==>
                forall f :: 0 <= f < FRAMES ==>
                  && f in ram && f in old(ram)
                  && ram[f] == if !Buffer(hal.base, size / PAGE).Contains(f) then old(ram)[f]
                               else if Buffer(hal.base, size / PAGE).Guards(f) then Page(GUARD) else Page(0)
      ensures s == Success && old(Clean()) ==> Clean()
      ensures s == Success ==>
                && !bootFault && slot < LIMIT && old(objects[slot]) == NoObject
                && serial == old(serial) + 1
                && (var o := objects[slot];
                    && o.Object? && o.own && o.writable == writable && o.handle == serial && o.Bytes() == size
                    && BufferOf(o) == Buffer(hal.base, size / PAGE)
                    && objects[..] == old(objects[..])[slot := o]
                    && Fits(old(objects[..]), size, o.address)
                    && (forall a :: LOWEST <= a < o.address ==> !Fits(old(objects[..]), size, a))
                    && (forall k :: 0 <= k < |o.frames| ==> o.frames[k] in ram && ram[o.frames[k]] == Page(0)))
      ensures s != Success && !bootFault ==> objects[..] == old(objects[..]) && table[..] == old(table[..]) && serial == old(serial)
    {
      hide Books, Intact, Fits, Unused;
      slot := LIMIT;
      if size == 0 || size > MAX_BYTES || size % PAGE != 0 {
        return InvalidParameter, slot;
      }
      if size > OWN_TOTAL - objectBytes {
        return InsufficientResources, slot;
      }
      var address;
      s, slot, address := ObjectPlacement(size);
      if s != Success {
        return;
      }
      s := DrainAndCheck(polls);
      if s != Success {
        return;
      }
      guardsClean := false;
      if hal.Exhausted? {
        return InsufficientResources, slot;
      }
      if hal.Misaligned? {
        return ConfigurationError, slot;
      }
      var buffer := Buffer(hal.base, size / PAGE);
      var o := Object(serial + 1, address, writable, true, hal.base, FramesOf(buffer));
      Create(slot, o, buffer);
      if !polls.flushed {
        s := Fault(HardwareError);
      }
    }

    method Create(slot: nat, o: Object, b: Buffer)
      requires Valid() && !bootFault && !guardsClean && slot < LIMIT && objects[slot] == NoObject && serial < SERIAL_MAX
      requires o.Object? && o.own && o.handle == serial + 1 && b == BufferOf(o) && o.frames == FramesOf(b) && 0 < b.pages
      requires o.address % PAGE == 0 && Fits(objects[..], o.Bytes(), o.address) && Unused(session, objects[..], b)
      requires objectBytes + o.Bytes() <= OWN_TOTAL
      modifies this`ram, this`serial, this`objectBytes, objects, table
      ensures Valid() && serial == old(serial) + 1 && objects[..] == old(objects[..])[slot := o]
      ensures old(Clean()) ==> Clean()
      ensures forall k :: 0 <= k < |o.frames| ==> o.frames[k] in ram && ram[o.frames[k]] == Page(0)
      ensures forall f :: 0 <= f < FRAMES ==>
                && f in ram && f in old(ram)
                && ram[f] == if !b.Contains(f) then old(ram)[f] else if b.Guards(f) then Page(GUARD) else Page(0)
    {
      hide Books, Intact, Misses, PteOf;
      ghost var objs, entries, before := objects[..], table[..], ram;
      Fill(b);
      BytesUpdate(objs, slot, o);
      if Intact(before, Buffers(session, objs)) {
        BegunIs();
        FilledClean(before, ram, objs, slot, o);
      }
      serial := serial + 1;
      objects[slot] := o;
      objectBytes := objectBytes + o.Bytes();
      MapPages(o);
      assert objects[..] == objs[slot := o];
      BooksInstall(session, objs, entries, serial - 1, forged, slot, o, table[..]);
    }

    lemma BegunIs()
      requires Valid()
      ensures Begun(session)
    {
    }

    // ObjectImport: the frames of a locked memory descriptor list.
    method ObjectImport(frames: seq<nat>, writable: bool, polls: Polls) returns (s: Status, slot: nat)
      requires Valid() && !bootFault
      modifies this`serial, this`importedBytes, this`guardsClean, this`guardFailures, this`scratchWrites, this`spoiled, this`bootFault, objects, table
      ensures Valid() && ram == old(ram)
      ensures s in {InsufficientResources, DataError, HardwareError, Success, InvalidParameter}
      ensures s == InvalidParameter <==>
                || |frames| == 0 || |frames| * PAGE > IMPORT_MAX
                || (|frames| * PAGE <= IMPORT_TOTAL - old(importedBytes) && exists k :: 0 <= k < |frames| && frames[k] >= FRAMES)
      ensures s != InvalidParameter ==>
                var room := old(Placeable(|frames| * PAGE, IMPORT_TOTAL - importedBytes));
                && (s == InsufficientResources <==> !room)
                && (s == DataError <==> room && polls.drained && !old(Passes()))
                && (s == Success <==> room && polls.drained && old(Passes()) && polls.flushed)
      ensures s == Success ==>
                && !bootFault && guardsClean && slot < LIMIT && old(objects[slot]) == NoObject
                && serial == old(serial) + 1
                && (var o := objects[slot];
                    && o.Object? && !o.own && o.writable == writable && o.handle == serial && o.frames == frames
                    && objects[..] == old(objects[..])[slot := o]
                    && Fits(old(objects[..]), |frames| * PAGE, o.address)
                    && forall a :: LOWEST <= a < o.address ==> !Fits(old(objects[..]), |frames| * PAGE, a))
      ensures s != Success && !bootFault ==> objects[..] == old(objects[..]) && table[..] == old(table[..]) && serial == old(serial)
    {
      hide Books, Intact, Fits;
      slot := LIMIT;
      var size := |frames| * PAGE;
      if size == 0 || size > IMPORT_MAX {
        return InvalidParameter, slot;
      }
      if size > IMPORT_TOTAL - importedBytes {
        return InsufficientResources, slot;
      }
      for k := 0 to |frames|
        invariant forall j :: 0 <= j < k ==> frames[j] < FRAMES
      {
        if frames[k] >= FRAMES {
          return InvalidParameter, slot;
        }
      }
      var address;
      s, slot, address := ObjectPlacement(size);
      if s != Success {
        return;
      }
      s := DrainAndCheck(polls);
      if s != Success {
        return;
      }
      var o := Object(serial + 1, address, writable, false, 0, frames);
      Import(slot, o);
      if !polls.flushed {
        s := Fault(HardwareError);
      }
    }

    method Import(slot: nat, o: Object)
      requires Valid() && !bootFault && slot < LIMIT && objects[slot] == NoObject && serial < SERIAL_MAX
      requires o.Object? && !o.own && o.handle == serial + 1 && 0 < |o.frames|
      requires o.address % PAGE == 0 && Fits(objects[..], o.Bytes(), o.address)
      requires forall k :: 0 <= k < |o.frames| ==> o.frames[k] < FRAMES
      requires importedBytes + o.Bytes() <= IMPORT_TOTAL
      modifies this`serial, this`importedBytes, objects, table
      ensures Valid() && serial == old(serial) + 1 && objects[..] == old(objects[..])[slot := o]
    {
      hide Books, Intact, Misses, PteOf;
      ghost var objs, entries := objects[..], table[..];
      BytesUpdate(objs, slot, o);
      BuffersUpdate(session, objs, slot, o);
      BegunIs();
      assert Buffers(session, objs)[SESSION + slot] == NoBuffer;
      assert Buffers(session, objs[slot := o]) == Buffers(session, objs);
      serial := serial + 1;
      objects[slot] := o;
      importedBytes := importedBytes + o.Bytes();
      MapPages(o);
      assert objects[..] == objs[slot := o];
      BooksInstall(session, objs, entries, serial - 1, forged, slot, o, table[..]);
    }

    // Object: the slot of a live handle, or LIMIT.
    method Find(handle: nat) returns (slot: nat)
      requires objects.Length == LIMIT
      ensures slot <= LIMIT
      ensures slot < LIMIT ==> handle != 0 && objects[slot].Object? && objects[slot].handle == handle
      ensures slot == LIMIT ==> forall i :: 0 <= i < LIMIT && objects[i].Object? && objects[i].handle == handle ==> handle == 0
    {
      slot := 0;
      if handle == 0 {
        return LIMIT;
      }
      while slot < LIMIT && !(objects[slot].Object? && objects[slot].handle == handle)
        invariant slot <= LIMIT && forall i :: 0 <= i < slot ==> !(objects[i].Object? && objects[i].handle == handle)
      {
        slot := slot + 1;
      }
    }

    // ObjectDestroy. A failed flush leaves the object listed but unmapped, and
    // the session faulted: its memory is not given back.
    method ObjectDestroy(handle: nat, polls: Polls) returns (s: Status, slot: nat, freed: Buffer)
      requires Valid() && !bootFault
      modifies this`objectBytes, this`importedBytes, this`guardsClean, this`guardFailures, this`scratchWrites, this`spoiled, this`bootFault, objects, table
      ensures Valid() && ram == old(ram) && serial == old(serial)
      ensures s == Success ==>
                && !bootFault && slot < LIMIT && old(objects[slot].Object? && objects[slot].handle == handle)
                && objects[..] == old(objects[..])[slot := NoObject]
                && !guardsClean
      ensures s == InvalidParameter <==> slot == LIMIT
      ensures slot == LIMIT <==> handle == 0 || forall i :: 0 <= i < LIMIT ==> !old(objects[i].Object? && objects[i].handle == handle)
      ensures slot <= LIMIT && freed == if s == Success then old(BufferOf(objects[slot])) else NoBuffer
      ensures slot < LIMIT ==>
                && (s == DataError <==> polls.drained && !old(Passes()))
                && (s == Success <==> polls.drained && old(Passes()) && polls.flushed && polls.invalidated)
                && s in {Success, DataError, HardwareError} && (s != Success ==> bootFault)
      ensures s != Success ==> objects[..] == old(objects[..]) && (bootFault || table[..] == old(table[..]))
    {
      hide Books, Intact;
      freed := NoBuffer;
      slot := Find(handle);
      if slot == LIMIT {
        return InvalidParameter, slot, NoBuffer;
      }
      s := DrainAndCheck(polls);
      if s != Success {
        return;
      }
      var o := objects[slot];
      s := Withdraw(slot, polls.flushed && polls.invalidated);
      if s == Success {
        guardsClean := false;
        freed := BufferOf(o);
      }
    }

    method Withdraw(slot: nat, flushed: bool) returns (s: Status)
      requires Valid() && !bootFault && slot < LIMIT && objects[slot].Object?
      modifies this`objectBytes, this`importedBytes, this`bootFault, this`guardsClean, objects, table
      ensures Valid()
      ensures flushed ==> s == Success && !bootFault && !guardsClean && objects[..] == old(objects[..])[slot := NoObject]
      ensures !flushed ==> s == HardwareError && bootFault && objects[..] == old(objects[..])
    {
      hide Books, Intact, PteOf;
      ghost var objs, entries := objects[..], table[..];
      var o := objects[slot];
      Located(slot);
      BytesUpdate(objs, slot, NoObject);
      ClearPages(o);
      BooksClear(session, objs, entries, serial, forged, slot, table[..]);
      if !flushed {
        bootFault := true;
        return HardwareError;
      }
      if o.own {
        objectBytes := objectBytes - o.Bytes();
      } else {
        importedBytes := importedBytes - o.Bytes();
      }
      guardsClean := false;
      objects[slot] := NoObject;
      assert objects[..] == objs[slot := NoObject];
      s := Success;
    }

    lemma Located(slot: nat)
      requires Valid() && slot < LIMIT && objects[slot].Object?
      ensures objects[slot].address % PAGE == 0 && objects[slot].End() <= TABLE_PAGES * PAGE
      ensures forall k :: 0 <= k < |objects[slot].frames| ==> objects[slot].frames[k] < FRAMES
    {
    }

    // ----- CPU transfers -----

    // Word w of an object's payload.
    ghost function Word(o: Object, w: nat): nat
      requires Holds(ram, o) && w < |o.frames| * WORDS
      reads this`ram
    {
      WordIn(ram, o, w)
    }

    predicate Transferable(o: Object, offset: nat, bytes: nat) {
      && o.Object? && o.own && 0 < bytes <= TRANSFER_MAX
      && offset % 4 == 0 && bytes % 4 == 0 && offset <= o.Bytes() && bytes <= o.Bytes() - offset
    }

    // ObjectTransfer, reading: exactly the words asked for.
    method ReadWords(handle: nat, offset: nat, bytes: nat, polls: Polls) returns (s: Status, slot: nat, words: seq<nat>)
      requires Valid() && !bootFault
      modifies this`guardsClean, this`guardFailures, this`scratchWrites, this`spoiled, this`bootFault
      ensures Valid() && ram == old(ram)
      ensures s == InvalidParameter <==> slot >= LIMIT || !Transferable(objects[slot], offset, bytes)
      ensures s == InvalidParameter ==> !bootFault
      ensures s != InvalidParameter ==> s == if !polls.drained then HardwareError else if old(Passes()) then Success else DataError
      ensures slot == LIMIT <==> handle == 0 || forall i :: 0 <= i < LIMIT ==> !(objects[i].Object? && objects[i].handle == handle)
      ensures s == Success ==>
                && slot < LIMIT && objects[slot].Object? && objects[slot].handle == handle && |words| == bytes / 4
                && Holds(ram, objects[slot])
                && forall w :: 0 <= w < bytes / 4 ==> words[w] == Word(objects[slot], offset / 4 + w)
    {
      hide Books, Intact;
      words := [];
      slot := Find(handle);
      if slot == LIMIT || !Transferable(objects[slot], offset, bytes) {
        return InvalidParameter, slot, words;
      }
      s := DrainAndCheck(polls);
      if s != Success {
        return;
      }
      var o := objects[slot];
      Located(slot);
      for w := 0 to bytes / 4
        invariant |words| == w
        invariant forall v :: 0 <= v < w ==> words[v] == Word(o, offset / 4 + v)
      {
        var at := offset / 4 + w;
        assert at / WORDS < |o.frames|;
        words := words + [ram[o.frames[at / WORDS]][at % WORDS]];
      }
    }

    // One word of an own object's payload.
    method PutWord(slot: nat, at: nat, value: nat)
      requires Valid() && !bootFault && slot < LIMIT && objects[slot].Object? && objects[slot].own && at < |objects[slot].frames| * WORDS
      modifies this`ram
      ensures Valid()
      ensures var o := objects[slot];
              && Holds(old(ram), o) && Holds(ram, o)
              && (forall w :: 0 <= w < |o.frames| * WORDS ==> Word(o, w) == if w == at then value else old(Word(o, w)))
              && (forall f :: 0 <= f < FRAMES && f !in o.frames ==> f in ram && f in old(ram) && ram[f] == old(ram[f]))
    {
      hide Books, Intact;
      var f := objects[slot].frames[at / WORDS];
      Located(slot);
      ghost var before := ram;
      ram := ram[f := Stored(ram[f], at % WORDS, value)];
      if guardsClean && !spoiled {
        PayloadKeepsClean(slot, at / WORDS, before);
      }
      Distinct(slot);
      PutMeans(before, objects[slot], at, value);
    }

    lemma PayloadKeepsClean(slot: nat, k: nat, before: Ram)
      requires objects.Length == LIMIT && table.Length == TABLE_PAGES
      requires Books(session, objects[..], table[..], serial, bootFault, forged)
      requires slot < LIMIT && objects[slot].Object? && objects[slot].own && k < |objects[slot].frames|
      requires Intact(before, Buffers(session, objects[..]))
      requires forall f :: f in before && f != objects[slot].frames[k] ==> f in ram && ram[f] == before[f]
      ensures Clean()
    {
      var bs := Buffers(session, objects[..]);
      forall i, f | 0 <= i < |bs| && Protects(bs, i, f)
        ensures f in ram && ram[f] == (if bs[i].Guards(f) then Page(GUARD) else Page(0))
      {
        PayloadUnprotected(session, objects[..], slot, k, i);
      }
    }

    // ObjectTransfer, writing. Afterwards the range holds the words given, every
    // other word of memory is as before, and the guard verdict still stands.
    method WriteWords(handle: nat, offset: nat, words: seq<nat>, polls: Polls) returns (s: Status, slot: nat)
      requires Valid() && !bootFault
      modifies this`ram, this`guardsClean, this`guardFailures, this`scratchWrites, this`spoiled, this`bootFault
      ensures Valid()
      ensures s == InvalidParameter <==> slot >= LIMIT || !Transferable(objects[slot], offset, 4 * |words|)
      ensures s == InvalidParameter ==> !bootFault
      ensures s != InvalidParameter ==> s == if !polls.drained then HardwareError else if old(Passes()) then Success else DataError
      ensures slot == LIMIT <==> handle == 0 || forall i :: 0 <= i < LIMIT ==> !(objects[i].Object? && objects[i].handle == handle)
      ensures s != Success ==> ram == old(ram)
      ensures s == Success ==>
                && slot < LIMIT && objects[slot].Object? && objects[slot].handle == handle
                && Holds(old(ram), objects[slot]) && Holds(ram, objects[slot])
                && (forall w :: 0 <= w < |words| ==> Word(objects[slot], offset / 4 + w) == words[w])
                && (forall w :: 0 <= w < |objects[slot].frames| * WORDS && !(offset / 4 <= w < offset / 4 + |words|) ==>
                      Word(objects[slot], w) == old(Word(objects[slot], w)))
                && (forall f :: 0 <= f < FRAMES && f !in objects[slot].frames ==> f in ram && f in old(ram) && ram[f] == old(ram[f]))
    {
      hide Books, Intact, WordIn;
      slot := Find(handle);
      if slot == LIMIT || !Transferable(objects[slot], offset, 4 * |words|) {
        return InvalidParameter, slot;
      }
      s := DrainAndCheck(polls);
      if s != Success {
        return;
      }
      var o := objects[slot];
      Located(slot);
      var first := offset / 4;
      for i := 0 to |words|
        invariant Valid() && !bootFault
        invariant Holds(ram, o)
        invariant forall w :: first <= w < first + i ==> Word(o, w) == words[w - first]
        invariant forall w :: 0 <= w < |o.frames| * WORDS && !(first <= w < first + i) ==> Word(o, w) == old(Word(o, w))
        invariant forall f :: 0 <= f < FRAMES && f !in o.frames ==> f in ram && f in old(ram) && ram[f] == old(ram[f])
      {
        PutWord(slot, first + i, words[i]);
      }
    }

    lemma Distinct(slot: nat)
      requires Valid() && slot < LIMIT && objects[slot].Object? && objects[slot].own
      ensures forall j, k :: 0 <= j < k < |objects[slot].frames| ==> objects[slot].frames[j] != objects[slot].frames[k]
    {
    }
  }

  // ----- words of an object -----

  ghost predicate Holds(ram: Ram, o: Object) {
    o.Object? && forall k :: 0 <= k < |o.frames| ==> o.frames[k] in ram && |ram[o.frames[k]]| == WORDS
  }

  ghost function WordIn(ram: Ram, o: Object, w: nat): nat
    requires Holds(ram, o) && w < |o.frames| * WORDS
  {
    ram[o.frames[w / WORDS]][w % WORDS]
  }

  function Stored(page: seq<nat>, word: nat, value: nat): seq<nat>
    requires word < |page|
  {
    page[word := value]
  }

  // Different words of one object are different places in memory.
  lemma PutMeans(before: Ram, o: Object, at: nat, value: nat)
    requires Holds(before, o) && at < |o.frames| * WORDS
    requires forall j, k :: 0 <= j < k < |o.frames| ==> o.frames[j] != o.frames[k]
    ensures var f := o.frames[at / WORDS]; var after := before[f := Stored(before[f], at % WORDS, value)];
            && Holds(after, o)
            && (forall w :: 0 <= w < |o.frames| * WORDS ==> WordIn(after, o, w) == if w == at then value else WordIn(before, o, w))
  {
  }

  // The cached verdict can be wrong: a session imports a guard frame of the
  // driver as writable, a job writes through it, and the job gets its fence.
  method GuardDefeated(buffers: seq<Buffer>, memory: Ram) returns (v: Session, fence: nat)
    requires Begun(buffers) && Disjoint(buffers) && Memory(memory) && Intact(memory, buffers)
    ensures fresh(v) && v.Valid() && !v.bootFault && fence == v.completed == 1
    ensures v.guardsClean && !v.Clean()
  {
    hide Intact, Memory, Begun, Disjoint, Misses, Books, GpuRuns, Faults;
    v := new Session(buffers, memory, 0, 0);
    FreshSession(v, memory);
    var good := Polls(true, true, true);
    var f := GuardFrame(buffers);
    var s, slot := v.ObjectImport([f], true, good);
    assert s == Success;
    var address := v.objects[slot].address;
    GuardImported(v, slot, f);
    s, fence := v.ObjectTfu([GpuWrite(address, 1, false)], good, true, true);
  }

  function GuardFrame(buffers: seq<Buffer>): nat
    requires Begun(buffers)
  {
    buffers[TRAP].base
  }

  lemma FreshSession(v: Session, memory: Ram)
    requires v.Sane() && v.ram == memory && Intact(memory, v.session) && forall i :: 0 <= i < LIMIT ==> v.objects[i] == NoObject
    ensures v.Clean() && GuardFrame(v.session) < FRAMES && v.objects[0] == NoObject
    ensures Fits(v.objects[..], PAGE, LOWEST)
  {
    var bs := Buffers(v.session, v.objects[..]);
    forall i, f | 0 <= i < |bs| && Protects(bs, i, f)
      ensures f in memory && memory[f] == (if bs[i].Guards(f) then Page(GUARD) else Page(0))
    {
      assert bs[i] == v.session[i] && Protects(v.session, i, f);
    }
    assert bs[TRAP] == v.session[TRAP];
  }

  lemma GuardImported(v: Session, slot: nat, f: nat)
    requires v.Sane() && !v.bootFault && !v.forged && slot < LIMIT && Begun(v.session) && f == GuardFrame(v.session)
    requires v.objects[slot].Object? && v.objects[slot].writable && v.objects[slot].frames == [f]
    ensures var w := GpuWrite(v.objects[slot].address, 1, false);
            !Faults(v.session, v.All(), [w]) && !Intact(GpuRuns(v.session, v.All(), [w]).ram, Buffers(v.session, v.objects[..]))
  {
    hide Intact, Memory, GpuRuns, Faults, Placed, Numbered, InFrames, Backed, Sound, Complete;
    assert Buffers(v.session, v.objects[..])[TRAP] == v.session[TRAP];
    GuardOverwritten(v.session, v.objects[..], v.table[..], v.serial, v.ram, slot, 0, TRAP);
  }
}
