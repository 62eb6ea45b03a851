// What every operation of a memory session keeps, on values: placement, page
// table, frames and handles of all objects together.
module V3dBooks {
  import opened PageEntry
  import opened V3dObjects

  const WORDS: nat := 1024
  const GUARD: nat := 0xbadc0ffe

  // Handles are nonzero, never reused and unique.
  ghost predicate Numbered(objects: seq<Object>, serial: nat) {
    && (forall i :: 0 <= i < |objects| && objects[i].Object? ==> 0 < objects[i].handle <= serial)
    && (forall i, j :: 0 <= i < j < |objects| && objects[i].Object? && objects[j].Object? ==> objects[i].handle != objects[j].handle)
  }

  ghost predicate Begun(session: seq<Buffer>) {
    && |session| == SESSION
    && (forall i :: 0 <= i < SESSION ==> session[i].Buffer?)
    && session[TRAP].pages == 1 && session[TABLE].pages * WORDS == TABLE_PAGES
  }

  // `forged` records that the GPU got to write the page table itself; until then
  // the table stands for the live objects.
  ghost predicate Books(session: seq<Buffer>, objects: seq<Object>, table: seq<nat>, serial: nat, faulted: bool, forged: bool) {
    && Begun(session) && |objects| == LIMIT && |table| == TABLE_PAGES
    && Placed(objects) && InFrames(objects) && Backed(objects) && Numbered(objects, serial)
    && Disjoint(Buffers(session, objects))
    && (!forged ==> Sound(table, objects))
    && (!forged && !faulted ==> Complete(table, objects))
  }

  // The HAL hands out no frame twice. An import may name one of them all the same.
  ghost predicate Unused(session: seq<Buffer>, objects: seq<Object>, b: Buffer) {
    && b.Buffer? && b.Last() < FRAMES
    && (forall i :: 0 <= i < |Buffers(session, objects)| && Buffers(session, objects)[i].Buffer? ==>
          Buffers(session, objects)[i].Last() < b.base || b.Last() < Buffers(session, objects)[i].base)
  }

  lemma BooksBegin(session: seq<Buffer>, objects: seq<Object>, table: seq<nat>, serial: nat)
    requires Begun(session) && |objects| == LIMIT && |table| == TABLE_PAGES
    requires forall i :: 0 <= i < |objects| ==> objects[i] == NoObject
    requires forall p :: 0 <= p < |table| ==> table[p] == 0
    requires Disjoint(session)
    ensures Books(session, objects, table, serial, false, false)
  {
    var bs := Buffers(session, objects);
    assert forall i :: 0 <= i < |bs| && bs[i].Buffer? ==> i < |session| && bs[i] == session[i];
  }

  lemma BuffersUpdate(session: seq<Buffer>, objects: seq<Object>, s: nat, o: Object)
    requires s < |objects|
    ensures Buffers(session, objects[s := o]) == Buffers(session, objects)[|session| + s := BufferOf(o)]
  {
  }

  // A new object, mapped page by page.
  lemma BooksInstall(session: seq<Buffer>, objects: seq<Object>, table: seq<nat>, serial: nat, forged: bool,
                     s: nat, o: Object, after: seq<nat>)
    requires Books(session, objects, table, serial, false, forged)
    requires s < |objects| && objects[s] == NoObject && |after| == |table|
    requires o.Object? && o.handle == serial + 1 && o.address % PAGE == 0 && 0 < |o.frames| && Fits(objects, o.Bytes(), o.address)
    requires forall k :: 0 <= k < |o.frames| ==> o.frames[k] < FRAMES
    requires o.own ==> o.frames == FramesOf(BufferOf(o)) && Unused(session, objects, BufferOf(o))
    requires forall p :: 0 <= p < |table| ==> after[p] == if Covers(o, p) then PteOf(o, p) else table[p]
    ensures Books(session, objects[s := o], after, serial + 1, false, forged)
  {
    hide PteOf;
    var objs := objects[s := o];
    PlacedUpdate(objects, s, o);
    if !forged {
      Mapped(table, objects, s, o, after);
    }
    BuffersUpdate(session, objects, s, o);
    assert Buffers(session, objects)[SESSION + s] == NoBuffer;
    assert Numbered(objs, serial + 1);
    assert Backed(objs);
  }

  // Entries cleared, object still listed: what a failed flush leaves behind.
  lemma BooksClear(session: seq<Buffer>, objects: seq<Object>, table: seq<nat>, serial: nat, forged: bool, s: nat, after: seq<nat>)
    requires Books(session, objects, table, serial, false, forged) && s < |objects| && objects[s].Object? && |after| == |table|
    requires forall p :: 0 <= p < |table| ==> after[p] == if Covers(objects[s], p) then 0 else table[p]
    ensures Books(session, objects, after, serial, true, forged)
    ensures Books(session, objects[s := NoObject], after, serial, false, forged)
  {
    hide PteOf;
    PlacedRemove(objects, s);
    if !forged {
      Cleared(table, objects, s, after);
    }
    BuffersUpdate(session, objects, s, NoObject);
  }

  lemma BooksFault(session: seq<Buffer>, objects: seq<Object>, table: seq<nat>, serial: nat, forged: bool)
    requires Books(session, objects, table, serial, false, forged)
    ensures Books(session, objects, table, serial, true, forged)
  {
  }

  lemma BooksForged(session: seq<Buffer>, objects: seq<Object>, table: seq<nat>, serial: nat, faulted: bool, forged: bool, after: seq<nat>)
    requires Books(session, objects, table, serial, faulted, forged) && |after| == |table|
    ensures Books(session, objects, after, serial, faulted, true)
  {
  }

  // ----- giving the buffers back -----

  // The order in which a session's end frees: objects, then the session's own
  // buffers backwards.
  function FreeOrder(session: seq<Buffer>, objects: seq<Object>): (order: seq<Buffer>)
    ensures |order| == |objects| + |session|
  {
    seq(|objects|, i requires 0 <= i < |objects| => BufferOf(objects[i])) +
    seq(|session|, i requires 0 <= i < |session| => session[|session| - 1 - i])
  }

  function Handed(bs: seq<Buffer>): seq<Buffer> {
    if bs == [] then []
    else
      var b := bs[|bs| - 1];
      Handed(bs[..|bs| - 1]) + if b.Buffer? then [b] else []
  }

  lemma HandedSnoc(bs: seq<Buffer>, i: nat)
    requires i < |bs|
    ensures Handed(bs[..i + 1]) == Handed(bs[..i]) + if bs[i].Buffer? then [bs[i]] else []
  {
    assert bs[..i + 1][..i] == bs[..i];
  }

  lemma {:induction false} HandedCount(bs: seq<Buffer>, b: Buffer)
    requires b.Buffer?
    ensures multiset(Handed(bs))[b] == multiset(bs)[b]
  {
    if bs != [] {
      HandedCount(bs[..|bs| - 1], b);
      assert bs == bs[..|bs| - 1] + [bs[|bs| - 1]];
    }
  }

  lemma {:induction false} CountReversed(bs: seq<Buffer>, b: Buffer)
    ensures multiset(seq(|bs|, i requires 0 <= i < |bs| => bs[|bs| - 1 - i]))[b] == multiset(bs)[b]
  {
    var back := seq(|bs|, i requires 0 <= i < |bs| => bs[|bs| - 1 - i]);
    if bs != [] {
      var front := bs[..|bs| - 1];
      CountReversed(front, b);
      assert back == [bs[|bs| - 1]] + seq(|front|, i requires 0 <= i < |front| => front[|front| - 1 - i]);
      assert bs == front + [bs[|bs| - 1]];
    }
  }

  lemma {:induction false} CountOne(bs: seq<Buffer>, i: nat)
    requires i < |bs| && forall j :: 0 <= j < |bs| && j != i ==> bs[j] != bs[i]
    ensures multiset(bs)[bs[i]] == 1
  {
    assert bs == bs[..i] + [bs[i]] + bs[i + 1..];
  }

  // Every buffer goes back exactly once.
  lemma FreedOnce(session: seq<Buffer>, objects: seq<Object>)
    requires Disjoint(Buffers(session, objects))
    ensures forall b: Buffer :: b.Buffer? ==> multiset(Handed(FreeOrder(session, objects)))[b] == if b in Buffers(session, objects) then 1 else 0
  {
    var bs, order := Buffers(session, objects), FreeOrder(session, objects);
    forall b: Buffer | b.Buffer?
      ensures multiset(Handed(order))[b] == if b in bs then 1 else 0
    {
      HandedCount(order, b);
      CountReversed(session, b);
      assert multiset(order)[b] == multiset(bs)[b];
      if b in bs {
        var i :| 0 <= i < |bs| && bs[i] == b;
        CountOne(bs, i);
      }
    }
  }

  // ----- memory contents -----

  // Physical memory, frame by frame.
  type Ram = map<nat, seq<nat>>

  ghost predicate Memory(ram: Ram) {
    forall f :: 0 <= f < FRAMES ==> f in ram && |ram[f]| == WORDS
  }

  function Page(word: nat): (page: seq<nat>) {
    seq(WORDS, _ => word)
  }

  // What the full guard scan looks for: every guard frame of every buffer holds
  // the guard word, and the trap page's scratch area is still zero.
  ghost predicate Intact(ram: Ram, bs: seq<Buffer>) {
    forall i, f :: 0 <= i < |bs| && Protects(bs, i, f) ==> f in ram && ram[f] == (if bs[i].Guards(f) then Page(GUARD) else Page(0))
  }

  // A write to a frame no buffer protects leaves the scan's verdict unchanged.
  lemma WriteElsewhere(ram: Ram, bs: seq<Buffer>, f: nat, page: seq<nat>)
    requires Intact(ram, bs) && forall i :: 0 <= i < |bs| ==> !Protects(bs, i, f)
    ensures Intact(ram[f := page], bs)
  {
  }

  // ----- what the GPU can do -----

  // One write of the GPU; if no entry permits it, `trapped` says whether the MMU
  // redirects it to the trap page.
  datatype GpuWrite = GpuWrite(va: nat, value: nat, trapped: bool) {
    function Word(): nat {
      va % PAGE / 4
    }
  }

  // What it writes: memory, of which the page table is a part kept apart here.
  datatype World = World(ram: Ram, table: seq<nat>)

  predicate Permitted(entries: seq<nat>, va: nat) {
    va / PAGE < |entries| && ValidBit(entries[va / PAGE]) && WriteBit(entries[va / PAGE])
  }

  // A payload frame of the buffer that holds the page table.
  predicate TableFrame(session: seq<Buffer>, f: nat) {
    TABLE < |session| && session[TABLE].Buffer? && session[TABLE].base < f < session[TABLE].Last()
  }

  function Landed(session: seq<Buffer>, m: World, f: nat, word: nat, value: nat): (r: World) {
    if TableFrame(session, f) then
      var p := (f - session[TABLE].base - 1) * WORDS + word;
      if p < |m.table| then m.(table := m.table[p := value]) else m
    else if f in m.ram && word < |m.ram[f]| then
      var page: seq<nat> := m.ram[f][word := value];
      m.(ram := m.ram[f := page])
    else m
  }

  function GpuStep(session: seq<Buffer>, m: World, w: GpuWrite): World {
    if Permitted(m.table, w.va) then Landed(session, m, Frame(m.table[w.va / PAGE]), w.Word(), w.value)
    else if w.trapped && TRAP < |session| && session[TRAP].Buffer? then Landed(session, m, session[TRAP].base + 1, w.Word(), w.value)
    else m
  }

  function GpuRuns(session: seq<Buffer>, m: World, ws: seq<GpuWrite>): World {
    if ws == [] then m else GpuStep(session, GpuRuns(session, m, ws[..|ws| - 1]), ws[|ws| - 1])
  }

  // Does some write find no entry that permits it? The hardware reports that.
  predicate Faults(session: seq<Buffer>, m: World, ws: seq<GpuWrite>) {
    ws != [] && (Faults(session, m, ws[..|ws| - 1]) || !Permitted(GpuRuns(session, m, ws[..|ws| - 1]).table, ws[|ws| - 1].va))
  }

  lemma RunsSnoc(session: seq<Buffer>, m: World, ws: seq<GpuWrite>, k: nat)
    requires k < |ws|
    ensures GpuRuns(session, m, ws[..k + 1]) == GpuStep(session, GpuRuns(session, m, ws[..k]), ws[k])
    ensures Faults(session, m, ws[..k + 1]) <==> Faults(session, m, ws[..k]) || !Permitted(GpuRuns(session, m, ws[..k]).table, ws[k].va)
  {
    assert ws[..k + 1][..k] == ws[..k];
  }

  lemma {:induction false} RunsJoin(session: seq<Buffer>, m: World, vs: seq<GpuWrite>, ws: seq<GpuWrite>)
    ensures GpuRuns(session, m, vs + ws) == GpuRuns(session, GpuRuns(session, m, vs), ws)
    ensures Faults(session, m, vs + ws) <==> Faults(session, m, vs) || Faults(session, GpuRuns(session, m, vs), ws)
  {
    hide GpuStep, Permitted;
    if ws == [] {
      assert vs + ws == vs;
    } else {
      RunsJoin(session, m, vs, ws[..|ws| - 1]);
      assert (vs + ws)[..|vs + ws| - 1] == vs + ws[..|ws| - 1];
    }
  }

  // Frame f is payload of an object the GPU may write.
  ghost predicate Writable(objects: seq<Object>, f: nat) {
    exists i, k :: 0 <= i < |objects| && 0 <= k && Offers(objects[i], k, f)
  }

  predicate Offers(o: Object, k: nat, f: nat) {
    o.Object? && o.writable && k < |o.frames| && o.frames[k] == f
  }

  // A writable object names a frame that the guard scan looks at, or one of the
  // page table. Only an import can: nothing compares its frames with the driver's.
  ghost predicate Exposed(session: seq<Buffer>, objects: seq<Object>) {
    exists f :: Writable(objects, f) && Delicate(session, objects, f)
  }

  ghost predicate Delicate(session: seq<Buffer>, objects: seq<Object>, f: nat) {
    TableFrame(session, f) || exists j :: 0 <= j < |Buffers(session, objects)| && Protects(Buffers(session, objects), j, f)
  }

  // Imports that name no frame of the driver expose nothing.
  lemma ForeignUnexposed(session: seq<Buffer>, objects: seq<Object>, table: seq<nat>, serial: nat, faulted: bool, forged: bool)
    requires Books(session, objects, table, serial, faulted, forged) && AllForeign(Buffers(session, objects), objects)
    ensures !Exposed(session, objects)
  {
    hide Placed, Numbered, Sound, Complete;
    forall f | Writable(objects, f)
      ensures !Delicate(session, objects, f)
    {
      var i, k :| 0 <= i < |objects| && 0 <= k && Offers(objects[i], k, f);
      PayloadApart(session, objects, i, k);
    }
  }

  // An own object's payload is neither protected nor part of the table.
  lemma PayloadApart(session: seq<Buffer>, objects: seq<Object>, i: nat, k: nat)
    requires Begun(session) && Disjoint(Buffers(session, objects)) && Backed(objects)
    requires i < |objects| && objects[i].Object? && k < |objects[i].frames|
    requires objects[i].own || Foreign(Buffers(session, objects), objects[i].frames)
    ensures !Delicate(session, objects, objects[i].frames[k])
  {
    var bs, f := Buffers(session, objects), objects[i].frames[k];
    assert bs[TABLE] == session[TABLE];
    assert bs[SESSION + i] == BufferOf(objects[i]);
    forall j | 0 <= j < |bs|
      ensures !Protects(bs, j, f)
    {
      PayloadUnprotected(session, objects, i, k, j);
    }
  }

  // One write that an entry permits, while nothing is exposed: it lands in the
  // payload of a writable object, and all that the scan looks at stays.
  lemma StepHarmless(session: seq<Buffer>, objects: seq<Object>, table: seq<nat>, serial: nat, faulted: bool, m: World, w: GpuWrite)
    requires Books(session, objects, table, serial, faulted, false) && Memory(m.ram) && m.table == table
    requires Permitted(table, w.va)
    ensures var f := Frame(table[w.va / PAGE]); var r := GpuStep(session, m, w);
            && f < FRAMES && Writable(objects, f)
            && (!TableFrame(session, f) ==> r.table == table)
            && (!Exposed(session, objects) && Intact(m.ram, Buffers(session, objects)) ==> r.table == table && Intact(r.ram, Buffers(session, objects)))
  {
    hide Placed, Numbered, Disjoint, Backed, Complete, Intact;
    var f := Frame(table[w.va / PAGE]);
    var i := ReachedObject(table, objects, w.va, true, f);
    var k := (w.va - objects[i].address) / PAGE;
    assert Offers(objects[i], k, f);
    if !Exposed(session, objects) && Intact(m.ram, Buffers(session, objects)) {
      assert !Delicate(session, objects, f);
      var page: seq<nat> := m.ram[f][w.Word() := w.value];
      WriteElsewhere(m.ram, Buffers(session, objects), f, page);
    }
  }

  // Whatever it does, the GPU does not change the shape of memory.
  lemma StepShape(session: seq<Buffer>, m: World, w: GpuWrite)
    requires Memory(m.ram)
    ensures var r := GpuStep(session, m, w); Memory(r.ram) && |r.table| == |m.table|
  {
  }

  // A writable object names a frame of the page table.
  ghost predicate Rewritable(session: seq<Buffer>, objects: seq<Object>) {
    exists f :: Writable(objects, f) && TableFrame(session, f)
  }

  // Every write keeps the books; the table changes only through itself.
  lemma StepKeeps(session: seq<Buffer>, objects: seq<Object>, serial: nat, faulted: bool, forged: bool, m: World, w: GpuWrite)
    requires Books(session, objects, m.table, serial, faulted, forged) && Memory(m.ram) && (Rewritable(session, objects) ==> forged)
    ensures var r := GpuStep(session, m, w);
            && Memory(r.ram) && Books(session, objects, r.table, serial, faulted, forged)
            && (!forged ==> r.table == m.table && OthersKept(session, objects, m.ram, r.ram))
            && (!forged && !Exposed(session, objects) && Permitted(m.table, w.va) && Intact(m.ram, Buffers(session, objects)) ==>
                  Intact(r.ram, Buffers(session, objects)))
  {
    hide Books, Intact, Memory, Exposed, Landed, Writable;
    StepShape(session, m, w);
    var r := GpuStep(session, m, w);
    if forged {
      BooksForged(session, objects, m.table, serial, faulted, forged, r.table);
    } else {
      TrapApart(session, objects, m.table, serial, faulted, forged);
      if Permitted(m.table, w.va) {
        var f := Frame(m.table[w.va / PAGE]);
        StepHarmless(session, objects, m.table, serial, faulted, m, w);
        assert !TableFrame(session, f);
        LandedThere(session, objects, m, f, w.Word(), w.value);
      } else {
        LandedThere(session, objects, m, session[TRAP].base + 1, w.Word(), w.value);
      }
    }
  }

  // Only payload that the GPU may write has changed, and the trap page.
  ghost predicate OthersKept(session: seq<Buffer>, objects: seq<Object>, before: Ram, after: Ram) {
    TRAP < |session| && session[TRAP].Buffer? &&
    forall f :: 0 <= f < FRAMES && f != session[TRAP].base + 1 && !Writable(objects, f) ==> f in after && f in before && after[f] == before[f]
  }

  lemma LandedThere(session: seq<Buffer>, objects: seq<Object>, m: World, f: nat, word: nat, value: nat)
    requires Begun(session) && Memory(m.ram) && !TableFrame(session, f) && (f == session[TRAP].base + 1 || Writable(objects, f))
    ensures var r := Landed(session, m, f, word, value); r.table == m.table && OthersKept(session, objects, m.ram, r.ram)
    ensures OthersKept(session, objects, m.ram, m.ram)
  {
    hide Writable;
  }

  lemma TrapApart(session: seq<Buffer>, objects: seq<Object>, table: seq<nat>, serial: nat, faulted: bool, forged: bool)
    requires Books(session, objects, table, serial, faulted, forged)
    ensures Begun(session) && session[TRAP].base + 1 < FRAMES && !TableFrame(session, session[TRAP].base + 1)
  {
    hide Placed, Numbered, Backed, Sound, Complete;
    var bs := Buffers(session, objects);
    assert bs[TABLE] == session[TABLE] && bs[TRAP] == session[TRAP];
  }

  lemma {:induction false} RunsHarmless(session: seq<Buffer>, objects: seq<Object>, table: seq<nat>, serial: nat, faulted: bool, ram: Ram, ws: seq<GpuWrite>)
    requires Books(session, objects, table, serial, faulted, false) && Memory(ram) && Intact(ram, Buffers(session, objects))
    requires !Exposed(session, objects) && !Faults(session, World(ram, table), ws)
    ensures var r := GpuRuns(session, World(ram, table), ws); r.table == table && Memory(r.ram) && Intact(r.ram, Buffers(session, objects))
  {
    hide Books, Intact, Memory, Exposed, GpuStep;
    if ws != [] {
      var front := ws[..|ws| - 1];
      RunsHarmless(session, objects, table, serial, faulted, ram, front);
      var m := GpuRuns(session, World(ram, table), front);
      StepHarmless(session, objects, table, serial, faulted, m, ws[|ws| - 1]);
      StepShape(session, m, ws[|ws| - 1]);
    }
  }

  // The condition of the cached verdict, exactly: what the scan looks at survives
  // every run of the GPU without a fault if and only if nothing is exposed.
  lemma ExposureIsExact(session: seq<Buffer>, objects: seq<Object>, table: seq<nat>, serial: nat, ram: Ram)
    requires Books(session, objects, table, serial, false, false) && Memory(ram) && Intact(ram, Buffers(session, objects))
    ensures !Exposed(session, objects) <==>
            forall ws :: !Faults(session, World(ram, table), ws) ==> Intact(GpuRuns(session, World(ram, table), ws).ram, Buffers(session, objects))
  {
    hide Books, Intact, Memory, Exposed, GpuRuns, Faults;
    if Exposed(session, objects) {
      var ws := Attack(session, objects, table, serial, ram);
      assert !Faults(session, World(ram, table), ws);
    } else {
      forall ws | !Faults(session, World(ram, table), ws)
        ensures Intact(GpuRuns(session, World(ram, table), ws).ram, Buffers(session, objects))
      {
        RunsHarmless(session, objects, table, serial, false, ram, ws);
      }
    }
  }

  // What an exposed frame allows: one write through the object's own entry, or
  // one that forges an entry and one through that.
  lemma Attack(session: seq<Buffer>, objects: seq<Object>, table: seq<nat>, serial: nat, ram: Ram) returns (ws: seq<GpuWrite>)
    requires Books(session, objects, table, serial, false, false) && Memory(ram) && Exposed(session, objects)
    ensures !Faults(session, World(ram, table), ws) && !Intact(GpuRuns(session, World(ram, table), ws).ram, Buffers(session, objects))
  {
    hide Books, Memory, Intact, Protects, Landed, GpuRuns, Faults;
    var f :| Writable(objects, f) && Delicate(session, objects, f);
    var i, k :| 0 <= i < |objects| && 0 <= k && Offers(objects[i], k, f);
    if TableFrame(session, f) {
      OwnEntry(session, objects, table, serial, i, k);
      ws := Forge(session, objects, table, serial, ram, objects[i].address + k * PAGE, f);
    } else {
      var j :| 0 <= j < |Buffers(session, objects)| && Protects(Buffers(session, objects), j, f);
      ws := [GpuWrite(objects[i].address + k * PAGE, 1, false)];
      GuardOverwritten(session, objects, table, serial, ram, i, k, j);
    }
  }

  // Frame k of a writable object is one that the scan looks at: a write to its
  // first word goes through, and undoes the guard.
  lemma GuardOverwritten(session: seq<Buffer>, objects: seq<Object>, table: seq<nat>, serial: nat, ram: Ram, i: nat, k: nat, j: nat)
    requires Books(session, objects, table, serial, false, false) && Memory(ram)
    requires i < |objects| && objects[i].Object? && objects[i].writable && k < |objects[i].frames|
    requires j < |Buffers(session, objects)| && Protects(Buffers(session, objects), j, objects[i].frames[k])
    ensures var w := GpuWrite(objects[i].address + k * PAGE, 1, false);
            !Faults(session, World(ram, table), [w]) && !Intact(GpuRuns(session, World(ram, table), [w]).ram, Buffers(session, objects))
  {
    hide Books, Memory, Intact, Protects, Landed, GpuRuns, Faults;
    var m, w := World(ram, table), GpuWrite(objects[i].address + k * PAGE, 1, false);
    OwnEntry(session, objects, table, serial, i, k);
    OneWrite(session, m, w);
    Overwritten(session, objects, table, serial, m, j, objects[i].frames[k]);
  }

  lemma OneWrite(session: seq<Buffer>, m: World, w: GpuWrite)
    ensures GpuRuns(session, m, [w]) == GpuStep(session, m, w) && (Faults(session, m, [w]) <==> !Permitted(m.table, w.va))
  {
    RunsSnoc(session, m, [w], 0);
    assert [w][..1] == [w] && [w][..0] == [];
  }

  lemma TwoWrites(session: seq<Buffer>, m: World, v: GpuWrite, w: GpuWrite)
    requires Permitted(m.table, v.va) && Permitted(GpuStep(session, m, v).table, w.va)
    ensures GpuRuns(session, m, [v, w]) == GpuStep(session, GpuStep(session, m, v), w) && !Faults(session, m, [v, w])
  {
    hide GpuStep, Permitted;
    OneWrite(session, m, v);
    RunsSnoc(session, m, [v, w], 1);
    assert [v, w][..2] == [v, w] && [v, w][..1] == [v];
  }

  // The first word of payload page k, and its entry.
  lemma OwnEntry(session: seq<Buffer>, objects: seq<Object>, table: seq<nat>, serial: nat, i: nat, k: nat)
    requires Books(session, objects, table, serial, false, false) && i < |objects| && objects[i].Object? && objects[i].writable && k < |objects[i].frames|
    ensures var va := objects[i].address + k * PAGE; va % PAGE == 0 && Permitted(table, va) && Frame(table[va / PAGE]) == objects[i].frames[k]
  {
    var va := objects[i].address + k * PAGE;
    assert (va - objects[i].address) / PAGE == k;
    BackedIsReached(table, objects, i, va, true, objects[i].frames[k]);
  }

  // A 1 is neither the guard word nor zero.
  lemma Overwritten(session: seq<Buffer>, objects: seq<Object>, table: seq<nat>, serial: nat, m: World, j: nat, f: nat)
    requires Books(session, objects, table, serial, false, false) && Memory(m.ram)
    requires j < |Buffers(session, objects)| && Protects(Buffers(session, objects), j, f)
    ensures f < FRAMES && !TableFrame(session, f) && !Intact(Landed(session, m, f, 0, 1).ram, Buffers(session, objects))
  {
    hide Placed, Numbered, Backed, Sound, Complete;
    var bs := Buffers(session, objects);
    assert bs[TABLE] == session[TABLE] && bs[TRAP] == session[TRAP];
    assert bs[j].Last() < FRAMES;
    var after := Landed(session, m, f, 0, 1).ram;
    assert after[f][0] == 1 && Page(GUARD)[0] == GUARD && Page(0)[0] == 0;
  }

  // An entry written by the GPU itself opens the trap page's first guard.
  lemma Forge(session: seq<Buffer>, objects: seq<Object>, table: seq<nat>, serial: nat, ram: Ram, va: nat, f: nat) returns (ws: seq<GpuWrite>)
    requires Books(session, objects, table, serial, false, false) && Memory(ram) && TableFrame(session, f)
    requires va % PAGE == 0 && Permitted(table, va) && Frame(table[va / PAGE]) == f
    ensures !Faults(session, World(ram, table), ws) && !Intact(GpuRuns(session, World(ram, table), ws).ram, Buffers(session, objects))
  {
    hide Placed, Numbered, Backed, Sound, Complete, Intact, Make, Frame, ValidBit, WriteBit, Memory, Disjoint;
    var m, g, p := World(ram, table), session[TRAP].base, (f - session[TABLE].base - 1) * WORDS;
    var bs := Buffers(session, objects);
    assert bs[TRAP] == session[TRAP] && Protects(bs, TRAP, g);
    assert p < |table|;
    var v, w := GpuWrite(va, Make(g, true), false), GpuWrite(p * PAGE, 1, false);
    var n := GpuStep(session, m, v);
    assert n == m.(table := table[p := Make(g, true)]);
    Overwritten(session, objects, table, serial, n, TRAP, g);
    Fields(g, true);
    assert w.va / PAGE == p;
    ws := [v, w];
    TwoWrites(session, m, v, w);
  }
}
