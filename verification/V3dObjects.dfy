// The buffer objects of a V3D memory session (pi5-v3d/driver.c): where they
// live in the GPU's address space, the page table they stand for, and the
// physical frames behind them.
module V3dObjects {
  import opened PageEntry

  const LIMIT: nat := 256
  const LOWEST: nat := 0x101000
  const HIGHEST: nat := 0xf0000000
  const TABLE_PAGES: nat := 0x100000
  const FRAMES: nat := 0x1000000

  // V3D_OBJECT: a driver-allocated buffer (own) whose payload frames lie between
  // two guard frames, or an imported list of frames.
  datatype Object =
    | NoObject
    | Object(handle: nat, address: nat, writable: bool, own: bool, base: nat, frames: seq<nat>)
  {
    function Bytes(): nat
      requires Object?
    {
      |frames| * PAGE
    }

    function End(): nat
      requires Object?
    {
      address + Bytes()
    }
  }

  // ----- placement -----

  // The guarded range of a size-byte object at `a` misses that of `o`.
  predicate Misses(o: Object, a: int, size: int) {
    o.Object? ==> a - PAGE >= o.End() + PAGE || a + size + PAGE <= o.address - PAGE
  }

  predicate Fits(objects: seq<Object>, size: int, a: int) {
    && LOWEST <= a && a + size + PAGE <= HIGHEST
    && forall i :: 0 <= i < |objects| ==> Misses(objects[i], a, size)
  }

  // Objects sit on page boundaries, apart from one another, inside the window.
  ghost predicate Placed(objects: seq<Object>) {
    && (forall i :: 0 <= i < |objects| && objects[i].Object? ==>
          && LOWEST <= objects[i].address && objects[i].address % PAGE == 0
          && 0 < |objects[i].frames| && objects[i].End() + PAGE <= HIGHEST)
    && (forall i, j :: 0 <= i < |objects| && 0 <= j < |objects| && i != j && objects[j].Object? ==>
          Misses(objects[i], objects[j].address, objects[j].Bytes()))
  }

  lemma PlacedUpdate(objects: seq<Object>, s: nat, o: Object)
    requires Placed(objects) && s < |objects| && objects[s] == NoObject
    requires o.Object? && o.address % PAGE == 0 && 0 < |o.frames| && Fits(objects, o.Bytes(), o.address)
    ensures Placed(objects[s := o])
  {
  }

  lemma PlacedRemove(objects: seq<Object>, s: nat)
    requires Placed(objects) && s < |objects|
    ensures Placed(objects[s := NoObject])
  {
  }

  // ----- the page table -----

  predicate Covers(o: Object, page: nat) {
    o.Object? && o.address / PAGE <= page < o.address / PAGE + |o.frames|
  }

  function PteOf(o: Object, page: nat): nat
    requires Covers(o, page)
  {
    Make(o.frames[page - o.address / PAGE], o.writable)
  }

  // A page-table entry is valid only for a payload page of a live object, with
  // that object's frame and permission ...
  ghost predicate Sound(table: seq<nat>, objects: seq<Object>) {
    forall p :: 0 <= p < |table| && table[p] != 0 ==>
                  exists i :: 0 <= i < |objects| && Covers(objects[i], p) && table[p] == PteOf(objects[i], p)
  }

  // ... and for all of them.
  ghost predicate Complete(table: seq<nat>, objects: seq<Object>) {
    forall i, p :: 0 <= i < |objects| && 0 <= p < |table| && Covers(objects[i], p) ==> table[p] == PteOf(objects[i], p)
  }

  ghost predicate InFrames(objects: seq<Object>) {
    forall i, k :: 0 <= i < |objects| && objects[i].Object? && 0 <= k < |objects[i].frames| ==> objects[i].frames[k] < FRAMES
  }

  // Two objects never share a page, nor even a neighbouring one.
  lemma PagesApart(objects: seq<Object>, i: nat, j: nat, p: nat, q: nat)
    requires Placed(objects) && i < |objects| && j < |objects| && i != j
    requires Covers(objects[i], p) && Covers(objects[j], q)
    ensures p + 2 < q || q + 2 < p
  {
    assert Misses(objects[i], objects[j].address, objects[j].Bytes());
  }

  // Writing an object's entries over a sound and complete table keeps it so.
  lemma Mapped(table: seq<nat>, objects: seq<Object>, s: nat, o: Object, after: seq<nat>)
    requires s < |objects| && objects[s] == NoObject && |after| == |table|
    requires Placed(objects[s := o]) && Sound(table, objects) && Complete(table, objects)
    requires forall p :: 0 <= p < |table| ==> after[p] == if Covers(o, p) then PteOf(o, p) else table[p]
    ensures Sound(after, objects[s := o]) && Complete(after, objects[s := o])
  {
    var objs := objects[s := o];
    forall p | 0 <= p < |after| && after[p] != 0
      ensures exists i :: 0 <= i < |objs| && Covers(objs[i], p) && after[p] == PteOf(objs[i], p)
    {
      if Covers(o, p) {
        assert Covers(objs[s], p);
      } else {
        var i :| 0 <= i < |objects| && Covers(objects[i], p) && table[p] == PteOf(objects[i], p);
        assert objs[i] == objects[i];
      }
    }
    forall i, p | 0 <= i < |objs| && 0 <= p < |after| && Covers(objs[i], p)
      ensures after[p] == PteOf(objs[i], p)
    {
      if i != s && Covers(o, p) {
        PagesApart(objs, i, s, p, p);
      } else if i != s {
        assert objs[i] == objects[i];
      }
    }
  }

  // Clearing them while the object lives keeps the table sound; dropping the
  // object then makes it complete again.
  lemma Cleared(table: seq<nat>, objects: seq<Object>, s: nat, after: seq<nat>)
    requires Placed(objects) && Sound(table, objects) && s < |objects| && objects[s].Object? && |after| == |table|
    requires forall p :: 0 <= p < |table| ==> after[p] == if Covers(objects[s], p) then 0 else table[p]
    ensures Sound(after, objects) && Sound(after, objects[s := NoObject])
    ensures Complete(table, objects) ==> Complete(after, objects[s := NoObject])
  {
    var objs := objects[s := NoObject];
    forall p | 0 <= p < |after| && after[p] != 0
      ensures exists i :: 0 <= i < |objects| && i != s && Covers(objects[i], p) && after[p] == PteOf(objects[i], p)
    {
      var i :| 0 <= i < |objects| && Covers(objects[i], p) && table[p] == PteOf(objects[i], p);
      assert i != s;
    }
    forall p | 0 <= p < |after| && after[p] != 0
      ensures exists i :: 0 <= i < |objs| && Covers(objs[i], p) && after[p] == PteOf(objs[i], p)
    {
      var i :| 0 <= i < |objects| && i != s && Covers(objects[i], p) && after[p] == PteOf(objects[i], p);
      assert objs[i] == objects[i];
    }
    if Complete(table, objects) {
      forall i, p | 0 <= i < |objs| && 0 <= p < |after| && Covers(objs[i], p)
        ensures after[p] == PteOf(objs[i], p)
      {
        assert objs[i] == objects[i] && i != s;
        if Covers(objects[s], p) {
          PagesApart(objects, i, s, p, p);
        }
      }
    }
  }

  // ----- address translation -----

  // The frame a GPU access to `va` reaches, if its entry permits the access.
  predicate Reaches(table: seq<nat>, va: nat, write: bool, frame: nat) {
    && va / PAGE < |table|
    && ValidBit(table[va / PAGE]) && (write ==> WriteBit(table[va / PAGE]))
    && frame == Frame(table[va / PAGE])
  }

  // ObjectRange: the range lies inside one object of exactly that permission.
  predicate InRange(o: Object, address: nat, bytes: nat, writable: bool) {
    o.Object? && o.writable == writable && o.address <= address && address + bytes <= o.End()
  }

  // Every byte of a range that ObjectRange accepts is readable there, and is
  // writable exactly as asked.
  lemma RangeTranslates(table: seq<nat>, objects: seq<Object>, i: nat, address: nat, bytes: nat, writable: bool, va: nat)
    requires |table| == TABLE_PAGES && Placed(objects) && InFrames(objects) && Complete(table, objects)
    requires i < |objects| && InRange(objects[i], address, bytes, writable) && address <= va < address + bytes
    ensures var f := objects[i].frames[(va - objects[i].address) / PAGE];
            Reaches(table, va, false, f) && (Reaches(table, va, true, f) <==> writable)
  {
    var f := objects[i].frames[(va - objects[i].address) / PAGE];
    BackedIsReached(table, objects, i, va, false, f);
    if writable {
      BackedIsReached(table, objects, i, va, true, f);
    } else {
      Inside(objects[i], va);
      Fields(f, false);
    }
  }

  // Translation is exact: an access succeeds precisely at an address inside a
  // live object that permits it, and reaches that object's frame.
  lemma TranslationIsExact(table: seq<nat>, objects: seq<Object>, va: nat, write: bool, frame: nat)
    requires |table| == TABLE_PAGES && Placed(objects) && InFrames(objects) && Sound(table, objects) && Complete(table, objects)
    ensures Reaches(table, va, write, frame) <==> exists i :: Backs(objects, i, va, write, frame)
  {
    if Reaches(table, va, write, frame) {
      var i := ReachedObject(table, objects, va, write, frame);
    } else if exists i :: Backs(objects, i, va, write, frame) {
      var i :| Backs(objects, i, va, write, frame);
      BackedIsReached(table, objects, i, va, write, frame);
    }
  }

  // Byte `va` belongs to object i, which permits the access, in that frame.
  predicate Backs(objects: seq<Object>, i: nat, va: nat, write: bool, frame: nat) {
    && i < |objects| && objects[i].Object? && objects[i].address <= va < objects[i].End()
    && (write ==> objects[i].writable)
    && frame == objects[i].frames[(va - objects[i].address) / PAGE]
  }

  lemma ReachedObject(table: seq<nat>, objects: seq<Object>, va: nat, write: bool, frame: nat) returns (i: nat)
    requires Placed(objects) && InFrames(objects) && Sound(table, objects) && Reaches(table, va, write, frame)
    ensures Backs(objects, i, va, write, frame)
  {
    hide Make, Frame, ValidBit, WriteBit;
    var p := va / PAGE;
    assert table[p] != 0 by {
      ZeroInvalid();
    }
    i :| 0 <= i < |objects| && Covers(objects[i], p) && table[p] == PteOf(objects[i], p);
    Inside(objects[i], va);
    Fields(objects[i].frames[p - objects[i].address / PAGE], objects[i].writable);
  }

  lemma ZeroInvalid()
    ensures !ValidBit(0)
  {
  }

  lemma BackedIsReached(table: seq<nat>, objects: seq<Object>, i: nat, va: nat, write: bool, frame: nat)
    requires |table| == TABLE_PAGES && Placed(objects) && InFrames(objects) && Complete(table, objects)
    requires Backs(objects, i, va, write, frame)
    ensures Reaches(table, va, write, frame)
  {
    hide Make, Frame, ValidBit, WriteBit;
    Inside(objects[i], va);
    Fields(objects[i].frames[va / PAGE - objects[i].address / PAGE], objects[i].writable);
  }

  lemma Inside(o: Object, va: nat)
    requires o.Object? && o.address % PAGE == 0
    ensures Covers(o, va / PAGE) <==> o.address <= va < o.End()
    ensures Covers(o, va / PAGE) ==> (va - o.address) / PAGE == va / PAGE - o.address / PAGE
  {
  }

  // ----- physical frames -----

  // V3D_BUFFER: a common buffer of the driver, a guard frame at `base`, then
  // `pages` payload frames, then a second guard frame.
  datatype Buffer = NoBuffer | Buffer(base: nat, pages: nat)
  {
    function Last(): nat
      requires Buffer?
    {
      base + pages + 1
    }

    predicate Contains(f: nat) {
      Buffer? && base <= f <= Last()
    }

    predicate Guards(f: nat) {
      Buffer? && (f == base || f == Last())
    }
  }

  const SESSION: nat := 8
  const TABLE: nat := 0
  const TRAP: nat := 1

  function BufferOf(o: Object): Buffer {
    if o.Object? && o.own then Buffer(o.base, |o.frames|) else NoBuffer
  }

  function FramesOf(b: Buffer): seq<nat>
    requires b.Buffer?
  {
    seq(b.pages, k requires 0 <= k => b.base + 1 + k)
  }

  // All the driver's buffers: the eight of the session, then the objects' own.
  function Buffers(session: seq<Buffer>, objects: seq<Object>): (bs: seq<Buffer>)
    ensures |bs| == |session| + |objects|
  {
    session + seq(|objects|, i requires 0 <= i < |objects| => BufferOf(objects[i]))
  }

  // The HAL never hands the same frame out twice.
  ghost predicate Disjoint(bs: seq<Buffer>) {
    && (forall i :: 0 <= i < |bs| && bs[i].Buffer? ==> bs[i].Last() < FRAMES)
    && (forall i, j :: 0 <= i < |bs| && 0 <= j < |bs| && i != j && bs[i].Buffer? && bs[j].Buffer? ==>
          bs[i].Last() < bs[j].base || bs[j].Last() < bs[i].base)
  }

  // An own object's payload is its buffer's payload.
  ghost predicate Backed(objects: seq<Object>) {
    forall i :: 0 <= i < |objects| && objects[i].Object? && objects[i].own ==> objects[i].frames == FramesOf(BufferOf(objects[i]))
  }

  // No imported frame belongs to the driver.
  ghost predicate Foreign(bs: seq<Buffer>, frames: seq<nat>) {
    forall i, k :: 0 <= i < |bs| && 0 <= k < |frames| ==> !bs[i].Contains(frames[k])
  }

  ghost predicate AllForeign(bs: seq<Buffer>, objects: seq<Object>) {
    forall i :: 0 <= i < |objects| && objects[i].Object? && !objects[i].own ==> Foreign(bs, objects[i].frames)
  }

  // Frames whose contents the driver vouches for: guards, and the trap page.
  predicate Protects(bs: seq<Buffer>, i: nat, f: nat)
    requires i < |bs|
  {
    bs[i].Guards(f) || (i == TRAP && bs[i].Buffer? && f == bs[i].base + 1)
  }

  // No payload frame of an own object is protected, nor one of an import that
  // names no frame of the driver.
  lemma PayloadUnprotected(session: seq<Buffer>, objects: seq<Object>, i: nat, k: nat, j: nat)
    requires |session| == SESSION && i < |objects| && objects[i].Object? && k < |objects[i].frames|
    requires Disjoint(Buffers(session, objects)) && Backed(objects)
    requires objects[i].own || Foreign(Buffers(session, objects), objects[i].frames)
    requires j < |Buffers(session, objects)|
    ensures !Protects(Buffers(session, objects), j, objects[i].frames[k])
  {
    var bs := Buffers(session, objects);
    if objects[i].own {
      assert bs[SESSION + i] == BufferOf(objects[i]);
    } else {
      assert Foreign(bs, objects[i].frames);
      assert !bs[j].Contains(objects[i].frames[k]);
    }
  }

  // ----- accounting -----

  function OwnBytes(objects: seq<Object>): nat {
    if objects == [] then 0
    else
      var o := objects[|objects| - 1];
      OwnBytes(objects[..|objects| - 1]) + (if o.Object? && o.own then o.Bytes() else 0)
  }

  function ImportedBytes(objects: seq<Object>): nat {
    if objects == [] then 0
    else
      var o := objects[|objects| - 1];
      ImportedBytes(objects[..|objects| - 1]) + (if o.Object? && !o.own then o.Bytes() else 0)
  }

  function Own(o: Object): nat {
    if o.Object? && o.own then o.Bytes() else 0
  }

  function Imported(o: Object): nat {
    if o.Object? && !o.own then o.Bytes() else 0
  }

  lemma {:induction false} NoBytes(objects: seq<Object>)
    requires forall i :: 0 <= i < |objects| ==> objects[i] == NoObject
    ensures OwnBytes(objects) == 0 && ImportedBytes(objects) == 0
  {
    if objects != [] {
      NoBytes(objects[..|objects| - 1]);
    }
  }

  lemma {:induction false} BytesUpdate(objects: seq<Object>, s: nat, o: Object)
    requires s < |objects|
    ensures OwnBytes(objects[s := o]) == OwnBytes(objects) + Own(o) - Own(objects[s])
    ensures ImportedBytes(objects[s := o]) == ImportedBytes(objects) + Imported(o) - Imported(objects[s])
  {
    var n := |objects| - 1;
    if s < n {
      BytesUpdate(objects[..n], s, o);
      assert objects[s := o][..n] == objects[..n][s := o];
    } else {
      assert objects[s := o][..n] == objects[..n];
    }
  }
}
