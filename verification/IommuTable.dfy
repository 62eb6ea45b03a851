// The level-two page table of the multimedia IOMMU (pi5-iommu/hardware.c):
// sixteen slots of sixteen payload pages, each slot fenced by two invalid pages.
module IommuTable {
  import opened PageEntry

  const WORDS: nat := 1024
  const SLOTS: nat := 16
  const MAX_PAGES: nat := 16
  const SLOT_PAGES: nat := 18
  const IOVA_BASE: nat := 0xa00000000
  const DMA_LIMIT: nat := 0xfffffffff

  datatype Result<+T> = Ok(value: T) | Err(error: Error)
  datatype Error = Invalid | Busy | Drift
  datatype Mapping = Mapping(dma: nat, pages: nat, writable: bool)

  type Slots = map<nat, Mapping>

  // Address(): a page-aligned run of 1 to 16 pages below the 36-bit DMA limit.
  predicate Address(dma: nat, pages: nat) {
    0 < pages <= MAX_PAGES && dma % PAGE == 0 && dma <= DMA_LIMIT && pages * PAGE - 1 <= DMA_LIMIT - dma
  }

  // Page i of a mapping, as MmuMap writes it: (frame + i) | VALID | WRITE.
  function Entry(m: Mapping, i: nat): nat {
    Make(m.dma / PAGE + i, m.writable)
  }

  // The frame number never carries into the flag bits.
  lemma EntryFields(m: Mapping, i: nat)
    requires Address(m.dma, m.pages) && i < m.pages
    ensures var pte := Entry(m, i);
            && 0 < pte < WORD && ValidBit(pte) && (WriteBit(pte) <==> m.writable)
            && Frame(pte) * PAGE == m.dma + i * PAGE
  {
    var frame := m.dma / PAGE + i;
    assert frame * PAGE == m.dma + i * PAGE <= DMA_LIMIT;
    Fields(frame, m.writable);
  }

  // ----- the table a set of mappings denotes -----

  predicate Mapped(slots: Slots) {
    forall s :: s in slots ==> s < SLOTS && Address(slots[s].dma, slots[s].pages)
  }

  function Word(slots: Slots, w: nat): nat {
    var s, i := w / SLOT_PAGES, w % SLOT_PAGES;
    if s in slots && 1 <= i <= slots[s].pages then Entry(slots[s], i - 1) else 0
  }

  function Render(slots: Slots): seq<nat> {
    seq(WORDS, w requires 0 <= w => Word(slots, w))
  }

  // ----- translation -----

  function Iova(slot: nat, offset: nat): nat {
    IOVA_BASE + (slot * SLOT_PAGES + 1) * PAGE + offset
  }

  // Offset `at` into the mapping of `slot` is what `iova` names.
  predicate Names(slots: Slots, iova: nat, slot: nat, at: nat) {
    slot in slots && at < slots[slot].pages * PAGE && iova == Iova(slot, at)
  }

  // MmuWalk, on the table contents.
  function Walk(l2: seq<nat>, iova: nat, write: nat): Result<nat>
    requires |l2| == WORDS
  {
    if write > 1 || iova < IOVA_BASE || iova - IOVA_BASE >= PAGE * WORDS then Err(Invalid)
    else
      var pte := l2[(iova - IOVA_BASE) / PAGE];
      if !ValidBit(pte) || (write != 0 && !WriteBit(pte)) then Err(Invalid)
      else Ok(Frame(pte) * PAGE + iova % PAGE)
  }

  // A walk succeeds exactly on addresses inside a mapping that permits the
  // access, and then yields exactly the byte the mapping names.
  lemma WalkIsExact(slots: Slots, iova: nat, write: nat, dma: nat)
    requires Mapped(slots)
    ensures Walk(Render(slots), iova, write) == Ok(dma) <==>
              && write <= 1
              && exists slot, at :: Names(slots, iova, slot, at) && (write == 1 ==> slots[slot].writable) && dma == slots[slot].dma + at
  {
    if write <= 1 && exists slot, at :: Names(slots, iova, slot, at) && (write == 1 ==> slots[slot].writable) && dma == slots[slot].dma + at {
      var slot, at :| Names(slots, iova, slot, at) && (write == 1 ==> slots[slot].writable) && dma == slots[slot].dma + at;
      WalkInside(slots, slot, at, write);
    } else if Walk(Render(slots), iova, write) == Ok(dma) {
      var slot, at := WalkedFrom(slots, iova, write);
    }
  }

  lemma PageOf(iova: nat, base: nat, page: nat, rest: nat)
    requires base % PAGE == 0 && rest < PAGE && iova == base + page * PAGE + rest
    ensures (iova - base) / PAGE == page && iova % PAGE == rest
  {
  }

  lemma WalkInside(slots: Slots, slot: nat, at: nat, write: nat)
    requires Mapped(slots) && slot in slots && at < slots[slot].pages * PAGE && write <= 1
    ensures Walk(Render(slots), Iova(slot, at), write)
         == if write == 1 && !slots[slot].writable then Err(Invalid) else Ok(slots[slot].dma + at)
  {
    var m := slots[slot];
    var i := at / PAGE;
    var w := slot * SLOT_PAGES + 1 + i;
    PageOf(Iova(slot, at), IOVA_BASE, w, at % PAGE);
    assert w / SLOT_PAGES == slot && w % SLOT_PAGES == 1 + i;
    EntryFields(m, i);
    assert Render(slots)[w] == Entry(m, i);
  }

  lemma WalkedFrom(slots: Slots, iova: nat, write: nat) returns (slot: nat, at: nat)
    requires Mapped(slots) && Walk(Render(slots), iova, write).Ok?
    ensures Names(slots, iova, slot, at)
    ensures Walk(Render(slots), iova, write) == Ok(slots[slot].dma + at)
    ensures write == 1 ==> slots[slot].writable
  {
    var w := (iova - IOVA_BASE) / PAGE;
    slot := w / SLOT_PAGES;
    assert Render(slots)[w] == Word(slots, w) != 0;
    var i := w % SLOT_PAGES - 1;
    at := i * PAGE + (iova - IOVA_BASE) % PAGE;
    assert iova == Iova(slot, at);
    WalkInside(slots, slot, at, write);
  }

  // Two addresses reach the same byte only if they are the same address, as
  // long as the mapped buffers do not overlap.
  lemma WalkInjective(slots: Slots, a: nat, b: nat, write: nat)
    requires Mapped(slots)
    requires forall s, t :: s in slots && t in slots && s != t ==>
               slots[s].dma + slots[s].pages * PAGE <= slots[t].dma || slots[t].dma + slots[t].pages * PAGE <= slots[s].dma
    requires Walk(Render(slots), a, write).Ok? && Walk(Render(slots), b, write) == Walk(Render(slots), a, write)
    ensures a == b
  {
    var s, x := WalkedFrom(slots, a, write);
    var t, y := WalkedFrom(slots, b, write);
  }

  // The pages around every slot's payload are never translated, mapped or not.
  lemma GuardsUnreachable(slots: Slots, slot: nat, at: nat, write: nat)
    requires Mapped(slots) && slot < SLOTS && at < PAGE
    ensures Walk(Render(slots), IOVA_BASE + slot * SLOT_PAGES * PAGE + at, write) == Err(Invalid)
    ensures slot in slots ==> Walk(Render(slots), Iova(slot, slots[slot].pages * PAGE + at), write) == Err(Invalid)
  {
    PageOf(IOVA_BASE + slot * SLOT_PAGES * PAGE + at, IOVA_BASE, slot * SLOT_PAGES, at);
    assert slot * SLOT_PAGES % SLOT_PAGES == 0;
    if slot in slots {
      var w := slot * SLOT_PAGES + 1 + slots[slot].pages;
      PageOf(Iova(slot, slots[slot].pages * PAGE + at), IOVA_BASE, w, at);
      assert w / SLOT_PAGES == slot && w % SLOT_PAGES == 1 + slots[slot].pages;
    }
  }

  // ----- how Map and Unmap change the table -----

  function First(slot: nat): nat {
    slot * SLOT_PAGES
  }

  lemma InSlot(slot: nat, w: nat)
    ensures w / SLOT_PAGES == slot <==> First(slot) <= w < First(slot) + SLOT_PAGES
    ensures w / SLOT_PAGES == slot ==> w % SLOT_PAGES == w - First(slot)
  {
  }

  // The words of one slot, read off the mapping.
  lemma SlotWords(slots: Slots, slot: nat)
    requires Mapped(slots) && slot < SLOTS
    ensures First(slot) + SLOT_PAGES <= WORDS
    ensures forall w :: First(slot) <= w < First(slot) + SLOT_PAGES ==>
              && (ValidBit(Word(slots, w)) <==> slot in slots && 1 <= w - First(slot) <= slots[slot].pages)
              && (Word(slots, w) != 0 <==> ValidBit(Word(slots, w)))
  {
    forall w | First(slot) <= w < First(slot) + SLOT_PAGES
      ensures && (ValidBit(Word(slots, w)) <==> slot in slots && 1 <= w - First(slot) <= slots[slot].pages)
              && (Word(slots, w) != 0 <==> ValidBit(Word(slots, w)))
    {
      InSlot(slot, w);
      if slot in slots && 1 <= w - First(slot) <= slots[slot].pages {
        EntryFields(slots[slot], w - First(slot) - 1);
      }
    }
  }

  lemma MapWords(slots: Slots, slot: nat, m: Mapping, w: nat)
    requires slot !in slots && w < WORDS && m.pages <= MAX_PAGES
    ensures Word(slots[slot := m], w) == if First(slot) < w <= First(slot) + m.pages then Entry(m, w - First(slot) - 1) else Word(slots, w)
  {
    InSlot(slot, w);
  }

  lemma UnmapWords(slots: Slots, slot: nat, w: nat)
    requires slot in slots && w < WORDS && slots[slot].pages <= MAX_PAGES
    ensures Word(slots - {slot}, w) == if First(slot) < w <= First(slot) + slots[slot].pages then 0 else Word(slots, w)
  {
    InSlot(slot, w);
  }

  // Unmapping a slot just mapped leaves the table as it was, word for word.
  lemma UnmapUndoesMap(slots: Slots, slot: nat, m: Mapping)
    requires slot !in slots
    ensures Render(slots[slot := m] - {slot}) == Render(slots)
  {
    assert slots[slot := m] - {slot} == slots;
  }

  // ----- the table in memory -----

  class Table {
    const l2: array<nat>
    // What the driver believes is mapped.
    ghost var slots: Slots

    ghost predicate Valid()
      reads this, l2
    {
      l2.Length == WORDS && Mapped(slots) && l2[..] == Render(slots)
    }

    // AllocateMemory clears the page it hands out.
    constructor ()
      ensures Valid() && slots == map[] && fresh(l2)
    {
      l2 := new nat[WORDS](i => 0);
      slots := map[];
    }

    // Whether the words from `start` up to `end` are all zero.
    method AllZero(start: nat, end: nat) returns (zero: bool)
      requires start <= end <= l2.Length
      ensures zero <==> forall w :: start <= w < end ==> l2[w] == 0
    {
      for w := start to end
        invariant forall v :: start <= v < w ==> l2[v] == 0
      {
        if l2[w] != 0 {
          return false;
        }
      }
      zero := true;
    }

    method AllValid(start: nat, end: nat) returns (valid: bool)
      requires start <= end <= l2.Length
      ensures valid <==> forall w :: start <= w < end ==> ValidBit(l2[w])
    {
      for w := start to end
        invariant forall v :: start <= v < w ==> ValidBit(l2[v])
      {
        if !ValidBit(l2[w]) {
          return false;
        }
      }
      valid := true;
    }

    // MmuMap succeeds exactly on a free slot and a well-formed run.
    method Map(slot: nat, dma: nat, pages: nat, writable: nat) returns (r: Result<()>)
      requires Valid()
      modifies this, l2
      ensures Valid()
      ensures r == (if slot >= SLOTS || !Address(dma, pages) || writable > 1 then Err(Invalid)
                    else if slot in old(slots) then Err(Busy)
                    else Ok(()))
      ensures slots == if r.Ok? then old(slots)[slot := Mapping(dma, pages, writable == 1)] else old(slots)
    {
      hide Word;
      if slot >= SLOTS || !Address(dma, pages) || writable > 1 {
        return Err(Invalid);
      }
      var start := First(slot);
      SlotWords(slots, slot);
      var free := AllZero(start, start + SLOT_PAGES);
      assert free <==> slot !in slots by {
        if slot in slots {
          assert l2[start + 1] == Word(slots, start + 1);
        }
      }
      if !free {
        return Err(Busy);
      }
      ghost var m := Mapping(dma, pages, writable == 1);
      for i := 0 to pages
        invariant slots == old(slots)
        invariant forall w :: 0 <= w < WORDS ==>
                    l2[w] == if start < w <= start + i then Entry(m, w - start - 1) else Word(slots, w)
      {
        var pte := SetValid(dma / PAGE + i);
        l2[start + 1 + i] := if writable == 1 then SetWrite(pte) else pte;
      }
      forall w | 0 <= w < WORDS
        ensures l2[w] == Word(slots[slot := m], w)
      {
        MapWords(slots, slot, m, w);
      }
      slots := slots[slot := m];
      assert l2[..] == Render(slots);
      r := Ok(());
    }

    // MmuUnmap succeeds exactly when the slot holds a mapping of that size.
    method Unmap(slot: nat, pages: nat) returns (r: Result<()>)
      requires Valid()
      modifies this, l2
      ensures Valid()
      ensures r == (if slot >= SLOTS || pages == 0 || pages > MAX_PAGES then Err(Invalid)
                    else if slot in old(slots) && old(slots)[slot].pages == pages then Ok(())
                    else Err(Drift))
      ensures slots == if r.Ok? then old(slots) - {slot} else old(slots)
    {
      hide Word;
      if slot >= SLOTS || pages == 0 || pages > MAX_PAGES {
        return Err(Invalid);
      }
      var start := First(slot);
      SlotWords(slots, slot);
      var valid := AllValid(start + 1, start + pages + 1);
      var zero := AllZero(start + pages + 1, start + SLOT_PAGES);
      assert l2[start] == Word(slots, start) == 0;
      assert valid && zero <==> slot in slots && slots[slot].pages == pages by {
        assert l2[start + pages] == Word(slots, start + pages);
        assert l2[start + pages + 1] == Word(slots, start + pages + 1);
      }
      if l2[start] != 0 || !valid || !zero {
        return Err(Drift);
      }
      for i := 1 to pages + 1
        invariant slots == old(slots)
        invariant forall w :: 0 <= w < WORDS ==> l2[w] == if start < w < start + i then 0 else Word(slots, w)
      {
        l2[start + i] := 0;
      }
      forall w | 0 <= w < WORDS
        ensures l2[w] == Word(slots - {slot}, w)
      {
        UnmapWords(slots, slot, w);
      }
      slots := slots - {slot};
      assert l2[..] == Render(slots);
      r := Ok(());
    }

    // MmuWalk on the live table.
    method Translate(iova: nat, write: nat) returns (dma: nat, r: Result<()>)
      requires Valid()
      ensures r.Ok? <==> write <= 1 && exists slot, at :: Names(slots, iova, slot, at) && (write == 1 ==> slots[slot].writable)
      ensures r.Ok? ==> forall slot, at :: Names(slots, iova, slot, at) ==> dma == slots[slot].dma + at
      ensures !r.Ok? ==> dma == 0 && r == Err(Invalid)
    {
      dma := 0;
      if write > 1 || iova < IOVA_BASE || iova - IOVA_BASE >= PAGE * WORDS {
        r := Err(Invalid);
      } else {
        var pte := l2[(iova - IOVA_BASE) / PAGE];
        if !ValidBit(pte) || (write != 0 && !WriteBit(pte)) {
          r := Err(Invalid);
        } else {
          dma := Frame(pte) * PAGE + iova % PAGE;
          r := Ok(());
        }
      }
      assert Walk(l2[..], iova, write) == if r.Ok? then Ok(dma) else Err(Invalid);
      if r.Ok? {
        var slot, at := WalkedFrom(slots, iova, write);
      }
      forall slot, at | Names(slots, iova, slot, at)
        ensures write <= 1 && (write == 1 ==> slots[slot].writable) ==> r.Ok? && dma == slots[slot].dma + at
      {
        if write <= 1 {
          WalkInside(slots, slot, at, write);
        }
      }
    }
  }
}
