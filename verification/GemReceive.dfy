// Receiving in the GEM Ethernet miniport (rp1-ethernet/miniport.c,
// rp1-ethernet/gem.c): a ring of descriptors that the DMA engine fills and the
// driver empties, with the engine free to run before any access of the driver.
module GemReceive {
  import opened GemRing

  const BUFFER: nat := 2048
  const BATCH: nat := 64
  const START_OF_FRAME: nat := 0x4000
  const END_OF_FRAME: nat := 0x8000

  // What the engine leaves in a slot: the buffer's bytes and the control word.
  datatype Landing = Landing(bytes: seq<nat>, control: nat)

  // The descriptors' two words, and the buffers.
  datatype Slots = Slots(address: seq<nat>, control: seq<nat>, data: seq<seq<nat>>)

  // gem_rx_length: a whole frame of a sensible size, or nothing.
  function RxLength(control: nat): (length: nat)
    ensures length == 0 || FRAME_MIN <= length <= FRAME_MAX
  {
    var size := control % 0x1000;
    if control / START_OF_FRAME % 2 == 0 || control / END_OF_FRAME % 2 == 0 || size < FRAME_MIN || size > FRAME_MAX then 0 else size
  }

  // The control word of a whole frame carries its length below, both frame bits
  // above, and more besides; without both bits, or out of size, it counts nothing.
  lemma RxWord(size: nat, flags: nat, start: bool, end: bool, rest: nat)
    requires size < 0x1000 && flags < 4
    ensures var control := size + 0x1000 * flags + (if start then 0x4000 else 0) + (if end then 0x8000 else 0) + 0x10000 * rest;
            RxLength(control) == if start && end && 14 <= size <= FRAME_MAX then size else 0
  {
    var low, high := (if start then 1 else 0), (if end then 1 else 0);
    By1000(flags + 4 * low + 8 * high + 16 * rest, size);
    By4000(low + 2 * (high + 2 * rest), size + 0x1000 * flags);
    By8000(high + 2 * rest, size + 0x1000 * flags + 0x4000 * low);
    Odd(high + 2 * rest, low);
    Odd(rest, high);
  }

  lemma By1000(q: nat, r: nat)
    requires r < 0x1000
    ensures (0x1000 * q + r) % 0x1000 == r
  {
  }

  lemma By4000(q: nat, r: nat)
    requires r < 0x4000
    ensures (0x4000 * q + r) / 0x4000 == q
  {
  }

  lemma By8000(q: nat, r: nat)
    requires r < 0x8000
    ensures (0x8000 * q + r) / 0x8000 == q
  {
  }

  lemma Odd(q: nat, r: nat)
    requires r < 2
    ensures (r + 2 * q) % 2 == r
  {
  }

  // ----- the address word -----

  predicate Owned(address: nat) {
    address % 2 == 1
  }

  predicate WrapsAround(address: nat) {
    address / 2 % 2 == 1
  }

  // Where slot i's buffer is, with the wrap bit on the last.
  function Home(base: nat, i: nat): nat {
    base + i * BUFFER + if i == N - 1 then 2 else 0
  }

  // The buffer that an address word names, and the slot after it.
  function BufferAt(base: nat, address: nat): int {
    (address / 4 * 4 - base) / BUFFER
  }

  lemma HomeIs(base: nat, i: nat)
    requires base % 4096 == 0 && i < N
    ensures var a := Home(base, i); !Owned(a) && Owned(a + 1) && (WrapsAround(a) <==> i == N - 1) && BufferAt(base, a) == i
  {
    hide Owned, WrapsAround;
    var w := if i == N - 1 then 2 else 0;
    var q := 1024 * (base / 4096) + 512 * i;
    assert Home(base, i) == 4 * q + w && 4 * q - base == BUFFER * i;
    LowBits(q, w);
  }

  // The two low bits of an aligned address.
  lemma LowBits(q: nat, w: nat)
    requires w == 0 || w == 2
    ensures var a := 4 * q + w; a / 4 == q && !Owned(a) && Owned(a + 1) && (WrapsAround(a) <==> w == 2)
  {
    if w == 0 {
      assert (4 * q) / 4 == q && (4 * q) / 2 == 2 * q && (4 * q) % 2 == 0;
    } else {
      assert (4 * q + 2) / 4 == q && (4 * q + 2) / 2 == 2 * q + 1 && (4 * q + 2) % 2 == 0;
    }
  }

  // ----- the ring -----

  // Position k holds a frame for the driver; the first may have its control word
  // cleared already.
  ghost predicate Full(v: Slots, base: nat, landed: seq<Landing>, k: nat, taken: nat, cleared: bool)
    requires |v.address| == |v.control| == |v.data| == N && k < |landed|
  {
    && v.address[At(k)] == Home(base, At(k)) + 1 && v.data[At(k)] == landed[k].bytes
    && (!cleared || k != taken ==> v.control[At(k)] == landed[k].control)
  }

  // Positions from `taken` on that have landed hold their frames, and all others
  // are free for the engine.
  ghost predicate RxRing(v: Slots, base: nat, landed: seq<Landing>, taken: nat, cleared: bool) {
    && |v.address| == |v.control| == |v.data| == N && base % 4096 == 0
    && taken <= |landed| <= taken + N && (cleared ==> taken < |landed|)
    && (forall k :: 0 <= k < |landed| ==> |landed[k].bytes| == BUFFER)
    && (forall k :: taken <= k < |landed| ==> Full(v, base, landed, k, taken, cleared))
    && (forall k :: |landed| <= k < taken + N ==> v.address[At(k)] == Home(base, At(k)))
  }

  lemma RxRingStart(v: Slots, base: nat)
    requires |v.address| == |v.control| == |v.data| == N && base % 4096 == 0
    requires forall i :: 0 <= i < N ==> v.address[i] == Home(base, i)
    ensures RxRing(v, base, [], 0, false)
  {
  }

  // The engine finds its slot free exactly while the ring has room, and then the
  // address word leads to that slot's own buffer.
  lemma RxRingRoom(v: Slots, base: nat, landed: seq<Landing>, taken: nat, cleared: bool)
    requires RxRing(v, base, landed, taken, cleared)
    ensures var i := At(|landed|); var a := v.address[i];
            && (Owned(a) <==> |landed| == taken + N)
            && (!Owned(a) ==> BufferAt(base, a) == i && (WrapsAround(a) <==> i == N - 1) && a == Home(base, i))
  {
    hide At;
    HomeIs(base, At(|landed|));
    if |landed| == taken + N {
      assert Full(v, base, landed, taken, taken, cleared);
      Round(taken);
    }
  }

  lemma Round(k: nat)
    ensures At(k + N) == At(k)
  {
  }

  // Whatever the engine does to the buffer of a free slot disturbs nothing.
  lemma RxRingScribble(v: Slots, base: nat, landed: seq<Landing>, taken: nat, cleared: bool, bytes: seq<nat>)
    requires RxRing(v, base, landed, taken, cleared) && |landed| < taken + N
    ensures RxRing(v.(data := v.data[At(|landed|) := bytes]), base, landed, taken, cleared)
  {
    hide At, Home;
    Apart();
    var w := v.(data := v.data[At(|landed|) := bytes]);
    forall k | taken <= k < |landed|
      ensures Full(w, base, landed, k, taken, cleared)
    {
      assert Full(v, base, landed, k, taken, cleared);
    }
  }

  // A frame lands in a free slot.
  lemma RxRingLand(v: Slots, base: nat, landed: seq<Landing>, taken: nat, cleared: bool, l: Landing)
    requires RxRing(v, base, landed, taken, cleared) && |landed| < taken + N && |l.bytes| == BUFFER
    ensures var i := At(|landed|);
            RxRing(Slots(v.address[i := v.address[i] + 1], v.control[i := l.control], v.data[i := l.bytes]), base, landed + [l], taken, cleared)
  {
    hide At, Home;
    Apart();
    var i, after := At(|landed|), landed + [l];
    var w := Slots(v.address[i := v.address[i] + 1], v.control[i := l.control], v.data[i := l.bytes]);
    forall k | taken <= k < |after|
      ensures Full(w, base, after, k, taken, cleared)
    {
      if k < |landed| {
        assert Full(v, base, landed, k, taken, cleared);
      }
    }
  }

  // The driver sees a frame exactly if one has landed, and sees what landed.
  lemma RxRingShows(v: Slots, base: nat, landed: seq<Landing>, taken: nat)
    requires RxRing(v, base, landed, taken, false)
    ensures var i := At(taken);
            && (Owned(v.address[i]) <==> taken < |landed|)
            && (taken < |landed| ==> v.control[i] == landed[taken].control && v.data[i] == landed[taken].bytes && v.address[i] == Home(base, i) + 1)
  {
    hide At;
    HomeIs(base, At(taken));
    if taken < |landed| {
      assert Full(v, base, landed, taken, taken, false);
    }
  }

  lemma RxRingClear(v: Slots, base: nat, landed: seq<Landing>, taken: nat)
    requires RxRing(v, base, landed, taken, false) && taken < |landed|
    ensures RxRing(v.(control := v.control[At(taken) := 0]), base, landed, taken, true)
  {
    hide At, Home;
    Apart();
    var w := v.(control := v.control[At(taken) := 0]);
    forall k | taken <= k < |landed|
      ensures Full(w, base, landed, k, taken, true)
    {
      assert Full(v, base, landed, k, taken, false);
    }
  }

  // Giving the slot back is the last thing that happens to it.
  lemma RxRingRecycle(v: Slots, base: nat, landed: seq<Landing>, taken: nat)
    requires RxRing(v, base, landed, taken, true)
    ensures v.address[At(taken)] == Home(base, At(taken)) + 1
    ensures RxRing(v.(address := v.address[At(taken) := Home(base, At(taken))]), base, landed, taken + 1, false)
  {
    hide At, Home;
    Apart();
    Round(taken);
    assert Full(v, base, landed, taken, taken, true);
    var w := v.(address := v.address[At(taken) := Home(base, At(taken))]);
    var t := taken + 1;
    forall k | t <= k < |landed|
      ensures Full(w, base, landed, k, t, false)
    {
      assert Full(v, base, landed, k, taken, true);
    }
    forall k | |landed| <= k < taken + 1 + N
      ensures w.address[At(k)] == Home(base, At(k))
    {
      assert k < taken + N || k == taken + N;
    }
  }

  // ----- what is indicated -----

  // The packet filter looks at the frame's destination address.
  type Filter = seq<nat> -> bool

  function FrameOf(l: Landing): seq<nat>
    requires |l.bytes| == BUFFER
  {
    l.bytes[..RxLength(l.control)]
  }

  predicate Wanted(l: Landing, filter: Filter)
    requires |l.bytes| == BUFFER
  {
    RxLength(l.control) > 0 && filter(FrameOf(l))
  }

  // The good frames among them, in order.
  function Indicated(ls: seq<Landing>, filter: Filter): seq<seq<nat>>
    requires forall k :: 0 <= k < |ls| ==> |ls[k].bytes| == BUFFER
  {
    if ls == [] then []
    else
      var l := ls[|ls| - 1];
      Indicated(ls[..|ls| - 1], filter) + if Wanted(l, filter) then [FrameOf(l)] else []
  }

  // The bad ones among them.
  function Errors(ls: seq<Landing>): nat {
    if ls == [] then 0 else Errors(ls[..|ls| - 1]) + if RxLength(ls[|ls| - 1].control) == 0 then 1 else 0
  }

  lemma ErrorsSnoc(ls: seq<Landing>, taken: nat)
    requires taken < |ls|
    ensures Errors(ls[..taken + 1]) == Errors(ls[..taken]) + if RxLength(ls[taken].control) == 0 then 1 else 0
  {
    assert ls[..taken + 1][..taken] == ls[..taken];
  }

  lemma IndicatedSnoc(ls: seq<Landing>, taken: nat, filter: Filter)
    requires taken < |ls| && forall k :: 0 <= k < |ls| ==> |ls[k].bytes| == BUFFER
    ensures Indicated(ls[..taken + 1], filter) == Indicated(ls[..taken], filter) + if Wanted(ls[taken], filter) then [FrameOf(ls[taken])] else []
  {
    assert ls[..taken + 1][..taken] == ls[..taken];
  }

  class Receiver {
    const address: array<nat>
    const control: array<nat>
    const data: array<seq<nat>>
    const base: nat
    const filter: Filter
    var rxHead: nat
    var running: bool
    var errors: nat
    var filtered: nat
    // The engine's own ring index.
    var next: nat
    // Since the last start: what has landed, how much of it the driver has taken,
    // and what it has indicated.
    ghost var landed: seq<Landing>
    ghost var taken: nat
    ghost var indicated: seq<seq<nat>>

    ghost function V(): Slots
      reads address, control, data
    {
      Slots(address[..], control[..], data[..])
    }

    ghost predicate Held(cleared: bool)
      reads this`landed, this`taken, this`next, address, control, data
    {
      address != control && RxRing(V(), base, landed, taken, cleared) && next == At(|landed|)
    }

    ghost predicate Booked()
      reads this`landed, this`taken, this`indicated, this`rxHead, this`errors, this`filtered
    {
      && taken <= |landed| && (forall k :: 0 <= k < |landed| ==> |landed[k].bytes| == BUFFER)
      && rxHead == At(taken)
      // Every frame taken was indicated, once and in order, unless it was bad or
      // not wanted, and then it was counted.
      && indicated == Indicated(landed[..taken], filter)
      && errors == Errors(landed[..taken]) && taken == |indicated| + errors + filtered
    }

    ghost predicate Valid()
      reads this, address, control, data
    {
      Held(false) && Booked()
    }

    // gem_init_rings and StartHardware; counters of an earlier start are set aside.
    constructor (base: nat, filter: Filter)
      requires base % 4096 == 0
      ensures Valid() && running && landed == [] && taken == 0 && fresh(address) && fresh(control) && fresh(data)
    {
      this.base, this.filter := base, filter;
      address := new nat[N](i requires 0 <= i => Home(base, i));
      control := new nat[N](_ => 0);
      data := new seq<nat>[N](_ => []);
      rxHead, running, errors, filtered, next := 0, true, 0, 0, 0;
      landed, taken, indicated := [], 0, [];
      new;
      RxRingStart(V(), base);
    }

    // The engine takes any number of steps: it writes into the buffer that the
    // descriptor names, and then hands the slot over. A stop may come as well.
    method Hardware(ghost cleared: bool)
      requires Held(cleared)
      modifies address, control, data, this`next, this`landed, this`running
      ensures Held(cleared) && taken == old(taken) && old(landed) <= landed && (running ==> old(running))
    {
      hide RxRing, At, Home;
      var steps: nat :| true;
      for s := 0 to steps
        invariant Held(cleared) && old(landed) <= landed && (running ==> old(running))
      {
        var stop: bool :| true;
        running := running && !stop;
        Engine(cleared);
      }
    }

    method Engine(ghost cleared: bool)
      requires Held(cleared)
      modifies address, control, data, this`next, this`landed
      ensures Held(cleared) && old(landed) <= landed
    {
      hide RxRing, At, Home;
      Sizes(cleared);
      RxRingRoom(V(), base, landed, taken, cleared);
      var a := address[next];
      if Owned(a) {
        return;
      }
      var bytes := Some();
      var whole: bool, word: nat :| true;
      if whole {
        Land(a, Landing(bytes, word), cleared);
      } else {
        RxRingScribble(V(), base, landed, taken, cleared, bytes);
        ghost var before := V();
        data[BufferAt(base, a)] := bytes;
        assert V() == before.(data := before.data[next := bytes]);
      }
    }

    method Land(a: nat, l: Landing, ghost cleared: bool)
      requires Held(cleared) && |landed| < taken + N && |l.bytes| == BUFFER && next < N && address.Length == N && a == address[next]
      requires BufferAt(base, a) == next && (WrapsAround(a) <==> next == N - 1)
      requires control.Length == data.Length == N
      modifies address, control, data, this`next, this`landed
      ensures Held(cleared) && landed == old(landed) + [l]
    {
      hide RxRing, At, Home, BufferAt, WrapsAround;
      RxRingLand(V(), base, landed, taken, cleared, l);
      Next(|landed|);
      ghost var before := V();
      data[BufferAt(base, a)] := l.bytes;
      control[next] := l.control;
      address[next] := a + 1;
      assert V() == Slots(before.address[next := a + 1], before.control[next := l.control], before.data[next := l.bytes]);
      landed := landed + [l];
      next := if WrapsAround(a) then 0 else next + 1;
    }

    // Whatever a frame, or part of one, leaves in the buffer.
    method Some() returns (bytes: seq<nat>)
      ensures |bytes| == BUFFER
    {
      assert |seq(BUFFER, _ => 0)| == BUFFER;
      bytes :| |bytes| == BUFFER;
    }

    lemma Sizes(cleared: bool)
      requires Held(cleared)
      ensures address.Length == control.Length == data.Length == N && next < N && base % 4096 == 0 && address != control
      ensures taken <= |landed| <= taken + N && forall k :: 0 <= k < |landed| ==> |landed[k].bytes| == BUFFER
    {
      assert |V().address| == N && |V().control| == N && |V().data| == N;
    }

    // Receive. The frames taken are the oldest that have landed; the good ones
    // among them are indicated in order. It ends early only if nothing is left, the
    // batch or the limit is used up, or the adapter stops.
    method Receive(limit: nat) returns (frames: seq<seq<nat>>)
      requires Valid()
      modifies this, address, control, data
      ensures Valid() && old(landed) <= landed && old(taken) <= taken <= old(taken) + BATCH
      ensures indicated == old(indicated) + frames && |frames| <= limit
      ensures taken == old(taken) + BATCH || |frames| == limit || !running || |old(landed)| <= taken
    {
      hide RxRing, Booked, Held;
      frames := [];
      var n := 0;
      while n < BATCH && |frames| < limit
        invariant Valid() && n <= BATCH && old(landed) <= landed && taken == old(taken) + n
        invariant indicated == old(indicated) + frames && |frames| <= limit
      {
        var took, accepted, frame := TakeNext();
        if !took {
          return;
        }
        if accepted {
          frames := frames + [frame];
        }
        n := n + 1;
      }
    }

    // One slot: copy, clear, give back.
    method TakeNext() returns (took: bool, accepted: bool, frame: seq<nat>)
      requires Valid()
      modifies this, address, control, data
      ensures Valid() && old(landed) <= landed && taken == old(taken) + if took then 1 else 0
      ensures indicated == old(indicated) + if took && accepted then [frame] else []
      ensures !took ==> !running || |old(landed)| <= taken
      ensures took ==> old(taken) < |landed| && (accepted <==> Wanted(landed[old(taken)], filter)) && (accepted ==> frame == FrameOf(landed[old(taken)]))
    {
      hide RxRing, At, Home, Indicated, Errors, RxLength, Held;
      accepted, frame := false, [];
      Hardware(false);
      assert landed[..taken] == old(landed)[..taken];
      Sizes(false);
      RxRingIs(false);
      RxRingShows(V(), base, landed, taken);
      var slot := rxHead;
      var a := address[slot];
      took := running && Owned(a);
      if !took {
        return;
      }
      ghost var l := landed[taken];
      var length := RxLength(control[slot]);
      if length > 0 {
        frame := data[slot][..length];
        accepted := filter(frame);
        if !accepted {
          filtered := filtered + 1;
        }
      } else {
        errors := errors + 1;
      }
      Recycle(slot, a, accepted, frame);
    }

    lemma RxRingIs(cleared: bool)
      requires Held(cleared)
      ensures RxRing(V(), base, landed, taken, cleared)
    {
    }

    // The descriptor goes back as it was when the ring was made.
    method Recycle(slot: nat, a: nat, accepted: bool, frame: seq<nat>)
      requires Held(false) && taken < |landed| && slot == rxHead == At(taken) && slot < address.Length == control.Length == N
      requires a == Home(base, slot) + 1
      requires (forall k :: 0 <= k < |landed| ==> |landed[k].bytes| == BUFFER)
      requires errors == Errors(landed[..taken]) + if RxLength(landed[taken].control) == 0 then 1 else 0
      requires indicated == Indicated(landed[..taken], filter) && taken + 1 == |indicated| + errors + filtered + if accepted then 1 else 0
      requires accepted == Wanted(landed[taken], filter) && (accepted ==> frame == FrameOf(landed[taken]))
      modifies this, address, control, data
      ensures Valid() && old(landed) <= landed && taken == old(taken) + 1 && (running ==> old(running))
      ensures indicated == old(indicated) + if accepted then [frame] else []
    {
      hide RxRing, At, Home, Indicated, Errors, RxLength, Wanted, FrameOf, Held;
      Clear(slot);
      Hardware(true);
      Sizes(true);
      GiveBack(slot, a);
      assert landed[..taken - 1] == old(landed)[..taken - 1];
      IndicatedSnoc(landed, taken - 1, filter);
      ErrorsSnoc(landed, taken - 1);
      Next(taken - 1);
      if accepted {
        indicated := indicated + [frame];
      }
      rxHead := (slot + 1) % N;
    }

    method Clear(slot: nat)
      requires Held(false) && taken < |landed| && slot == At(taken) && slot < control.Length
      modifies control
      ensures Held(true)
    {
      hide RxRing, At;
      RxRingClear(V(), base, landed, taken);
      ghost var before := V();
      control[slot] := 0;
      assert V() == before.(control := before.control[slot := 0]);
    }

    method GiveBack(slot: nat, a: nat)
      requires Held(true) && slot == At(taken) && slot < address.Length == N && a == Home(base, slot) + 1
      modifies address, this`taken
      ensures Held(false) && taken == old(taken) + 1
    {
      hide RxRing, At;
      RxRingRecycle(V(), base, landed, taken);
      ghost var before := V();
      address[slot] := a - 1;
      assert V() == before.(address := before.address[slot := Home(base, slot)]);
      taken := taken + 1;
    }
  }
}
