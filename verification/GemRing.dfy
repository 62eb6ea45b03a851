// The transmit ring of the GEM Ethernet miniport (rp1-ethernet/miniport.c,
// rp1-ethernet/gem.c) as values. Slots are named by the position they have in
// the run since the last start, so that position k uses ring index At(k).
module GemRing {
  const N: nat := 512
  const FRAME_MIN: nat := 14
  const FRAME_MAX: nat := 1514

  // A NET_BUFFER_LIST handed over to the miniport; `token` tells hand-overs apart.
  datatype Nbl = Nbl(token: nat, cancelId: nat, frames: seq<seq<nat>>)
  datatype Holder = Nobody | Held(nbl: Nbl)
  datatype TxSlot = TxSlot(holder: Holder, length: nat, last: bool)

  // One published frame, padded, of the owner-th list accepted.
  datatype Entry = Entry(owner: nat, nbl: Nbl, frame: seq<nat>, last: bool)

  function At(k: nat): (i: nat)
    ensures i < N
  {
    k % N
  }

  lemma Apart()
    ensures forall a: nat, b: nat {:trigger At(a), At(b)} :: a < b < a + N ==> At(a) != At(b)
  {
  }

  lemma Next(k: nat)
    ensures At(k + 1) == (At(k) + 1) % N == if At(k) == N - 1 then 0 else At(k) + 1
  {
  }

  lemma Advance(k: nat, n: nat)
    ensures (At(k) + n) % N == At(k + n)
  {
  }

  // ----- descriptor control words -----

  const LAST: nat := 0x8000
  const ERROR: nat := 0x8000000
  const WRAP: nat := 0x40000000
  const USED: nat := 0x80000000

  function Length(c: nat): nat {
    c % 0x4000
  }

  predicate Used(c: nat) {
    c / USED % 2 == 1
  }

  predicate Wraps(c: nat) {
    c / WRAP % 2 == 1
  }

  predicate Failed(c: nat) {
    c / ERROR % 8 != 0
  }

  // The word that gives descriptor `i` to the hardware, and what it writes back.
  function Word(length: nat, i: nat): nat {
    length + LAST + if i == N - 1 then WRAP else 0
  }

  function WrittenBack(c: nat, errors: nat): nat {
    c + errors * ERROR + USED
  }

  lemma Words(length: nat, i: nat, errors: nat)
    requires length < 0x4000 && errors < 8
    ensures var c := Word(length, i);
            && !Used(c) && Length(c) == length && (Wraps(c) <==> i == N - 1)
            && Used(WrittenBack(c, errors)) && (Failed(WrittenBack(c, errors)) <==> errors != 0)
  {
  }

  // ----- lists and their frames -----

  // Frames shorter than the 60 bytes of Ethernet's minimum are filled with zeros.
  function Pad(frame: seq<nat>): (r: seq<nat>)
    ensures frame <= r
  {
    if |frame| < 60 then frame + seq(60 - |frame|, _ => 0) else frame
  }

  lemma Padded(frame: seq<nat>)
    ensures 60 <= |Pad(frame)| && (60 <= |frame| ==> Pad(frame) == frame)
    ensures |frame| < 60 ==> |Pad(frame)| == 60 && forall k :: |frame| <= k < 60 ==> Pad(frame)[k] == 0
  {
  }

  predicate Fits(frame: seq<nat>) {
    FRAME_MIN <= |frame| <= FRAME_MAX
  }

  predicate Sendable(nbl: Nbl) {
    0 < |nbl.frames| < N && forall j :: 0 <= j < |nbl.frames| ==> Fits(nbl.frames[j])
  }

  function EntriesOf(owner: nat, nbl: Nbl): (es: seq<Entry>)
    ensures |es| == |nbl.frames|
  {
    seq(|nbl.frames|, j requires 0 <= j < |nbl.frames| => Entry(owner, nbl, Pad(nbl.frames[j]), j + 1 == |nbl.frames|))
  }

  function Flatten(lists: seq<Nbl>): seq<Entry> {
    if lists == [] then []
    else
      var n := |lists| - 1;
      Flatten(lists[..n]) + EntriesOf(n, lists[n])
  }

  lemma FlattenSnoc(lists: seq<Nbl>, nbl: Nbl)
    ensures Flatten(lists + [nbl]) == Flatten(lists) + EntriesOf(|lists|, nbl)
  {
    assert (lists + [nbl])[..|lists|] == lists;
  }

  ghost predicate AllSendable(lists: seq<Nbl>) {
    forall i :: 0 <= i < |lists| ==> Sendable(lists[i])
  }

  // The list that owns the frame at position k, counting on past the end.
  function OwnerAt(es: seq<Entry>, lists: seq<Nbl>, k: nat): nat
    requires k <= |es|
  {
    if k < |es| then es[k].owner else |lists|
  }

  // Each list's frames stand together, in order, and exactly its final one is
  // marked: that mark is where the owner changes.
  ghost predicate Grouped(es: seq<Entry>, lists: seq<Nbl>) {
    && OwnerAt(es, lists, 0) == 0
    && (forall k :: 0 <= k < |es| ==>
          && es[k].owner < |lists| && es[k].nbl == lists[es[k].owner] && |es[k].frame| <= FRAME_MAX
          && OwnerAt(es, lists, k + 1) == es[k].owner + (if es[k].last then 1 else 0))
  }

  lemma GroupedAt(es: seq<Entry>, lists: seq<Nbl>, k: nat)
    requires Grouped(es, lists) && k < |es|
    ensures es[k].owner < |lists| && es[k].nbl == lists[es[k].owner]
    ensures OwnerAt(es, lists, k + 1) == es[k].owner + (if es[k].last then 1 else 0)
  {
  }

  lemma {:induction false} FlattenGrouped(lists: seq<Nbl>)
    requires AllSendable(lists)
    ensures Grouped(Flatten(lists), lists)
  {
    if lists != [] {
      var n := |lists| - 1;
      FlattenGrouped(lists[..n]);
      var front, es := Flatten(lists[..n]), Flatten(lists);
      forall k | 0 <= k < |es|
        ensures && es[k].owner < |lists| && es[k].nbl == lists[es[k].owner] && |es[k].frame| <= FRAME_MAX
                && OwnerAt(es, lists, k + 1) == es[k].owner + (if es[k].last then 1 else 0)
      {
        if k < |front| {
          assert es[k] == front[k];
          assert OwnerAt(front, lists[..n], k + 1) == OwnerAt(es, lists, k + 1);
        } else {
          var j := k - |front|;
          assert Fits(lists[n].frames[j]);
          assert es[k] == EntriesOf(n, lists[n])[j];
          assert j + 1 < |lists[n].frames| ==> es[k + 1] == EntriesOf(n, lists[n])[j + 1];
        }
      }
      assert OwnerAt(es, lists, 0) == 0 by {
        if front == [] {
          assert es[0] == EntriesOf(n, lists[n])[0];
          assert OwnerAt(front, lists[..n], 0) == n;
        } else {
          assert es[0] == front[0];
        }
      }
    }
  }

  lemma {:induction false} OwnersRise(es: seq<Entry>, lists: seq<Nbl>, j: nat, k: nat)
    requires Grouped(es, lists) && j <= k <= |es|
    ensures OwnerAt(es, lists, j) <= OwnerAt(es, lists, k) <= |lists|
    ensures j < k && es[j].last ==> es[j].owner < OwnerAt(es, lists, k)
    decreases k
  {
    hide Grouped;
    if j < k {
      OwnersRise(es, lists, j, k - 1);
      GroupedAt(es, lists, k - 1);
    } else if k < |es| {
      GroupedAt(es, lists, k);
    }
  }

  // The lists whose final frame stands in a stretch of the ring.
  function Lasts(es: seq<Entry>): seq<Nbl> {
    if es == [] then [] else (if es[0].last then [es[0].nbl] else []) + Lasts(es[1..])
  }

  // From position k on, those are just the lists from its owner on.
  lemma {:induction false} LastsFrom(es: seq<Entry>, lists: seq<Nbl>, k: nat)
    requires Grouped(es, lists) && k <= |es|
    ensures OwnerAt(es, lists, k) <= |lists| && Lasts(es[k..]) == lists[OwnerAt(es, lists, k)..]
    decreases |es| - k
  {
    hide Grouped;
    if k < |es| {
      LastsFrom(es, lists, k + 1);
      assert es[k..][1..] == es[k + 1..];
      GroupedAt(es, lists, k);
    }
  }

  // ----- the ring -----

  // The driver's slots, and the descriptors and buffers shared with the hardware.
  datatype View = View(tx: seq<TxSlot>, control: seq<nat>, data: seq<seq<nat>>)

  // All entries published or being published, how many of them the driver has
  // retired, the hardware has sent, and the hardware may send; how each went.
  datatype Line = Line(tail: nat, wire: nat, head: nat, entries: seq<Entry>, errors: seq<bool>)

  // While a list is published backwards, its entries from `m` on are in place.
  ghost predicate Shape(v: View, l: Line, m: nat) {
    && |v.tx| == |v.control| == |v.data| == N
    && l.tail <= l.wire <= l.head <= m <= |l.entries| < l.tail + N
    && |l.errors| == l.wire
    && forall k :: 0 <= k < |l.entries| ==> |l.entries[k].frame| <= FRAME_MAX
  }

  predicate Live(l: Line, m: nat, from: nat, k: nat) {
    from <= k < l.head || m <= k < |l.entries|
  }

  predicate Spare(l: Line, m: nat, k: nat) {
    l.head <= k < m || |l.entries| <= k < l.tail + N
  }

  predicate StagedAt(v: View, i: nat, frame: seq<nat>) {
    i < |v.tx| && i < |v.data| && v.tx[i].length == |frame| && frame <= v.data[i]
  }

  ghost predicate Loaded(v: View, l: Line, m: nat)
    requires Shape(v, l, m)
  {
    forall k: nat :: Live(l, m, l.tail, k) && k < |l.entries| ==>
                  v.tx[At(k)].holder == Held(l.entries[k].nbl) && v.tx[At(k)].last == l.entries[k].last
  }

  ghost predicate Staged(v: View, l: Line, m: nat)
    requires Shape(v, l, m)
  {
    forall k :: l.tail <= k < |l.entries| ==> StagedAt(v, At(k), l.entries[k].frame)
  }

  ghost predicate Armed(v: View, l: Line, m: nat)
    requires Shape(v, l, m)
  {
    forall k: nat :: Live(l, m, l.wire, k) && k < |l.entries| ==> v.control[At(k)] == Word(|l.entries[k].frame|, At(k))
  }

  ghost predicate Finished(v: View, l: Line, m: nat)
    requires Shape(v, l, m)
  {
    forall k :: l.tail <= k < l.wire ==> Used(v.control[At(k)]) && (Failed(v.control[At(k)]) <==> l.errors[k])
  }

  ghost predicate Empty(v: View, l: Line, m: nat)
    requires Shape(v, l, m)
  {
    forall k: nat :: Spare(l, m, k) ==> v.tx[At(k)].holder == Nobody && Used(v.control[At(k)])
  }

  ghost predicate Ring(v: View, l: Line, m: nat) {
    Shape(v, l, m) && Loaded(v, l, m) && Staged(v, l, m) && Armed(v, l, m) && Finished(v, l, m) && Empty(v, l, m)
  }

  // gem_init_rings, and the driver's slots as StopHardware leaves them.
  lemma RingStart(v: View)
    requires |v.tx| == |v.control| == |v.data| == N
    requires forall i :: 0 <= i < N ==> v.tx[i].holder == Nobody && Used(v.control[i])
    ensures Ring(v, Line(0, 0, 0, [], []), 0)
  {
  }

  // The hardware's next descriptor. It stops there exactly if nothing more has
  // been handed over; a list being published never shows.
  lemma HardwareStops(v: View, l: Line, m: nat)
    requires Ring(v, l, m) && (l.head < m || m == |l.entries|)
    ensures Used(v.control[At(l.wire)]) <==> l.wire == l.head
  {
    if l.wire < l.head {
      assert Live(l, m, l.wire, l.wire);
      Words(|l.entries[l.wire].frame|, At(l.wire), 0);
    } else {
      assert Spare(l, m, l.wire);
    }
  }

  // Otherwise it sends the frame staged there, writes back and moves on.
  lemma HardwareSends(v: View, l: Line, m: nat, errors: nat)
    requires Ring(v, l, m) && l.wire < l.head && errors < 8
    ensures var i, c := At(l.wire), v.control[At(l.wire)];
            && Length(c) <= |v.data[i]| && v.data[i][..Length(c)] == l.entries[l.wire].frame
            && At(l.wire + 1) == (if Wraps(c) then 0 else i + 1)
            && Ring(v.(control := v.control[i := WrittenBack(c, errors)]),
                    l.(wire := l.wire + 1, errors := l.errors + [errors != 0]), m)
  {
    hide At, Word, Used, Failed, Wraps, Length, WrittenBack;
    Apart();
    Next(l.wire);
    assert Live(l, m, l.wire, l.wire) && Live(l, m, l.tail, l.wire);
    Words(|l.entries[l.wire].frame|, At(l.wire), errors);
    var i, c := At(l.wire), v.control[At(l.wire)];
    var w := v.(control := v.control[i := WrittenBack(c, errors)]);
    var r := l.(wire := l.wire + 1, errors := l.errors + [errors != 0]);
    assert StagedAt(v, i, l.entries[l.wire].frame);
    assert forall k :: Live(r, m, r.wire, k) ==> Live(l, m, l.wire, k);
    assert forall k :: Live(r, m, r.tail, k) ==> Live(l, m, l.tail, k);
    assert forall k :: Spare(r, m, k) ==> Spare(l, m, k);
  }

  // Filling a spare slot's buffer changes nothing that is published.
  lemma RingStage(v: View, l: Line, frames: seq<seq<nat>>, t: nat, slot: TxSlot, data: seq<nat>)
    requires Ring(v, l, l.head) && l.head == |l.entries| && t < |frames| && l.head + t < l.tail + N
    requires slot == v.tx[At(l.head + t)].(length := |Pad(frames[t])|) && Pad(frames[t]) <= data
    requires forall u :: 0 <= u < t ==> StagedAt(v, At(l.head + u), Pad(frames[u]))
    ensures var i := At(l.head + t);
            var w := v.(tx := v.tx[i := slot], data := v.data[i := data]);
            Ring(w, l, l.head) && forall u :: 0 <= u <= t ==> StagedAt(w, At(l.head + u), Pad(frames[u]))
  {
    hide At, Word, Used, Failed;
    Apart();
    assert Spare(l, l.head, l.head + t);
  }

  lemma OpenStaged(v: View, l: Line, nbl: Nbl, owner: nat)
    requires Sendable(nbl) && l.head == |l.entries|
    requires forall t :: 0 <= t < |nbl.frames| ==> StagedAt(v, At(l.head + t), Pad(nbl.frames[t]))
    ensures var es := l.entries + EntriesOf(owner, nbl);
            forall k :: l.head <= k < |es| ==> |es[k].frame| <= FRAME_MAX && StagedAt(v, At(k), es[k].frame)
  {
    hide At;
    var es := l.entries + EntriesOf(owner, nbl);
    forall k | l.head <= k < |es|
      ensures |es[k].frame| <= FRAME_MAX && StagedAt(v, At(k), es[k].frame)
    {
      var t := k - l.head;
      assert es[k] == EntriesOf(owner, nbl)[t] && Fits(nbl.frames[t]);
      assert StagedAt(v, At(l.head + t), Pad(nbl.frames[t]));
    }
  }

  // The list's entries join the line, none of them published yet.
  lemma RingOpen(v: View, l: Line, nbl: Nbl, owner: nat)
    requires Ring(v, l, l.head) && l.head == |l.entries|
    requires Sendable(nbl) && |l.entries| + |nbl.frames| < l.tail + N
    requires forall t :: 0 <= t < |nbl.frames| ==> StagedAt(v, At(l.head + t), Pad(nbl.frames[t]))
    ensures Ring(v, l.(entries := l.entries + EntriesOf(owner, nbl)), l.head + |nbl.frames|)
  {
    hide At, Word, Used, Failed;
    var r, m := l.(entries := l.entries + EntriesOf(owner, nbl)), l.head + |nbl.frames|;
    OpenStaged(v, l, nbl, owner);
    hide EntriesOf, Pad, StagedAt, Sendable;
    assert forall k :: 0 <= k < l.head ==> r.entries[k] == l.entries[k];
    assert forall k :: Live(r, m, r.wire, k) ==> Live(l, l.head, l.wire, k);
    assert forall k :: Live(r, m, r.tail, k) ==> Live(l, l.head, l.tail, k);
    assert forall k :: Spare(r, m, k) ==> Spare(l, l.head, k);
  }

  // One step of publishing backwards.
  lemma RingPublish(v: View, l: Line, m: nat)
    requires Ring(v, l, m) && l.head < m
    ensures var i, e := At(m - 1), l.entries[m - 1];
            && v.tx[i].length == |e.frame|
            && Ring(v.(tx := v.tx[i := TxSlot(Held(e.nbl), |e.frame|, e.last)], control := v.control[i := Word(|e.frame|, i)]), l, m - 1)
  {
    hide At, Word, Used, Failed;
    Apart();
    assert StagedAt(v, At(m - 1), l.entries[m - 1].frame);
    assert forall k :: Live(l, m - 1, l.wire, k) ==> k == m - 1 || Live(l, m, l.wire, k);
    assert forall k :: Live(l, m - 1, l.tail, k) ==> k == m - 1 || Live(l, m, l.tail, k);
    forall k: nat | Spare(l, m - 1, k)
      ensures k != m - 1 && Spare(l, m, k)
    {
      assert l.head <= k < m - 1 || |l.entries| <= k;
      assert m <= |l.entries|;
    }
  }

  // With the first descriptor in place the whole list is the hardware's.
  lemma RingClose(v: View, l: Line)
    requires Ring(v, l, l.head)
    ensures Ring(v, l.(head := |l.entries|), |l.entries|)
  {
    hide At, Word, Used, Failed;
    var r := l.(head := |l.entries|);
    assert forall k :: Live(r, r.head, r.wire, k) ==> Live(l, l.head, l.wire, k);
    assert forall k :: Live(r, r.head, r.tail, k) ==> Live(l, l.head, l.tail, k);
    assert forall k :: Spare(r, r.head, k) ==> Spare(l, l.head, k);
  }

  lemma TailSent(v: View, l: Line)
    requires Ring(v, l, l.head) && l.head == |l.entries| && l.tail < l.head && Used(v.control[At(l.tail)])
    ensures l.tail < l.wire
  {
    hide At;
    HardwareStops(v, l, l.head);
    if l.tail == l.wire {
      assert false;
    }
  }

  // A used descriptor at the tail is one that the hardware has sent: its slot
  // holds its list, and retiring it keeps the ring.
  lemma RingRetire(v: View, l: Line)
    requires Ring(v, l, l.head) && l.head == |l.entries| && l.tail < l.head && Used(v.control[At(l.tail)])
    ensures l.tail < l.wire
    ensures var i, e := At(l.tail), l.entries[l.tail];
            && v.tx[i].holder == Held(e.nbl) && v.tx[i].last == e.last
            && (Failed(v.control[i]) <==> l.errors[l.tail])
            && Ring(v.(tx := v.tx[i := v.tx[i].(holder := Nobody)]), l.(tail := l.tail + 1), l.head)
  {
    hide At, Word, Used, Failed;
    TailSent(v, l);
    Apart();
    var r := l.(tail := l.tail + 1);
    assert Live(l, l.head, l.tail, l.tail);
    assert forall k :: Live(r, l.head, r.tail, k) ==> k != l.tail && Live(l, l.head, l.tail, k);
    assert forall k :: Live(r, l.head, r.wire, k) ==> Live(l, l.head, l.wire, k);
    assert forall k :: Spare(r, l.head, k) ==> k == l.tail + N || Spare(l, l.head, k);
    Same(l.tail);
  }

  lemma Same(k: nat)
    ensures At(k + N) == At(k)
  {
  }

  // ----- stopping -----

  // The lists whose final slot stands somewhere in the slots.
  function Pending(tx: seq<TxSlot>): seq<Nbl> {
    if tx == [] then [] else (if tx[0].holder.Held? && tx[0].last then [tx[0].holder.nbl] else []) + Pending(tx[1..])
  }

  lemma {:induction false} PendingConcat(a: seq<TxSlot>, b: seq<TxSlot>)
    ensures Pending(a + b) == Pending(a) + Pending(b)
  {
    if a == [] {
      assert a + b == b;
    } else {
      assert (a + b)[1..] == a[1..] + b;
      PendingConcat(a[1..], b);
    }
  }

  // Slots in the order of their positions, and the entries they hold.
  lemma {:induction false} PendingInOrder(tx: seq<TxSlot>, es: seq<Entry>)
    requires |es| <= |tx|
    requires forall j :: 0 <= j < |es| ==> tx[j].holder == Held(es[j].nbl) && tx[j].last == es[j].last
    requires forall j :: |es| <= j < |tx| ==> tx[j].holder == Nobody
    ensures Pending(tx) == Lasts(es)
    decreases |tx|
  {
    if es != [] {
      PendingInOrder(tx[1..], es[1..]);
    } else if tx != [] {
      PendingInOrder(tx[1..], []);
    }
  }

  // Going through the slots by index finds each outstanding list exactly once.
  lemma PendingIsOutstanding(v: View, l: Line)
    requires Ring(v, l, l.head) && l.head == |l.entries|
    ensures multiset(Pending(v.tx)) == multiset(Lasts(l.entries[l.tail..]))
  {
    hide Ring, Pending, Lasts, At;
    SlotAt(v, l, 0);
    var t, es := At(l.tail), l.entries[l.tail..];
    var turned := v.tx[t..] + v.tx[..t];
    forall j | 0 <= j < N
      ensures if j < |es| then turned[j].holder == Held(es[j].nbl) && turned[j].last == es[j].last else turned[j].holder == Nobody
    {
      SlotAt(v, l, j);
    }
    PendingInOrder(turned, es);
    PendingConcat(v.tx[t..], v.tx[..t]);
    PendingConcat(v.tx[..t], v.tx[t..]);
    assert v.tx[..t] + v.tx[t..] == v.tx;
    BothWays(Pending(v.tx[t..]), Pending(v.tx[..t]));
  }

  lemma BothWays(a: seq<Nbl>, b: seq<Nbl>)
    ensures multiset(a + b) == multiset(b + a)
  {
  }

  // The slot of the j-th position from the tail on.
  lemma SlotAt(v: View, l: Line, j: nat)
    requires Ring(v, l, l.head) && l.head == |l.entries| && j < N
    ensures |v.tx| == N && |l.entries| - l.tail < N && l.tail <= |l.entries|
    ensures var t, k := At(l.tail), l.tail + j;
            var slot := (v.tx[t..] + v.tx[..t])[j];
            if k < |l.entries| then slot.holder == Held(l.entries[k].nbl) && slot.last == l.entries[k].last else slot.holder == Nobody
  {
    hide Word, Used, Failed, Staged, Armed, Finished;
    var t, k := At(l.tail), l.tail + j;
    Turned(v.tx, l.tail, j);
    assert Live(l, l.head, l.tail, k) || Spare(l, l.head, k);
  }

  lemma Turned(tx: seq<TxSlot>, tail: nat, j: nat)
    requires |tx| == N && j < N
    ensures (tx[At(tail)..] + tx[..At(tail)])[j] == tx[At(tail + j)]
  {
    Advance(tail, j);
  }

  // The first position from t on whose slot is i.
  lemma PlaceFrom(t: nat, i: nat) returns (k: nat)
    requires i < N
    ensures t <= k < t + N && At(k) == i
  {
    var a := At(t);
    k := t + if a <= i then i - a else i + N - a;
    assert k == N * (t / N + if a <= i then 0 else 1) + i;
  }

  // A slot that holds a list is that of some entry not yet retired.
  lemma HolderAt(v: View, l: Line, i: nat) returns (k: nat)
    requires Ring(v, l, l.head) && l.head == |l.entries| && i < N && v.tx[i].holder.Held?
    ensures l.tail <= k < |l.entries| && v.tx[i].holder == Held(l.entries[k].nbl)
  {
    k := PlaceFrom(l.tail, i);
    hide At;
    assert Live(l, l.head, l.tail, k) || Spare(l, l.head, k);
  }
}
