// How far one I2C request has come, and the three steps that advance it: pass
// over a finished transfer, store a received byte, queue a command word.
module I2cProgress {
  import opened I2cStream

  // A request in flight: the transfer list with its two cursors, the bounce
  // buffer, and the words pushed into and bytes popped from the FIFOs.
  datatype Flight = Flight(
    ts: seq<Transfer>, buffer: seq<Byte>, tx: nat, rx: nat, outstanding: int,
    sent: seq<Word>, got: seq<Byte>)

  // The request as begun: its layout, the write payloads, and the command
  // stream it stands for.
  datatype Request = Request(plan: seq<Transfer>, payload: seq<Byte>, stream: seq<Word>)

  predicate Begun(r: Request) {
    Layout(r.plan) && Fresh(r.plan) && Total(r.plan) <= |r.payload| && |r.stream| == Total(r.plan)
  }

  predicate Canonical(r: Request)
    requires Begun(r)
  {
    r.stream == Stream(r.plan, r.payload)
  }

  ghost predicate Inv(r: Request, f: Flight) {
    && Begun(r)
    && Shape(r, f)
    && Sending(r, f)
    && Receiving(r, f)
    && f.outstanding == Requested(r, f) - |f.got|
    && 0 <= f.outstanding
  }

  ghost predicate Shape(r: Request, f: Flight) {
    && |f.ts| == |r.plan| && |f.buffer| == |r.payload|
    && f.tx <= |r.plan| && f.rx <= |r.plan|
    && forall i :: 0 <= i < |r.plan| ==> Described(r, f, i)
  }

  ghost predicate Described(r: Request, f: Flight, i: nat)
    requires i < |f.ts| == |r.plan|
  {
    var t, p := f.ts[i], r.plan[i];
    && t.offset == p.offset && t.length == p.length && t.read == p.read
    && t.received <= t.queued <= t.length
    // strictly in order
    && (i < f.tx ==> t.queued == t.length)
    && (i == f.tx ==> t.queued < t.length)
    && (i > f.tx ==> t.queued == 0)
    && (!t.read ==> t.received == 0)
    && (i < f.rx && t.read ==> t.received == t.length)
    && (i > f.rx ==> t.received == 0)
  }

  // Words queued so far.
  function Position(r: Request, f: Flight): nat
    requires |f.ts| == |r.plan|
  {
    if f.tx < |r.plan| then r.plan[f.tx].offset + f.ts[f.tx].queued else Total(r.plan)
  }

  // The words sent are a prefix of the canonical stream.
  ghost predicate Sending(r: Request, f: Flight)
    requires Begun(r) && |f.ts| == |r.plan|
  {
    && Position(r, f) <= |r.stream|
    && f.sent == r.stream[..Position(r, f)]
  }

  // READ commands queued so far, and bytes received so far.
  function Requested(r: Request, f: Flight): nat
    requires |f.ts| == |r.plan| && f.tx <= |r.plan|
  {
    ReadBase(r.plan, f.tx) + (if f.tx < |r.plan| && r.plan[f.tx].read then f.ts[f.tx].queued else 0)
  }

  function Arrived(r: Request, f: Flight): nat
    requires |f.ts| == |r.plan| && f.rx <= |r.plan|
  {
    ReadBase(r.plan, f.rx) + (if f.rx < |r.plan| && r.plan[f.rx].read then f.ts[f.rx].received else 0)
  }

  // The buffer is the payload with the bytes received so far put, in arrival
  // order, at the read positions.
  ghost predicate Receiving(r: Request, f: Flight)
    requires Begun(r) && |f.ts| == |r.plan| && f.rx <= |r.plan|
  {
    && |f.got| == Arrived(r, f) <= |ReadPositions(r.plan, |r.plan|)|
    && f.buffer == Deposit(r.payload, ReadPositions(r.plan, |r.plan|), f.got)
  }

  // Buffer contents after the bytes landed one after the other.
  function Deposit(payload: seq<Byte>, positions: seq<nat>, bytes: seq<Byte>): (buffer: seq<Byte>)
    requires |bytes| <= |positions|
    ensures |buffer| == |payload|
    decreases |bytes|
  {
    if bytes == [] then payload
    else
      var n := |bytes| - 1;
      var before := Deposit(payload, positions, bytes[..n]);
      if positions[n] < |payload| then before[positions[n] := bytes[n]] else before
  }

  lemma {:induction false} DepositUntouched(payload: seq<Byte>, positions: seq<nat>, bytes: seq<Byte>, p: nat)
    requires |bytes| <= |positions| && p < |payload|
    requires forall j :: 0 <= j < |bytes| ==> positions[j] != p
    ensures Deposit(payload, positions, bytes)[p] == payload[p]
  {
    if bytes != [] {
      DepositUntouched(payload, positions, bytes[..|bytes| - 1], p);
    }
  }

  lemma {:induction false} DepositLands(payload: seq<Byte>, positions: seq<nat>, bytes: seq<Byte>, j: nat)
    requires j < |bytes| <= |positions| && positions[j] < |payload|
    requires forall i, k :: 0 <= i < k < |positions| ==> positions[i] != positions[k]
    ensures Deposit(payload, positions, bytes)[positions[j]] == bytes[j]
  {
    var n := |bytes| - 1;
    if j < n {
      DepositLands(payload, positions, bytes[..n], j);
    }
  }

  // Distinct read positions, none of them inside a write transfer.
  lemma PositionsDistinct(plan: seq<Transfer>, j: nat, k: nat)
    requires Layout(plan) && j < k < ReadBase(plan, |plan|)
    ensures ReadPositions(plan, |plan|)[j] < ReadPositions(plan, |plan|)[k] < Total(plan)
  {
    hide ReadPositions, ReadBase, Layout, Total;
    var a, m := ReaderOf(plan, |plan|, j);
    var b, n := ReaderOf(plan, |plan|, k);
    ReadPositionAt(plan, |plan|, a, m);
    ReadPositionAt(plan, |plan|, b, n);
    LayoutBounded(plan, b);
    if a < b {
      LayoutOrdered(plan, a, b);
    } else if b < a {
      ReadBaseMonotone(plan, b + 1, a);
      ReadBaseNext(plan, b);
    }
  }

  lemma ReadBaseNext(plan: seq<Transfer>, i: nat)
    requires i < |plan|
    ensures ReadBase(plan, i + 1) == ReadBase(plan, i) + if plan[i].read then plan[i].length else 0
  {
  }

  lemma WritesSurvive(r: Request, f: Flight, i: nat, k: nat)
    requires Inv(r, f) && i < |r.plan| && !r.plan[i].read && k < r.plan[i].length
    ensures r.plan[i].offset + k < |f.buffer| == |r.payload|
    ensures f.buffer[r.plan[i].offset + k] == r.payload[r.plan[i].offset + k]
  {
    LayoutBounded(r.plan, i);
    var positions := ReadPositions(r.plan, |r.plan|);
    forall j | 0 <= j < |f.got|
      ensures positions[j] != r.plan[i].offset + k
    {
      var a, m := ReaderOf(r.plan, |r.plan|, j);
      ReadPositionAt(r.plan, |r.plan|, a, m);
      if a < i {
        LayoutOrdered(r.plan, a, i);
      } else {
        LayoutOrdered(r.plan, i, a);
      }
    }
    DepositUntouched(r.payload, positions, f.got, r.plan[i].offset + k);
  }

  // ----- the three steps of the pump -----

  function Start(r: Request): Flight {
    Flight(r.plan, r.payload, 0, 0, 0, [], [])
  }

  lemma StartInv(r: Request)
    requires Begun(r)
    ensures Inv(r, Start(r))
  {
    LayoutBounded(r.plan, 0);
  }

  // One finished or write transfer is passed over.
  function Skip(f: Flight): Flight {
    f.(rx := f.rx + 1)
  }

  lemma SkipInv(r: Request, f: Flight)
    requires Inv(r, f) && f.rx < |f.ts| && (!f.ts[f.rx].read || f.ts[f.rx].received == f.ts[f.rx].length)
    ensures Inv(r, Skip(f))
  {
    hide Begun, ReadBase, ReadPositions, Deposit;
    SkipShape(r, f);
    hide Shape;
    ReadBaseNext(r.plan, f.rx);
  }

  lemma SkipShape(r: Request, f: Flight)
    requires Shape(r, f) && f.rx < |f.ts| && (!f.ts[f.rx].read || f.ts[f.rx].received == f.ts[f.rx].length)
    ensures Shape(r, Skip(f)) && r.plan[f.rx].read == f.ts[f.rx].read
    ensures r.plan[f.rx].read ==> f.ts[f.rx].received == r.plan[f.rx].length
    ensures f.rx + 1 < |f.ts| ==> f.ts[f.rx + 1].received == 0
  {
    assert Described(r, f, f.rx);
    if f.rx + 1 < |f.ts| {
      assert Described(r, f, f.rx + 1);
    }
    forall i | 0 <= i < |r.plan|
      ensures Described(r, Skip(f), i)
    {
      assert Described(r, f, i);
    }
  }

  // While a byte is outstanding, some read transfer still misses it.
  lemma ReaderExists(r: Request, f: Flight)
    requires Inv(r, f) && 0 < f.outstanding
    ensures f.rx < |f.ts|
    ensures f.ts[f.rx].read ==> f.ts[f.rx].received < f.ts[f.rx].queued || f.ts[f.rx].received == f.ts[f.rx].length
  {
    if f.tx < f.rx {
      ReadBaseMonotone(r.plan, f.tx + 1, f.rx);
      assert Described(r, f, f.tx);
    } else if f.rx < |f.ts| {
      assert Described(r, f, f.rx);
    }
  }

  function Store(f: Flight, b: Byte): Flight
    requires f.rx < |f.ts| && f.ts[f.rx].offset + f.ts[f.rx].received < |f.buffer|
  {
    var t := f.ts[f.rx];
    f.(ts := f.ts[f.rx := t.(received := t.received + 1)],
       buffer := f.buffer[t.offset + t.received := b],
       outstanding := f.outstanding - 1,
       got := f.got + [b])
  }

  lemma StoreInv(r: Request, f: Flight, b: Byte)
    requires Inv(r, f) && 0 < f.outstanding
    requires f.rx < |f.ts| && f.ts[f.rx].read && f.ts[f.rx].received < f.ts[f.rx].queued
    ensures f.ts[f.rx].offset + f.ts[f.rx].received < |f.buffer|
    ensures Inv(r, Store(f, b))
  {
    hide ReadBase, ReadPositions, Layout, Fresh, Total;
    StoreShape(r, f, b);
    var t, g := f.ts[f.rx], Store(f, b);
    ReadPositionAt(r.plan, |r.plan|, f.rx, t.received);
    assert g.got[..|g.got| - 1] == f.got;
    hide Shape;
  }

  lemma StoreShape(r: Request, f: Flight, b: Byte)
    requires Begun(r) && Shape(r, f)
    requires f.rx < |f.ts| && f.ts[f.rx].read && f.ts[f.rx].received < f.ts[f.rx].queued
    ensures var t, p := f.ts[f.rx], r.plan[f.rx];
            && t.offset == p.offset && t.read == p.read && t.received < p.length && t.offset + t.received < |f.buffer|
            && Shape(r, Store(f, b))
  {
    assert Described(r, f, f.rx);
    LayoutBounded(r.plan, f.rx);
    hide Begun;
    var g := Store(f, b);
    forall i | 0 <= i < |r.plan|
      ensures Described(r, g, i)
    {
      assert Described(r, f, i);
    }
  }

  function Queue(f: Flight, w: Word): Flight
    requires f.tx < |f.ts|
  {
    var t := f.ts[f.tx];
    f.(ts := f.ts[f.tx := t.(queued := t.queued + 1)],
       tx := if t.queued + 1 == t.length then f.tx + 1 else f.tx,
       outstanding := if t.read then f.outstanding + 1 else f.outstanding,
       sent := f.sent + [w])
  }

  // The next canonical word is the one the pump composes.
  lemma NextWord(r: Request, f: Flight)
    requires Inv(r, f) && Canonical(r) && f.tx < |f.ts|
    ensures Position(r, f) < |r.stream|
    ensures f.ts[f.tx].offset == r.plan[f.tx].offset && f.ts[f.tx].length == r.plan[f.tx].length
    ensures f.ts[f.tx].read == r.plan[f.tx].read && f.ts[f.tx].queued < r.plan[f.tx].length
    ensures !r.plan[f.tx].read ==> r.plan[f.tx].offset + f.ts[f.tx].queued < |r.payload|
    ensures r.stream[Position(r, f)] == CommandWord(r.plan, r.payload, f.tx, f.ts[f.tx].queued)
  {
    hide Layout, Total, Fresh, Stream, CommandWord, Sending, Receiving, Requested;
    assert Described(r, f, f.tx);
    LayoutBounded(r.plan, f.tx);
    StreamAt(r.plan, r.payload, f.tx, f.ts[f.tx].queued);
  }

  lemma QueueInv(r: Request, f: Flight, w: Word)
    requires Inv(r, f) && f.tx < |f.ts|
    requires Position(r, f) < |r.stream| && w == r.stream[Position(r, f)]
    ensures Inv(r, Queue(f, w))
  {
    hide Described, ReadBase, ReadPositions, Deposit, Layout, Fresh, Total;
    var g := Queue(f, w);
    QueueShape(r, f, w);
    QueuePosition(r, f, w);
    QueueReceived(r, f, w);
    hide Shape, Requested, Arrived, Position;
    assert g.sent == r.stream[..Position(r, g)];
  }

  lemma QueueReceived(r: Request, f: Flight, w: Word)
    requires |f.ts| == |r.plan| && f.rx <= |r.plan| && f.tx < |f.ts|
    ensures Arrived(r, Queue(f, w)) == Arrived(r, f)
  {
    hide ReadBase;
  }

  lemma QueueShape(r: Request, f: Flight, w: Word)
    requires Inv(r, f) && f.tx < |f.ts|
    ensures Shape(r, Queue(f, w))
  {
    forall i | 0 <= i < |r.plan|
      ensures Described(r, Queue(f, w), i)
    {
      assert Described(r, f, i);
    }
  }

  lemma QueuePosition(r: Request, f: Flight, w: Word)
    requires Begun(r) && Shape(r, f) && f.tx < |f.ts|
    ensures Position(r, Queue(f, w)) == Position(r, f) + 1
    ensures Requested(r, Queue(f, w)) == Requested(r, f) + (if f.ts[f.tx].read then 1 else 0)
  {
    hide Layout, Total;
    assert Described(r, f, f.tx);
    LayoutNext(r.plan, f.tx);
    if f.tx + 1 < |r.plan| {
      assert Described(r, f, f.tx + 1);
    }
  }

  // ----- what the invariant means -----

  // Outstanding is the sum of Queued - Received over the read transfers.
  function Missing(ts: seq<Transfer>): int {
    if ts == [] then 0
    else Missing(ts[..|ts| - 1]) + (if ts[|ts| - 1].read then ts[|ts| - 1].queued - ts[|ts| - 1].received else 0)
  }

  lemma OutstandingIsMissing(r: Request, f: Flight)
    requires Inv(r, f)
    ensures f.outstanding == Missing(f.ts)
  {
    MissingPrefix(r, f, |f.ts|);
    assert f.ts[..|f.ts|] == f.ts;
  }

  lemma {:induction false} MissingPrefix(r: Request, f: Flight, n: nat)
    requires Inv(r, f) && n <= |f.ts|
    ensures Missing(f.ts[..n])
         == (if n <= f.tx then ReadBase(r.plan, n) else Requested(r, f)) - (if n <= f.rx then ReadBase(r.plan, n) else Arrived(r, f))
  {
    if n > 0 {
      MissingPrefix(r, f, n - 1);
      hide Inv, Missing, ReadBase;
      MissingSnoc(f.ts, n - 1);
      ReadBaseNext(r.plan, n - 1);
      Counts(r, f, n - 1);
    }
  }

  // What transfer i adds: all of it, as much as has been queued or received, or
  // nothing yet.
  lemma Counts(r: Request, f: Flight, i: nat)
    requires Inv(r, f) && i < |f.ts|
    ensures |f.ts| == |r.plan| && f.ts[i].read == r.plan[i].read
    ensures f.ts[i].read ==>
              && f.ts[i].queued == (if i < f.tx then r.plan[i].length else if i == f.tx then f.ts[i].queued else 0)
              && f.ts[i].received == (if i < f.rx then r.plan[i].length else if i == f.rx then f.ts[i].received else 0)
  {
    hide Begun, Sending, Receiving;
    assert Described(r, f, i);
  }

  lemma MissingSnoc(ts: seq<Transfer>, i: nat)
    requires i < |ts|
    ensures Missing(ts[..i + 1]) == Missing(ts[..i]) + if ts[i].read then ts[i].queued - ts[i].received else 0
  {
    assert ts[..i + 1][..i] == ts[..i];
  }

  // The j-th byte received stands in the j-th read position.
  lemma BytesLand(r: Request, f: Flight, j: nat)
    requires Inv(r, f) && j < |f.got|
    ensures j < |ReadPositions(r.plan, |r.plan|)| && ReadPositions(r.plan, |r.plan|)[j] < |f.buffer|
    ensures f.buffer[ReadPositions(r.plan, |r.plan|)[j]] == f.got[j]
  {
    hide Layout, Total, Shape, Sending, Deposit, ReadPositions;
    var positions := ReadPositions(r.plan, |r.plan|);
    forall i, k | 0 <= i < k < |positions|
      ensures positions[i] != positions[k]
    {
      PositionsDistinct(r.plan, i, k);
    }
    var a, m := ReaderOf(r.plan, |r.plan|, j);
    ReadPositionAt(r.plan, |r.plan|, a, m);
    LayoutBounded(r.plan, a);
    DepositLands(r.payload, positions, f.got, j);
  }

  // A finished request: the whole stream went out and every read is full.
  lemma FinishedMeans(r: Request, f: Flight)
    requires Inv(r, f) && f.tx == |f.ts| && f.outstanding == 0
    ensures f.sent == r.stream
    ensures |f.got| == ReadBase(r.plan, |r.plan|)
    ensures forall i :: 0 <= i < |f.ts| && f.ts[i].read ==> f.ts[i].received == f.ts[i].length
  {
    forall i | 0 <= i < |f.ts| && f.ts[i].read
      ensures f.ts[i].received == f.ts[i].length
    {
      assert Described(r, f, i);
      if f.rx <= i {
        assert Described(r, f, f.rx);
        ReadBaseMonotone(r.plan, f.rx + 1, |r.plan|);
        ReadBaseMonotone(r.plan, i + 1, |r.plan|);
        if f.rx < i {
          ReadBaseMonotone(r.plan, f.rx + 1, i);
        }
      }
    }
  }
}
