// The canonical command stream of one I2C request: what the controller's TX
// FIFO must receive, whatever FIFO levels the driver happens to observe.
module I2cStream {

  // I2C_TRANSFER of rp1-i2c/hardware.h: one segment of a combined transfer.
  datatype Transfer = Transfer(offset: nat, length: nat, queued: nat, received: nat, read: bool)

  datatype Direction = FromDevice | ToDevice | NoDirection

  // The fields of an SPB transfer descriptor that the driver inspects.
  datatype Descriptor = Descriptor(length: nat, direction: Direction, delayInUs: nat, hasMdl: bool)

  datatype Option<+T> = None | Some(value: T)

  type Byte = bv8
  type Word = bv32

  const MAX_TRANSFERS: nat := 16
  const MAX_BYTES: nat := 65536
  const COMMAND_READ: Word := 0x100
  const COMMAND_STOP: Word := 0x200
  const COMMAND_RESTART: Word := 0x400

  // The transfers of a request lie back to back in the bounce buffer.
  predicate Layout(plan: seq<Transfer>) {
    && 0 < |plan| <= MAX_TRANSFERS
    && plan[0].offset == 0
    && (forall i :: 0 <= i < |plan| ==> 0 < plan[i].length)
    && (forall i {:trigger plan[i].length} :: 0 <= i < |plan| - 1 ==> plan[i + 1].offset == plan[i].offset + plan[i].length)
    && Total(plan) <= MAX_BYTES
  }

  function Total(plan: seq<Transfer>): nat {
    if plan == [] then 0 else plan[|plan| - 1].offset + plan[|plan| - 1].length
  }

  predicate Fresh(plan: seq<Transfer>) {
    forall i :: 0 <= i < |plan| ==> plan[i].queued == 0 && plan[i].received == 0
  }

  lemma {:induction false} LayoutOrdered(plan: seq<Transfer>, i: nat, j: nat)
    requires Layout(plan) && i < j < |plan|
    ensures plan[i].offset + plan[i].length <= plan[j].offset
  {
    if i + 1 < j {
      LayoutOrdered(plan, i, j - 1);
      assert plan[j - 1 + 1].offset == plan[j - 1].offset + plan[j - 1].length;
    } else {
      assert plan[i + 1].offset == plan[i].offset + plan[i].length;
    }
  }

  lemma LayoutBounded(plan: seq<Transfer>, i: nat)
    requires Layout(plan) && i < |plan|
    ensures plan[i].offset + plan[i].length <= Total(plan)
    ensures i + 1 < |plan| ==> plan[i].offset + plan[i].length < Total(plan)
  {
    if i + 1 < |plan| {
      LayoutOrdered(plan, i, |plan| - 1);
    }
  }

  // ----- the words -----

  // Word k of transfer i, as section 3.1.10 of NXP UM10204 wants a combined
  // transfer: a repeated START opens every later segment, one STOP ends the last.
  function CommandWord(plan: seq<Transfer>, data: seq<Byte>, i: nat, k: nat): Word
    requires i < |plan|
    requires !plan[i].read ==> plan[i].offset + k < |data|
  {
    var body := if plan[i].read then COMMAND_READ else data[plan[i].offset + k] as Word;
    var started := if k == 0 && i > 0 then body | COMMAND_RESTART else body;
    if i + 1 == |plan| && k + 1 == plan[i].length then started | COMMAND_STOP else started
  }

  function TransferWords(plan: seq<Transfer>, data: seq<Byte>, i: nat): (words: seq<Word>)
    requires Layout(plan) && i < |plan| && Total(plan) <= |data|
    ensures |words| == plan[i].length
  {
    LayoutBounded(plan, i);
    seq(plan[i].length, k requires 0 <= k < plan[i].length => CommandWord(plan, data, i, k))
  }

  function StreamFrom(plan: seq<Transfer>, data: seq<Byte>, i: nat): (words: seq<Word>)
    requires Layout(plan) && i <= |plan| && Total(plan) <= |data|
    decreases |plan| - i
  {
    if i == |plan| then [] else TransferWords(plan, data, i) + StreamFrom(plan, data, i + 1)
  }

  function Stream(plan: seq<Transfer>, data: seq<Byte>): seq<Word>
    requires Layout(plan) && Total(plan) <= |data|
  {
    StreamFrom(plan, data, 0)
  }

  lemma {:induction false} StreamFromLength(plan: seq<Transfer>, data: seq<Byte>, i: nat)
    requires Layout(plan) && i < |plan| && Total(plan) <= |data|
    ensures |StreamFrom(plan, data, i)| == Total(plan) - plan[i].offset
    decreases |plan| - i
  {
    StreamFromFirst(plan, data, i);
    LayoutNext(plan, i);
    if i + 1 < |plan| {
      hide StreamFrom, TransferWords, Layout, Total;
      StreamFromLength(plan, data, i + 1);
    }
  }

  lemma StreamFromFirst(plan: seq<Transfer>, data: seq<Byte>, i: nat)
    requires Layout(plan) && i < |plan| && Total(plan) <= |data|
    ensures StreamFrom(plan, data, i) == TransferWords(plan, data, i) + StreamFrom(plan, data, i + 1)
  {
    hide TransferWords, CommandWord;
  }

  lemma LayoutNext(plan: seq<Transfer>, i: nat)
    requires Layout(plan) && i < |plan|
    ensures plan[i].offset + plan[i].length == if i + 1 < |plan| then plan[i + 1].offset else Total(plan)
  {
  }

  lemma {:induction false} StreamFromAt(plan: seq<Transfer>, data: seq<Byte>, base: nat, i: nat, k: nat)
    requires Layout(plan) && base <= i < |plan| && Total(plan) <= |data| && k < plan[i].length
    ensures plan[base].offset <= plan[i].offset
    ensures plan[i].offset + k - plan[base].offset < |StreamFrom(plan, data, base)|
    ensures StreamFrom(plan, data, base)[plan[i].offset + k - plan[base].offset] == TransferWords(plan, data, i)[k]
    decreases i - base
  {
    hide Layout, Total, CommandWord, StreamFrom, TransferWords;
    StreamFromFirst(plan, data, base);
    var head, tail := TransferWords(plan, data, base), StreamFrom(plan, data, base + 1);
    if base == i {
      assert (head + tail)[k] == head[k];
    } else {
      StreamFromAt(plan, data, base + 1, i, k);
      LayoutNext(plan, base);
      var p := plan[i].offset + k - plan[base + 1].offset;
      assert (head + tail)[|head| + p] == tail[p];
    }
  }

  // Position offset + k of the stream is word k of the transfer at that offset.
  lemma StreamAt(plan: seq<Transfer>, data: seq<Byte>, i: nat, k: nat)
    requires Layout(plan) && i < |plan| && Total(plan) <= |data| && k < plan[i].length
    ensures |Stream(plan, data)| == Total(plan)
    ensures plan[i].offset + k < Total(plan)
    ensures !plan[i].read ==> plan[i].offset + k < |data|
    ensures Stream(plan, data)[plan[i].offset + k] == CommandWord(plan, data, i, k)
  {
    hide CommandWord, StreamFrom;
    StreamFromLength(plan, data, 0);
    LayoutBounded(plan, i);
    StreamFromAt(plan, data, 0, i, k);
  }

  // Every stream position belongs to exactly one transfer.
  lemma {:induction false} OwnerOf(plan: seq<Transfer>, p: nat, last: nat) returns (i: nat)
    requires Layout(plan) && last < |plan| && p < plan[last].offset + plan[last].length
    ensures i <= last && plan[i].offset <= p < plan[i].offset + plan[i].length
  {
    if plan[last].offset <= p {
      i := last;
    } else {
      assert plan[last - 1 + 1].offset == plan[last - 1].offset + plan[last - 1].length;
      i := OwnerOf(plan, p, last - 1);
    }
  }

  // A word carries its four fields independently: the bus sees the write
  // payload, the direction, RESTART and STOP, and they never corrupt each other.
  lemma WordFields(plan: seq<Transfer>, data: seq<Byte>, i: nat, k: nat)
    requires i < |plan|
    requires !plan[i].read ==> plan[i].offset + k < |data|
    ensures var w := CommandWord(plan, data, i, k);
            && (w & COMMAND_READ != 0 <==> plan[i].read)
            && (w & COMMAND_RESTART != 0 <==> k == 0 && i > 0)
            && (w & COMMAND_STOP != 0 <==> i + 1 == |plan| && k + 1 == plan[i].length)
            && (!plan[i].read ==> w & 0xff == data[plan[i].offset + k] as Word)
  {
    if !plan[i].read {
      ByteFits(data[plan[i].offset + k]);
    }
  }

  lemma ByteFits(b: Byte)
    ensures b as Word & 0x700 == 0
    ensures b as Word & 0xff == b as Word
  {
  }

  // Exactly one STOP, on the last word; RESTART exactly where a later transfer
  // begins; the READ bit exactly inside read transfers.
  lemma StreamFraming(plan: seq<Transfer>, data: seq<Byte>, p: nat)
    requires Layout(plan) && Total(plan) <= |data| && p < Total(plan)
    ensures |Stream(plan, data)| == Total(plan)
    ensures var w := Stream(plan, data)[p];
            && (w & COMMAND_STOP != 0 <==> p == Total(plan) - 1)
            && (w & COMMAND_RESTART != 0 <==> exists i :: 0 < i < |plan| && plan[i].offset == p)
            && (w & COMMAND_READ != 0 <==> exists i :: 0 <= i < |plan| && plan[i].read && plan[i].offset <= p < plan[i].offset + plan[i].length)
            && (w & COMMAND_READ == 0 ==> w & 0xff == data[p] as Word)
  {
    hide Stream, CommandWord;
    var i := OwnerOf(plan, p, |plan| - 1);
    StreamAt(plan, data, i, p - plan[i].offset);
    WordFields(plan, data, i, p - plan[i].offset);
    LayoutBounded(plan, i);
    forall j | 0 <= j < |plan| && j != i
      ensures !(plan[j].offset <= p < plan[j].offset + plan[j].length)
    {
      if j < i {
        LayoutOrdered(plan, j, i);
      } else {
        LayoutOrdered(plan, i, j);
      }
    }
  }

  // ----- read positions -----

  // Bytes read by the transfers before i.
  function ReadBase(plan: seq<Transfer>, i: nat): nat
    requires i <= |plan|
  {
    if i == 0 then 0 else ReadBase(plan, i - 1) + (if plan[i - 1].read then plan[i - 1].length else 0)
  }

  lemma {:induction false} ReadBaseMonotone(plan: seq<Transfer>, i: nat, j: nat)
    requires i <= j <= |plan|
    ensures ReadBase(plan, i) <= ReadBase(plan, j)
  {
    if i < j {
      ReadBaseMonotone(plan, i, j - 1);
    }
  }

  // Where the bytes read by a request belong, in arrival order.
  function ReadPositions(plan: seq<Transfer>, i: nat): (positions: seq<nat>)
    requires i <= |plan|
    ensures |positions| == ReadBase(plan, i)
  {
    if i == 0 then []
    else if plan[i - 1].read then
      ReadPositions(plan, i - 1) + seq(plan[i - 1].length, k requires 0 <= k => plan[i - 1].offset + k)
    else ReadPositions(plan, i - 1)
  }

  lemma {:induction false} ReadPositionAt(plan: seq<Transfer>, n: nat, i: nat, k: nat)
    requires i < n <= |plan| && plan[i].read && k < plan[i].length
    ensures ReadBase(plan, i) + k < ReadBase(plan, n)
    ensures ReadPositions(plan, n)[ReadBase(plan, i) + k] == plan[i].offset + k
  {
    ReadBaseMonotone(plan, i + 1, n);
    if i + 1 < n {
      ReadPositionAt(plan, n - 1, i, k);
    }
  }

  lemma {:induction false} ReaderOf(plan: seq<Transfer>, n: nat, j: nat) returns (i: nat, k: nat)
    requires n <= |plan| && j < ReadBase(plan, n)
    ensures i < n && plan[i].read && k < plan[i].length && j == ReadBase(plan, i) + k
  {
    if ReadBase(plan, n - 1) <= j {
      i, k := n - 1, j - ReadBase(plan, n - 1);
    } else {
      i, k := ReaderOf(plan, n - 1, j);
    }
  }

  // ----- building a request -----

  predicate Acceptable(d: Descriptor) {
    0 < d.length && d.delayInUs == 0 && d.hasMdl && d.direction != NoDirection
  }

  function Lengths(ds: seq<Descriptor>): nat {
    if ds == [] then 0 else Lengths(ds[..|ds| - 1]) + ds[|ds| - 1].length
  }

  lemma {:induction false} LengthsMonotone(ds: seq<Descriptor>, n: nat)
    requires n <= |ds|
    ensures Lengths(ds[..n]) <= Lengths(ds)
  {
    if n < |ds| {
      assert ds[..|ds| - 1][..n] == ds[..n];
      LengthsMonotone(ds[..|ds| - 1], n);
    } else {
      assert ds[..n] == ds;
    }
  }

  lemma LengthsSnoc(ds: seq<Descriptor>, i: nat)
    requires i < |ds|
    ensures Lengths(ds[..i + 1]) == Lengths(ds[..i]) + ds[i].length
  {
    assert ds[..i + 1][..i] == ds[..i];
  }

  // One more transfer, right behind the others.
  lemma LayoutSnoc(ts: seq<Transfer>, t: Transfer)
    requires Fresh(ts) && (ts != [] ==> Layout(ts)) && |ts| < MAX_TRANSFERS
    requires t.queued == t.received == 0 < t.length && t.offset == Total(ts) && t.offset + t.length <= MAX_BYTES
    ensures Fresh(ts + [t]) && Layout(ts + [t]) && Total(ts + [t]) == Total(ts) + t.length
  {
    var after := ts + [t];
    forall i {:trigger after[i].length} | 0 <= i < |after| - 1
      ensures after[i + 1].offset == after[i].offset + after[i].length
    {
      assert i + 1 < |ts| ==> ts[i + 1].offset == ts[i].offset + ts[i].length;
    }
  }

  lemma Positive(d: Descriptor)
    requires Acceptable(d)
    ensures 0 < d.length
  {
  }

  method IsUsable(d: Descriptor, room: nat) returns (ok: bool)
    ensures ok <==> Acceptable(d) && d.length <= room
  {
    ok := !(d.length == 0 || d.length > room || !d.hasMdl || d.delayInUs != 0 || d.direction == NoDirection);
  }

  // Transfer by transfer, what the descriptors ask for.
  ghost predicate Follow(ts: seq<Transfer>, ds: seq<Descriptor>) {
    |ts| <= |ds| && forall j :: 0 <= j < |ts| ==> ts[j].length == ds[j].length && (ts[j].read <==> ds[j].direction == FromDevice)
  }

  lemma FollowSnoc(ts: seq<Transfer>, ds: seq<Descriptor>, t: Transfer)
    requires Follow(ts, ds) && |ts| < |ds| && t.length == ds[|ts|].length && (t.read <==> ds[|ts|].direction == FromDevice)
    ensures Follow(ts + [t], ds)
  {
  }

  lemma FollowMeans(ts: seq<Transfer>, ds: seq<Descriptor>)
    requires Follow(ts, ds)
    ensures forall j :: 0 <= j < |ts| ==> ts[j].length == ds[j].length && (ts[j].read <==> ds[j].direction == FromDevice)
  {
  }

  // Begin: the transfer list is accepted exactly when every descriptor is
  // usable and the whole request fits, and then it has the layout above.
  method BuildTransfers(ds: seq<Descriptor>) returns (plan: Option<seq<Transfer>>)
    ensures plan.Some? <==>
              && 0 < |ds| <= MAX_TRANSFERS
              && (forall i :: 0 <= i < |ds| ==> Acceptable(ds[i]))
              && Lengths(ds) <= MAX_BYTES
    ensures plan.Some? ==>
              && Layout(plan.value) && Fresh(plan.value) && |plan.value| == |ds| && Total(plan.value) == Lengths(ds)
              && forall i :: 0 <= i < |ds| ==>
                   plan.value[i].length == ds[i].length && (plan.value[i].read <==> ds[i].direction == FromDevice)
  {
    if ds == [] || |ds| > MAX_TRANSFERS {
      return None;
    }
    assert Lengths(ds[..0]) == 0 && Fresh([]) && Total([]) == 0 && Follow([], ds);
    hide Lengths, Layout, Total, Fresh, Acceptable, Follow;
    var transfers: seq<Transfer> := [];
    var total := 0;
    for i := 0 to |ds|
      invariant |transfers| == i
      invariant total == Lengths(ds[..i]) <= MAX_BYTES
      invariant forall j :: 0 <= j < i ==> Acceptable(ds[j])
      invariant (i > 0 ==> Layout(transfers)) && Total(transfers) == total
      invariant Fresh(transfers)
      invariant Follow(transfers, ds)
    {
      var d := ds[i];
      LengthsSnoc(ds, i);
      LengthsMonotone(ds, i + 1);
      var usable := IsUsable(d, MAX_BYTES - total);
      if !usable {
        assert d == ds[i];
        return None;
      }
      var t := Transfer(total, d.length, 0, 0, d.direction == FromDevice);
      Positive(d);
      LayoutSnoc(transfers, t);
      FollowSnoc(transfers, ds, t);
      transfers := transfers + [t];
      total := total + d.length;
    }
    assert ds[..|ds|] == ds;
    FollowMeans(transfers, ds);
    plan := Some(transfers);
  }
}
