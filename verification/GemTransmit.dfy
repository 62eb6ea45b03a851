// Sending in the GEM Ethernet miniport (rp1-ethernet/miniport.c): the driver's
// side of the transmit ring, with the DMA engine free to run before any access
// the driver makes to a descriptor.
module GemTransmit {
  import opened GemRing

  datatype Status = Success | Paused | Disconnected | InvalidLength | Resources | Failure | Aborted | Closing

  // What has happened since the last start (line, lists, sent) and over the
  // adapter's life: every list handed over, every list given back.
  datatype Log = Log(line: Line, lists: seq<Nbl>, sent: seq<seq<nat>>,
                     handed: seq<Nbl>, returned: seq<Nbl>, tokens: set<nat>, cancelled: set<nat>)
  {
    // How many of the accepted lists have been completed.
    ghost function Done(): nat
      requires line.tail <= |line.entries|
    {
      OwnerAt(line.entries, lists, line.tail)
    }
  }

  function Frames(es: seq<Entry>): (r: seq<seq<nat>>)
    ensures |r| == |es|
  {
    seq(|es|, k requires 0 <= k < |es| => es[k].frame)
  }

  // The entries are those of the accepted lists, and what has gone out is a
  // prefix of them.
  ghost predicate Lined(g: Log) {
    && g.line.tail <= g.line.wire == |g.line.errors| <= |g.line.entries|
    && AllSendable(g.lists) && g.line.entries == Flatten(g.lists)
    && g.sent == Frames(g.line.entries[..g.line.wire])
    && g.Done() <= |g.lists|
  }

  // Every list handed over is either given back or still outstanding.
  ghost predicate Balanced(handed: seq<Nbl>, returned: seq<Nbl>, outstanding: seq<Nbl>) {
    multiset(handed) == multiset(returned) + multiset(outstanding)
  }

  ghost predicate Unique(lists: seq<Nbl>, tokens: set<nat>) {
    && (forall i :: 0 <= i < |lists| ==> lists[i].token in tokens)
    && (forall i, j :: 0 <= i < j < |lists| ==> lists[i].token != lists[j].token)
  }

  ghost predicate Sane(g: Log) {
    Lined(g) && Balanced(g.handed, g.returned, g.lists[g.Done()..]) && Unique(g.lists, g.tokens)
  }

  // Entry k stands before position `end`, belongs to list i, and went wrong.
  predicate Erred(l: Line, i: nat, k: nat) {
    k < l.tail && k < |l.entries| && k < |l.errors| && l.entries[k].owner == i && l.errors[k]
  }

  // None of list i's retired descriptors reported an error.
  ghost predicate Clear(l: Line, i: nat) {
    forall k :: 0 <= k < l.tail ==> !Erred(l, i, k)
  }

  // A list is a success exactly if nobody cancelled it and none of its retired
  // descriptors reported an error.
  ghost predicate Truthful(g: Log, status: map<nat, Status>) {
    forall i :: 0 <= i < |g.lists| ==>
                  && g.lists[i].token in status
                  && (status[g.lists[i].token] == Success <==>
                      g.lists[i].token !in g.cancelled && Clear(g.line, i))
  }

  ghost predicate Books(g: Log, status: map<nat, Status>) {
    Sane(g) && Truthful(g, status)
  }

  // ----- one lemma per step -----

  lemma BooksStart(g: Log, status: map<nat, Status>)
    requires Balanced(g.handed, g.returned, [])
    ensures Books(g.(line := Line(0, 0, 0, [], []), lists := [], sent := []), status)
  {
    hide Balanced, Lined, Truthful, Unique;
    var r := g.(line := Line(0, 0, 0, [], []), lists := [], sent := []);
    EmptyLined(r);
    EmptyRest(r, status);
    assert r.lists[r.Done()..] == [];
  }

  lemma EmptyLined(g: Log)
    requires g.line == Line(0, 0, 0, [], []) && g.lists == [] && g.sent == []
    ensures Lined(g) && g.Done() == 0
  {
  }

  lemma EmptyRest(g: Log, status: map<nat, Status>)
    requires g.lists == []
    ensures Unique(g.lists, g.tokens) && Truthful(g, status)
  {
    hide Erred, Clear;
  }

  ghost function Wired(g: Log, error: bool): Log
    requires g.line.wire < |g.line.entries|
  {
    g.(line := g.line.(wire := g.line.wire + 1, errors := g.line.errors + [error]),
       sent := g.sent + [g.line.entries[g.line.wire].frame])
  }

  lemma BooksWire(g: Log, status: map<nat, Status>, error: bool)
    requires Books(g, status) && g.line.wire < |g.line.entries|
    ensures Books(Wired(g, error), status)
  {
    hide Balanced, Unique, Flatten, AllSendable;
    var r := Wired(g, error);
    assert forall i: nat :: Clear(r.line, i) <==> Clear(g.line, i) by {
      assert forall i: nat, k: nat :: Erred(r.line, i, k) <==> Erred(g.line, i, k);
    }
    assert r.sent == Frames(r.line.entries[..r.line.wire]);
  }

  ghost function Accepted(g: Log, nbl: Nbl): Log {
    g.(line := g.line.(entries := g.line.entries + EntriesOf(|g.lists|, nbl)), lists := g.lists + [nbl],
       handed := g.handed + [nbl], tokens := g.tokens + {nbl.token})
  }

  lemma BooksAccept(g: Log, status: map<nat, Status>, nbl: Nbl)
    requires Books(g, status) && Sendable(nbl) && nbl.token !in g.tokens && nbl.token !in g.cancelled
    ensures Books(Accepted(g, nbl), status[nbl.token := Success])
  {
    hide Flatten, EntriesOf, Frames, AllSendable, Clear, Sendable;
    AcceptSane(g, nbl);
    AcceptErred(g, nbl);
    var r, after := Accepted(g, nbl), status[nbl.token := Success];
    assert forall i :: 0 <= i < |g.lists| ==> g.lists[i].token != nbl.token;
    hide Sane, Lined, Balanced, Unique;
    forall i | 0 <= i < |r.lists|
      ensures r.lists[i].token in after
      ensures after[r.lists[i].token] == Success <==> r.lists[i].token !in r.cancelled && Clear(r.line, i)
    {
      if i < |g.lists| {
        assert r.lists[i] == g.lists[i] && g.lists[i].token in status;
      }
    }
  }

  lemma AcceptSane(g: Log, nbl: Nbl)
    requires Sane(g) && Sendable(nbl) && nbl.token !in g.tokens
    ensures Sane(Accepted(g, nbl))
  {
    hide Balanced, Flatten, Frames, AllSendable, EntriesOf, Unique, Sendable;
    var r := Accepted(g, nbl);
    AcceptDone(g, nbl);
    AcceptLined(g, nbl);
    UniqueSnoc(g.lists, g.tokens, nbl);
    assert r.lists[r.Done()..] == g.lists[g.Done()..] + [nbl];
    Handed(g.handed, g.returned, g.lists[g.Done()..], nbl);
  }

  lemma UniqueSnoc(lists: seq<Nbl>, tokens: set<nat>, nbl: Nbl)
    requires Unique(lists, tokens) && nbl.token !in tokens
    ensures Unique(lists + [nbl], tokens + {nbl.token})
  {
  }

  lemma Handed(handed: seq<Nbl>, returned: seq<Nbl>, outstanding: seq<Nbl>, nbl: Nbl)
    requires Balanced(handed, returned, outstanding)
    ensures Balanced(handed + [nbl], returned, outstanding + [nbl])
    ensures Balanced(handed + [nbl], returned + [nbl], outstanding)
  {
  }

  lemma AcceptLined(g: Log, nbl: Nbl)
    requires Lined(g) && Sendable(nbl)
    ensures Lined(Accepted(g, nbl))
  {
    var r := Accepted(g, nbl);
    AcceptDone(g, nbl);
    FlattenSnoc(g.lists, nbl);
    hide Flatten, EntriesOf, Sendable;
    assert g.line.entries[..g.line.wire] == r.line.entries[..g.line.wire];
  }

  lemma AcceptDone(g: Log, nbl: Nbl)
    requires Lined(g) && Sendable(nbl)
    ensures Accepted(g, nbl).Done() == g.Done()
  {
    if g.line.tail == |g.line.entries| {
      assert EntriesOf(|g.lists|, nbl)[0].owner == |g.lists|;
    }
  }

  lemma AcceptErred(g: Log, nbl: Nbl)
    requires Sane(g)
    ensures var l := Accepted(g, nbl).line;
            Clear(l, |g.lists|) && forall i: nat :: i < |g.lists| ==> (Clear(l, i) <==> Clear(g.line, i))
  {
    var l := Accepted(g, nbl).line;
    assert forall i: nat, k: nat :: Erred(l, i, k) <==> Erred(g.line, i, k);
    FlattenGrouped(g.lists);
    assert forall k :: 0 <= k < g.line.tail ==> g.line.entries[k].owner < |g.lists|;
  }

  lemma BooksRefuse(g: Log, status: map<nat, Status>, nbl: Nbl, s: Status)
    requires Books(g, status) && nbl.token !in g.tokens
    ensures Books(g.(handed := g.handed + [nbl], returned := g.returned + [nbl], tokens := g.tokens + {nbl.token}), status[nbl.token := s])
  {
    hide Balanced, Clear, Flatten, Frames, AllSendable;
    Handed(g.handed, g.returned, g.lists[g.Done()..], nbl);
  }

  // Retiring the descriptor at the tail; the list goes back with its final one.
  function Retired(g: Log): Log
    requires g.line.tail < |g.line.entries|
  {
    var e := g.line.entries[g.line.tail];
    g.(line := g.line.(tail := g.line.tail + 1), returned := if e.last then g.returned + [e.nbl] else g.returned)
  }

  lemma BooksRetire(g: Log, status: map<nat, Status>)
    requires Books(g, status) && g.line.tail < g.line.wire
    ensures var e := g.line.entries[g.line.tail];
            && g.Done() < |g.lists| && e.owner == g.Done() && e.nbl == g.lists[e.owner]
            && Retired(g).Done() == g.Done() + (if e.last then 1 else 0)
            && Books(Retired(g), if g.line.errors[g.line.tail] then status[e.nbl.token := Failure] else status)
  {
    RetireSane(g);
    hide Sane;
    RetireTruthful(g, status);
  }

  lemma RetireSane(g: Log)
    requires Sane(g) && g.line.tail < g.line.wire
    ensures var e := g.line.entries[g.line.tail];
            && g.Done() < |g.lists| && e.owner == g.Done() && e.nbl == g.lists[e.owner]
            && Retired(g).Done() == g.Done() + (if e.last then 1 else 0)
            && Sane(Retired(g))
  {
    hide Balanced, Unique, Grouped, Flatten, Frames, AllSendable;
    RetireLined(g);
    var last := g.line.entries[g.line.tail].last;
    Returned(g.handed, g.returned, g.lists, g.Done());
  }

  lemma RetireLined(g: Log)
    requires Lined(g) && g.line.tail < g.line.wire
    ensures var e := g.line.entries[g.line.tail];
            && g.Done() < |g.lists| && e.owner == g.Done() && e.nbl == g.lists[e.owner]
            && Retired(g).Done() == g.Done() + (if e.last then 1 else 0)
            && Lined(Retired(g))
  {
    hide Grouped, Flatten, Frames;
    var t := g.line.tail;
    FlattenGrouped(g.lists);
    OwnersRise(g.line.entries, g.lists, t, t + 1);
    GroupedAt(g.line.entries, g.lists, t);
  }

  lemma Returned(handed: seq<Nbl>, returned: seq<Nbl>, lists: seq<Nbl>, done: nat)
    requires done < |lists| && Balanced(handed, returned, lists[done..])
    ensures Balanced(handed, returned + [lists[done]], lists[done + 1..])
  {
    assert lists[done..] == [lists[done]] + lists[done + 1..];
  }

  lemma RetireTruthful(g: Log, status: map<nat, Status>)
    requires Truthful(g, status) && g.line.tail < g.line.wire == |g.line.errors| <= |g.line.entries|
    requires var e := g.line.entries[g.line.tail]; e.owner < |g.lists| && e.nbl == g.lists[e.owner]
    requires Unique(g.lists, g.tokens)
    ensures Truthful(Retired(g), if g.line.errors[g.line.tail] then status[g.line.entries[g.line.tail].nbl.token := Failure] else status)
  {
    var t := g.line.tail;
    var e, r := g.line.entries[t], Retired(g);
    assert forall i: nat, k: nat :: Erred(r.line, i, k) <==> Erred(g.line, i, k) || (k == t && i == e.owner && g.line.errors[t]);
    var after := if g.line.errors[t] then status[e.nbl.token := Failure] else status;
    forall i | 0 <= i < |r.lists|
      ensures r.lists[i].token in after
      ensures after[r.lists[i].token] == Success <==>
                r.lists[i].token !in r.cancelled && Clear(r.line, i)
    {
      assert g.lists[i].token in status;
      assert i != e.owner ==> g.lists[i].token != e.nbl.token;
      if i == e.owner && g.line.errors[t] {
        assert Erred(r.line, i, t);
      }
    }
  }

  // Cancelled lists stay in the ring, but will not be reported as successes.
  lemma BooksCancel(g: Log, before: map<nat, Status>, after: map<nat, Status>, hit: set<nat>)
    requires Books(g, before) && hit <= g.tokens
    requires forall t :: t in before || t in hit <==> t in after
    requires forall t :: t in after ==> after[t] == if t in hit then Aborted else before[t]
    ensures Books(g.(cancelled := g.cancelled + hit), after)
  {
    var r := g.(cancelled := g.cancelled + hit);
    forall i | 0 <= i < |r.lists|
      ensures r.lists[i].token in after
      ensures after[r.lists[i].token] == Success <==>
                r.lists[i].token !in r.cancelled && Clear(r.line, i)
    {
      assert g.lists[i].token in before;
    }
  }

  // ----- what the books are worth -----

  lemma {:induction false} FlattenAt(lists: seq<Nbl>, i: nat, j: nat)
    requires i < |lists| && j < |lists[i].frames|
    ensures |Flatten(lists[..i])| + j < |Flatten(lists)|
    ensures Flatten(lists)[|Flatten(lists[..i])| + j] == Entry(i, lists[i], Pad(lists[i].frames[j]), j + 1 == |lists[i].frames|)
  {
    hide Flatten, Pad, EntriesOf;
    var n := |lists| - 1;
    var front, last := Flatten(lists[..n]), EntriesOf(n, lists[n]);
    FlattenLast(lists);
    if i < n {
      assert lists[..n][..i] == lists[..i] && lists[..n][i] == lists[i];
      FlattenAt(lists[..n], i, j);
      var k := |Flatten(lists[..i])| + j;
      assert (front + last)[k] == front[k];
    } else {
      EntryIn(n, lists[n], j);
      assert (front + last)[|front| + j] == last[j];
    }
  }

  lemma FlattenLast(lists: seq<Nbl>)
    requires lists != []
    ensures Flatten(lists) == Flatten(lists[..|lists| - 1]) + EntriesOf(|lists| - 1, lists[|lists| - 1])
  {
    hide EntriesOf;
  }

  lemma EntryIn(owner: nat, nbl: Nbl, j: nat)
    requires j < |nbl.frames|
    ensures EntriesOf(owner, nbl)[j] == Entry(owner, nbl, Pad(nbl.frames[j]), j + 1 == |nbl.frames|)
  {
    hide Pad;
  }

  // A completed list's frames, padded, have gone out one after the other; it is
  // reported as a success exactly if none failed and nobody cancelled it.
  lemma SuccessMeansSent(g: Log, status: map<nat, Status>, i: nat)
    requires Books(g, status) && i < g.Done()
    ensures var start, n := |Flatten(g.lists[..i])|, |g.lists[i].frames|;
            && start + n <= g.line.tail <= |g.sent| == |g.line.errors|
            && (forall k :: start <= k < start + n ==> g.sent[k] == Pad(g.lists[i].frames[k - start]))
            && g.lists[i].token in status
            && (status[g.lists[i].token] == Success <==>
                g.lists[i].token !in g.cancelled && forall k :: start <= k < start + n ==> !g.line.errors[k])
  {
    var start, n := |Flatten(g.lists[..i])|, |g.lists[i].frames|;
    var es := g.line.entries;
    assert 0 < n && g.lists[i].token in status && |g.sent| == |g.line.errors| == g.line.wire && g.line.tail <= g.line.wire;
    FinishedStretch(g, i);
    hide Sane, Flatten, Pad, AllSendable;
    forall k | 0 <= k < g.line.tail && Erred(g.line, i, k)
      ensures start <= k < start + n
    {
      OwnedWithin(g.lists, k);
    }
    forall k | start <= k < start + n
      ensures g.line.errors[k] <==> Erred(g.line, i, k)
    {
      assert es[k].owner == i;
    }
  }

  lemma FinishedStretch(g: Log, i: nat)
    requires Sane(g) && i < g.Done()
    ensures var start, n := |Flatten(g.lists[..i])|, |g.lists[i].frames|;
            && g.line.entries == Flatten(g.lists) && start + n <= g.line.tail
            && forall k :: start <= k < start + n ==> g.line.entries[k].owner == i && g.sent[k] == Pad(g.lists[i].frames[k - start])
  {
    var start, n := |Flatten(g.lists[..i])|, |g.lists[i].frames|;
    StretchRetired(g, i);
    forall k | start <= k < start + n
      ensures g.line.entries[k].owner == i && g.sent[k] == Pad(g.lists[i].frames[k - start])
    {
      hide Flatten, AllSendable, Pad;
      FlattenAt(g.lists, i, k - start);
      assert g.sent[k] == g.line.entries[k].frame;
    }
  }

  lemma StretchRetired(g: Log, i: nat)
    requires Sane(g) && i < g.Done()
    ensures |Flatten(g.lists[..i])| + |g.lists[i].frames| <= g.line.tail
  {
    hide Grouped, Flatten, Frames;
    FlattenGrouped(g.lists);
    assert Sendable(g.lists[i]);
    var k := |Flatten(g.lists[..i])| + (|g.lists[i].frames| - 1);
    FlattenAt(g.lists, i, |g.lists[i].frames| - 1);
    if g.line.tail <= k {
      OwnersRise(g.line.entries, g.lists, g.line.tail, k);
    }
  }

  // A frame stands within the stretch of the list that owns it.
  lemma {:induction false} OwnedWithin(lists: seq<Nbl>, k: nat)
    requires k < |Flatten(lists)|
    ensures var i := Flatten(lists)[k].owner;
            i < |lists| && |Flatten(lists[..i])| <= k < |Flatten(lists[..i])| + |lists[i].frames|
  {
    var n := |lists| - 1;
    var front := Flatten(lists[..n]);
    if k < |front| {
      OwnedWithin(lists[..n], k);
      assert lists[..n][..front[k].owner] == lists[..front[k].owner];
    } else {
      assert Flatten(lists)[k] == EntriesOf(n, lists[n])[k - |front|];
    }
  }

  // ----- the adapter -----

  // A list to send, and how many of its frames the stack manages to map.
  datatype Request = Request(nbl: Nbl, maps: nat)

  function Overlay(buffer: seq<nat>, frame: seq<nat>): (r: seq<nat>)
    ensures frame <= r
  {
    frame + if |frame| < |buffer| then buffer[|frame|..] else []
  }

  // The head is bookkeeping of the ring alone.
  lemma BooksHead(g: Log, status: map<nat, Status>, head: nat)
    requires Books(g, status)
    ensures Books(g.(line := g.line.(head := head)), status)
  {
    assert forall i: nat :: Clear(g.line.(head := head), i) <==> Clear(g.line, i) by {
      assert forall i: nat, k: nat :: Erred(g.line.(head := head), i, k) <==> Erred(g.line, i, k);
    }
  }

  function Lists(rs: seq<Request>): seq<Nbl> {
    seq(|rs|, i requires 0 <= i < |rs| => rs[i].nbl)
  }

  // More frames than room, and no bad one among the first of them.
  predicate Overfull(nbl: Nbl, room: int) {
    room < |nbl.frames| && forall j :: 0 <= j < room && j < |nbl.frames| ==> Fits(nbl.frames[j])
  }

  // What a list is told, with so many descriptors free: accepted exactly if the
  // link is up, every frame is good, they fit, and all of them can be mapped.
  predicate Fair(r: Request, s: Status, up: bool, linked: bool, room: int) {
    && (s == Success <==> up && linked && Sendable(r.nbl) && |r.nbl.frames| <= room && |r.nbl.frames| <= r.maps)
    && (s == Paused <==> !up)
    && (s == Disconnected <==> up && !linked)
    && (s == InvalidLength <==> up && linked && !Overfull(r.nbl, room) && !Sendable(r.nbl))
    && s in {Success, Paused, Disconnected, InvalidLength, Resources}
  }

  // All frames of some lists.
  function FrameCount(lists: seq<Nbl>): nat {
    if lists == [] then 0 else FrameCount(lists[..|lists| - 1]) + |lists[|lists| - 1].frames|
  }

  lemma FramesMore(lists: seq<Nbl>, nbl: Nbl)
    ensures FrameCount(lists + [nbl]) == FrameCount(lists) + |nbl.frames|
    ensures FrameCount([]) == 0
  {
    assert (lists + [nbl])[..|lists|] == lists;
  }

  // Each of the first i lists is told what is right for the room that the
  // accepted ones before it leave.
  ghost predicate AllFair(rs: seq<Request>, verdicts: seq<Status>, up: bool, linked: bool, room: int) {
    && |verdicts| <= |rs|
    && forall j :: 0 <= j < |verdicts| ==> Fair(rs[j], verdicts[j], up, linked, room - FrameCount(Chosen(rs[..j], verdicts[..j], true)))
  }

  lemma FairNone(rs: seq<Request>)
    ensures forall up, linked, room :: AllFair(rs, [], up, linked, room)
    ensures FrameCount(Chosen(rs[..0], [], true)) == 0
  {
  }

  lemma AllFairMore(rs: seq<Request>, verdicts: seq<Status>, s: Status, up: bool, linked: bool, room: int)
    requires AllFair(rs, verdicts, up, linked, room) && |verdicts| < |rs|
    requires Fair(rs[|verdicts|], s, up, linked, room - FrameCount(Chosen(rs[..|verdicts|], verdicts, true)))
    ensures AllFair(rs, verdicts + [s], up, linked, room)
    ensures var i := |verdicts|;
            FrameCount(Chosen(rs[..i + 1], verdicts + [s], true)) ==
              FrameCount(Chosen(rs[..i], verdicts, true)) + if s == Success then |rs[i].nbl.frames| else 0
  {
    hide Fair, FrameCount, Chosen;
    var i, more := |verdicts|, verdicts + [s];
    forall j | 0 <= j < |more|
      ensures Fair(rs[j], more[j], up, linked, room - FrameCount(Chosen(rs[..j], more[..j], true)))
    {
      assert more[..j] == verdicts[..j];
      assert j == i ==> verdicts[..j] == verdicts;
    }
    ChosenSnoc(rs, verdicts, i, s, true);
    FramesMore(Chosen(rs[..i], verdicts, true), rs[i].nbl);
    assert Chosen(rs[..i], verdicts, true) + [] == Chosen(rs[..i], verdicts, true);
  }

  // The lists that were (or were not) accepted, in order.
  function Chosen(rs: seq<Request>, verdicts: seq<Status>, accepted: bool): seq<Nbl>
    requires |verdicts| == |rs|
  {
    if rs == [] then []
    else
      var n := |rs| - 1;
      Chosen(rs[..n], verdicts[..n], accepted) + if (verdicts[n] == Success) == accepted then [rs[n].nbl] else []
  }

  function Reversed<T>(s: seq<T>): seq<T> {
    if s == [] then [] else [s[|s| - 1]] + Reversed(s[..|s| - 1])
  }

  lemma ReversedSnoc<T>(s: seq<T>, x: T)
    ensures Reversed(s + [x]) == [x] + Reversed(s)
  {
    assert (s + [x])[..|s|] == s;
  }

  lemma {:induction false} ReversedSame<T>(s: seq<T>)
    ensures multiset(Reversed(s)) == multiset(s)
  {
    if s != [] {
      ReversedSame(s[..|s| - 1]);
      assert s == s[..|s| - 1] + [s[|s| - 1]];
    }
  }

  lemma {:induction false} NonePending(tx: seq<TxSlot>)
    requires forall i :: 0 <= i < |tx| ==> tx[i].holder == Nobody
    ensures Pending(tx) == []
  {
    if tx != [] {
      NonePending(tx[1..]);
    }
  }

  lemma PendingNothing(tx: seq<TxSlot>)
    ensures Reversed(Pending(tx[..0])) == []
  {
  }

  lemma PendingStep(tx: seq<TxSlot>, i: nat)
    requires i < |tx|
    ensures Reversed(Pending(tx[..i + 1])) ==
              (if tx[i].holder.Held? && tx[i].last then [tx[i].holder.nbl] else []) + Reversed(Pending(tx[..i]))
  {
    hide Pending;
    PendingMore(tx, i);
    assert Pending(tx[..i]) + [] == Pending(tx[..i]);
    if tx[i].holder.Held? {
      ReversedSnoc(Pending(tx[..i]), tx[i].holder.nbl);
    }
  }

  lemma PendingMore(tx: seq<TxSlot>, i: nat)
    requires i < |tx|
    ensures Pending(tx[..i + 1]) == Pending(tx[..i]) + if tx[i].holder.Held? && tx[i].last then [tx[i].holder.nbl] else []
  {
    assert tx[..i + 1] == tx[..i] + [tx[i]];
    PendingConcat(tx[..i], [tx[i]]);
    assert [tx[i]][1..] == [];
  }

  lemma NothingPending(tx: seq<TxSlot>)
    ensures Pending(tx[..0]) == []
  {
  }

  // The same lists, each as often, in whatever order.
  ghost predicate Permutes(a: seq<Nbl>, b: seq<Nbl>) {
    multiset(a) == multiset(b)
  }

  function TokensOf(lists: seq<Nbl>): set<nat> {
    set i | 0 <= i < |lists| :: lists[i].token
  }

  lemma TokensMore(nbl: Nbl, lists: seq<Nbl>)
    ensures TokensOf([nbl] + lists) == {nbl.token} + TokensOf(lists)
  {
    var more := [nbl] + lists;
    assert more[0] == nbl && forall i :: 0 <= i < |lists| ==> more[i + 1] == lists[i];
  }

  // The lists given back have that status, and all others the one they had.
  ghost predicate Settled(completed: seq<Nbl>, reason: Status, before: map<nat, Status>, after: map<nat, Status>) {
    && (forall t :: t in after <==> t in before || t in TokensOf(completed))
    && (forall t :: t in after ==> after[t] == if t in TokensOf(completed) then reason else before[t])
  }

  lemma SettledNone(reason: Status, status: map<nat, Status>)
    ensures Settled([], reason, status, status)
  {
  }

  lemma SettledMore(completed: seq<Nbl>, nbl: Nbl, reason: Status, before: map<nat, Status>, after: map<nat, Status>)
    requires Settled(completed, reason, before, after)
    ensures Settled([nbl] + completed, reason, before, after[nbl.token := reason])
  {
    hide TokensOf;
    TokensMore(nbl, completed);
  }

  // The tokens of the lists that carry a cancel id.
  function Asked(lists: seq<Nbl>, cancelId: nat): set<nat> {
    set i | 0 <= i < |lists| && lists[i].cancelId == cancelId :: lists[i].token
  }

  lemma NothingAsked(cancelId: nat)
    ensures Asked([], cancelId) == {}
  {
  }

  lemma AskedSnoc(lists: seq<Nbl>, h: Holder, cancelId: nat)
    ensures h.Held? ==> Asked(lists + [h.nbl], cancelId) == Asked(lists, cancelId) + if h.nbl.cancelId == cancelId then {h.nbl.token} else {}
    ensures Asked(lists + [], cancelId) == Asked(lists, cancelId)
  {
    assert lists + [] == lists;
    if h.Held? {
      var more := lists + [h.nbl];
      assert more[|lists|] == h.nbl && forall i :: 0 <= i < |lists| ==> more[i] == lists[i];
    }
  }

  lemma AskedSame(a: seq<Nbl>, b: seq<Nbl>, cancelId: nat)
    requires Permutes(a, b)
    ensures Asked(a, cancelId) == Asked(b, cancelId)
  {
    forall t | t in Asked(a, cancelId)
      ensures t in Asked(b, cancelId)
    {
      AskedWithin(a, b, cancelId, t);
    }
    forall t | t in Asked(b, cancelId)
      ensures t in Asked(a, cancelId)
    {
      AskedWithin(b, a, cancelId, t);
    }
  }

  lemma AskedWithin(a: seq<Nbl>, b: seq<Nbl>, cancelId: nat, t: nat)
    requires Permutes(a, b) && t in Asked(a, cancelId)
    ensures t in Asked(b, cancelId)
  {
    var i :| 0 <= i < |a| && a[i].cancelId == cancelId && a[i].token == t;
    assert a[i] in multiset(b);
    var j :| 0 <= j < |b| && b[j] == a[i];
  }

  // Everything outstanding goes back at a stop: nothing is owed any more.
  lemma StopBooks(g: Log, before: map<nat, Status>, after: map<nat, Status>, completed: seq<Nbl>)
    requires Books(g, before) && Permutes(completed, g.lists[g.Done()..])
    ensures Permutes(g.handed, g.returned + completed)
    ensures Books(g.(line := Line(0, 0, 0, [], []), lists := [], sent := [], returned := g.returned + completed), after)
  {
    hide Truthful, Lined, Unique;
    assert multiset(g.returned + completed) == multiset(g.returned) + multiset(completed);
    BooksStart(g.(returned := g.returned + completed), after);
  }

  lemma NoneChosen(rs: seq<Request>)
    ensures forall accepted :: Chosen(rs[..0], [], accepted) == []
    ensures Reversed<Nbl>([]) == [] && Lists(rs[..0]) == []
  {
  }

  lemma ChosenSnoc(rs: seq<Request>, verdicts: seq<Status>, i: nat, s: Status, accepted: bool)
    requires i < |rs| && |verdicts| == i
    ensures Chosen(rs[..i + 1], verdicts + [s], accepted) ==
              Chosen(rs[..i], verdicts, accepted) + if (s == Success) == accepted then [rs[i].nbl] else []
  {
    assert rs[..i + 1][..i] == rs[..i] && (verdicts + [s])[..i] == verdicts;
  }

  lemma RequestSnoc(rs: seq<Request>, verdicts: seq<Status>, i: nat, s: Status)
    requires i < |rs| && |verdicts| == i
    ensures Chosen(rs[..i + 1], verdicts + [s], true) ==
              Chosen(rs[..i], verdicts, true) + if s == Success then [rs[i].nbl] else []
    ensures Chosen(rs[..i + 1], verdicts + [s], false) ==
              Chosen(rs[..i], verdicts, false) + if s == Success then [] else [rs[i].nbl]
    ensures Reversed(Chosen(rs[..i + 1], verdicts + [s], false)) ==
              (if s == Success then [] else [rs[i].nbl]) + Reversed(Chosen(rs[..i], verdicts, false))
    ensures Lists(rs[..i + 1]) == Lists(rs[..i]) + [rs[i].nbl]
  {
    hide Chosen, Reversed;
    ChosenSnoc(rs, verdicts, i, s, true);
    ChosenSnoc(rs, verdicts, i, s, false);
    ReversedSnoc(Chosen(rs[..i], verdicts, false), rs[i].nbl);
    assert Chosen(rs[..i], verdicts, false) + [] == Chosen(rs[..i], verdicts, false);
  }

  // What a Send call has done with its first i lists.
  ghost predicate Sorted(rs: seq<Request>, i: nat, verdicts: seq<Status>, refused: seq<Nbl>, start: Log, now: Log, status: map<nat, Status>) {
    && i <= |rs| && |verdicts| == i && start.sent <= now.sent
    && (forall j, k :: 0 <= j < k < |rs| ==> rs[j].nbl.token != rs[k].nbl.token)
    && (forall j :: i <= j < |rs| ==> rs[j].nbl.token !in now.tokens)
    && now.lists == start.lists + Chosen(rs[..i], verdicts, true)
    && now.returned == start.returned + Chosen(rs[..i], verdicts, false)
    && refused == Reversed(Chosen(rs[..i], verdicts, false))
    && now.handed == start.handed + Lists(rs[..i])
    && forall j :: 0 <= j < i ==> rs[j].nbl.token in status && status[rs[j].nbl.token] == verdicts[j]
  }

  lemma SortedNone(rs: seq<Request>, start: Log, status: map<nat, Status>)
    requires forall i :: 0 <= i < |rs| ==> rs[i].nbl.token !in start.tokens
    requires forall i, j :: 0 <= i < j < |rs| ==> rs[i].nbl.token != rs[j].nbl.token
    ensures Sorted(rs, 0, [], [], start, start, status)
  {
    NoneChosen(rs);
  }

  lemma NextIsNew(rs: seq<Request>, i: nat, verdicts: seq<Status>, refused: seq<Nbl>, start: Log, now: Log, status: map<nat, Status>)
    requires Sorted(rs, i, verdicts, refused, start, now, status) && i < |rs|
    ensures rs[i].nbl.token !in now.tokens
  {
  }

  lemma SortedMore(rs: seq<Request>, i: nat, verdicts: seq<Status>, refused: seq<Nbl>, s: Status, start: Log, before: Log, now: Log, status: map<nat, Status>)
    requires Sorted(rs, i, verdicts, refused, start, before, status) && i < |rs|
    requires now.handed == before.handed + [rs[i].nbl] && now.tokens == before.tokens + {rs[i].nbl.token} && before.sent <= now.sent
    requires now.lists == (if s == Success then before.lists + [rs[i].nbl] else before.lists)
    requires now.returned == (if s == Success then before.returned else before.returned + [rs[i].nbl])
    ensures Sorted(rs, i + 1, verdicts + [s], if s == Success then refused else [rs[i].nbl] + refused, start, now, status[rs[i].nbl.token := s])
  {
    hide Chosen, Reversed, Lists;
    RequestSnoc(rs, verdicts, i, s);
  }

  lemma SortedAll(rs: seq<Request>, verdicts: seq<Status>, refused: seq<Nbl>, start: Log, now: Log, status: map<nat, Status>)
    requires Sorted(rs, |rs|, verdicts, refused, start, now, status)
    ensures |verdicts| == |rs| && now.lists == start.lists + Chosen(rs, verdicts, true)
    ensures now.returned == start.returned + Chosen(rs, verdicts, false) && refused == Reversed(Chosen(rs, verdicts, false))
    ensures now.handed == start.handed + Lists(rs) && start.sent <= now.sent
    ensures forall i :: 0 <= i < |rs| ==> rs[i].nbl.token in status && status[rs[i].nbl.token] == verdicts[i]
  {
    hide Chosen, Reversed, Lists;
    assert rs[..|rs|] == rs;
  }

  // Only the hardware has moved.
  ghost predicate Onward(a: Log, b: Log) {
    && b == a.(line := b.line, sent := b.sent) && a.sent <= b.sent && a.line.wire <= b.line.wire
    && b.line == a.line.(wire := b.line.wire, errors := b.line.errors)
  }

  lemma OnwardSelf(a: Log)
    ensures Onward(a, a)
  {
  }

  lemma OnwardMore(a: Log, b: Log, c: Log)
    requires Onward(a, b)
    requires c == b.(line := c.line, sent := c.sent) && b.sent <= c.sent && b.line.wire <= c.line.wire
    requires c.line == b.line.(wire := c.line.wire, errors := c.line.errors)
    ensures Onward(a, c)
  {
  }

  lemma OnwardKeeps(a: Log, b: Log)
    requires Onward(a, b)
    ensures b.line.entries == a.line.entries && b.line.head == a.line.head && b.line.tail == a.line.tail
    ensures b.lists == a.lists && b.handed == a.handed && b.returned == a.returned && b.tokens == a.tokens && b.cancelled == a.cancelled
    ensures a.sent <= b.sent && a.line.wire <= b.line.wire
  {
  }

  class Adapter {
    const tx: array<TxSlot>
    const control: array<nat>
    const data: array<seq<nat>>
    var txHead: nat
    var txTail: nat
    var txCount: nat
    var running: bool
    var speed: nat
    var removed: bool
    var fault: bool
    var retainDma: bool
    var dmaTouched: bool
    var status: map<nat, Status>
    // The DMA engine: its own ring index, and whether it may be running.
    var next: nat
    var active: bool
    // Whether the rings are those of the present start.
    var live: bool
    ghost var log: Log

    ghost function V(): View
      reads tx, control, data
    {
      View(tx[..], control[..], data[..])
    }

    // The ring with a list published from entry `m` on.
    ghost predicate Rings(m: nat)
      reads this`log, this`next, tx, control, data
    {
      Ring(V(), log.line, m) && next == At(log.line.wire)
    }

    ghost predicate Counts()
      reads this`log, this`txHead, this`txTail, this`txCount
    {
      && log.line.tail <= log.line.head
      && txCount == log.line.head - log.line.tail && txHead == At(log.line.head) && txTail == At(log.line.tail)
    }

    ghost predicate Stopped()
      reads this`log, this`running, tx
    {
      && !running && log.line == Line(0, 0, 0, [], []) && log.lists == []
      && forall i :: 0 <= i < tx.Length ==> tx[i].holder == Nobody
    }

    ghost predicate Lengths() {
      tx.Length == control.Length == data.Length == N
    }

    ghost predicate Tokens()
      reads this`log
    {
      log.cancelled <= log.tokens && forall i :: 0 <= i < |log.lists| ==> log.lists[i].token in log.tokens
    }

    ghost predicate Valid()
      reads this, tx, control, data
    {
      && Lengths() && Books(log, status) && Counts() && Tokens()
      && log.line.head == |log.line.entries|
      && (if live then Rings(log.line.head) else Stopped())
      // An engine that may still run is never without its ring, or the ring's
      // memory is kept for good.
      && (active ==> dmaTouched && (live || retainDma))
      && (retainDma <==> fault || removed)
      && (speed != 0 || log.lists != [] ==> dmaTouched)
    }

    constructor ()
      ensures Valid() && !running && !fault && fresh(tx) && fresh(control) && fresh(data)
      ensures log.handed == [] && log.returned == []
    {
      tx := new TxSlot[N](_ => TxSlot(Nobody, 0, false));
      control := new nat[N](_ => 0);
      data := new seq<nat>[N](_ => []);
      txHead, txTail, txCount, speed, next := 0, 0, 0, 0, 0;
      running, removed, fault, retainDma, dmaTouched, active := false, false, false, false, false, false;
      status := map[];
      log := Log(Line(0, 0, 0, [], []), [], [], [], [], {}, {});
      live := false;
      hide Books, Ring, At;
      new;
      BooksStart(log, status);
      StartsAtZero();
    }

    // The DMA engine takes any number of steps, if it may run at all.
    method Hardware(ghost m: nat)
      requires Lengths() && Books(log, status) && Rings(m) && (log.line.head < m || m == |log.line.entries|)
      modifies control, this`next, this`log
      ensures Books(log, status) && Rings(m)
      ensures log == old(log).(line := log.line, sent := log.sent) && old(log.sent) <= log.sent
      ensures log.line == old(log.line).(wire := log.line.wire, errors := log.line.errors)
      ensures old(log.line.wire) <= log.line.wire
      ensures !active ==> log == old(log) && control[..] == old(control[..])
    {
      hide Ring, Books, WrittenBack, Used, Wraps, Length;
      if !active {
        return;
      }
      InShape(m);
      var steps: nat :| 0 <= steps;
      for s := 0 to steps
        invariant Books(log, status) && Rings(m)
        invariant log == old(log).(line := log.line, sent := log.sent) && old(log.sent) <= log.sent
        invariant log.line == old(log.line).(wire := log.line.wire, errors := log.line.errors)
        invariant old(log.line.wire) <= log.line.wire
      {
        var c := control[next];
        HardwareStops(V(), log.line, m);
        if !Used(c) {
          var errors: nat :| errors < 8;
          InShape(m);
          SendDescriptor(c, errors, m);
        }
      }
    }

    // One descriptor sent and written back.
    method SendDescriptor(c: nat, errors: nat, ghost m: nat)
      requires Lengths() && log.line.wire < log.line.head <= |log.line.entries| && next < N
      requires Books(log, status) && Rings(m)
      requires c == control[At(log.line.wire)] && errors < 8
      modifies control, this`next, this`log
      ensures Books(log, status) && Rings(m)
      ensures log == old(log).(line := log.line, sent := log.sent)
      // What goes out of the buffer is the next frame in line, exactly as staged.
      ensures Length(c) <= |old(data[next])| && old(data[next])[..Length(c)] == old(log.line.entries[log.line.wire].frame)
      ensures log.sent == old(log.sent) + [old(log.line.entries[log.line.wire].frame)]
      ensures log.line == old(log.line).(wire := old(log.line.wire) + 1, errors := old(log.line.errors) + [errors != 0])
    {
      hide Ring, Books, WrittenBack, Used, Wraps, Length;
      InShape(m);
      HardwareSends(V(), log.line, m, errors);
      BooksWire(log, status, errors != 0);
      ghost var before := control[..];
      control[next] := WrittenBack(c, errors);
      assert control[..] == before[next := WrittenBack(c, errors)];
      log := Wired(log, errors != 0);
      next := if Wraps(c) then 0 else next + 1;
    }

    lemma InShape(m: nat)
      requires Rings(m)
      ensures Shape(V(), log.line, m)
    {
    }

    // ----- Send -----

    // The checks on one list before anything is staged.
    method Verdict(nbl: Nbl) returns (s: Status)
      requires txCount < N
      ensures s == Paused <==> !running || removed
      ensures s == Disconnected <==> running && !removed && speed == 0
      ensures s == Success <==> running && !removed && speed != 0 && Sendable(nbl) && |nbl.frames| <= N - 1 - txCount
      // Once it is up: the room is looked at as far as the frames are good.
      ensures s == Resources <==> running && !removed && speed != 0 && Overfull(nbl, N - 1 - txCount)
      ensures s == InvalidLength <==> running && !removed && speed != 0 && !Overfull(nbl, N - 1 - txCount) && !Sendable(nbl)
      ensures s in {Success, Paused, Disconnected, InvalidLength, Resources}
    {
      if !running || removed {
        return Paused;
      }
      if speed == 0 {
        return Disconnected;
      }
      s := Success;
      var count := 0;
      while s == Success && count < |nbl.frames|
        invariant count <= |nbl.frames|
        invariant s == Success ==> count < N && forall j :: 0 <= j < count ==> Fits(nbl.frames[j])
        invariant forall j :: 0 <= j < count - 1 ==> Fits(nbl.frames[j])
        invariant s == InvalidLength ==> 0 < count && (count == N || !Fits(nbl.frames[count - 1]))
        invariant s == Success || s == InvalidLength
        decreases |nbl.frames| - count
      {
        count := count + 1;
        if count >= N || |nbl.frames[count - 1]| < FRAME_MIN || |nbl.frames[count - 1]| > FRAME_MAX {
          s := InvalidLength;
        }
      }
      if count == 0 {
        s := InvalidLength;
      }
      if count > N - 1 - txCount {
        s := Resources;
      }
    }

    // Copy the frames, padded, into the buffers from txHead on; nothing is
    // published, whether or not all of them can be mapped.
    method Stage(r: Request) returns (ok: bool)
      requires Lengths() && Books(log, status) && Rings(log.line.head) && Counts() && log.line.head == |log.line.entries|
      requires Sendable(r.nbl) && |r.nbl.frames| <= N - 1 - txCount
      modifies tx, control, data, this`next, this`log
      ensures Books(log, status) && Rings(log.line.head) && Counts()
      ensures log == old(log).(line := log.line, sent := log.sent) && old(log.sent) <= log.sent
      ensures log.line == old(log.line).(wire := log.line.wire, errors := log.line.errors)
      ensures old(log.line.wire) <= log.line.wire
      ensures ok <==> |r.nbl.frames| <= r.maps
      ensures ok ==> forall t :: 0 <= t < |r.nbl.frames| ==> StagedAt(V(), At(log.line.head + t), Pad(r.nbl.frames[t]))
    {
      hide Ring, Books, At;
      var index := txHead;
      for t := 0 to |r.nbl.frames|
        invariant Books(log, status) && Rings(log.line.head)
        invariant log == old(log).(line := log.line, sent := log.sent) && old(log.sent) <= log.sent
        invariant log.line == old(log.line).(wire := log.line.wire, errors := log.line.errors)
        invariant old(log.line.wire) <= log.line.wire
        invariant t <= r.maps && index == At(log.line.head + t)
        invariant forall u :: 0 <= u < t ==> StagedAt(V(), At(log.line.head + u), Pad(r.nbl.frames[u]))
      {
        if r.maps == t {
          return false;
        }
        Hardware(log.line.head);
        InShape(log.line.head);
        Next(log.line.head + t);
        var frame := Pad(r.nbl.frames[t]);
        var slot, bytes := tx[index].(length := |frame|), Overlay(data[index], frame);
        RingStage(V(), log.line, r.nbl.frames, t, slot, bytes);
        ghost var before := V();
        tx[index], data[index] := slot, bytes;
        assert V() == before.(tx := before.tx[index := slot], data := before.data[index := bytes]);
        index := (index + 1) % N;
      }
      ok := true;
    }

    // Publish backwards: the hardware, wherever it is, sees none of the list
    // until its first descriptor is in place.
    method Publish(nbl: Nbl)
      requires Lengths() && Books(log, status) && Rings(log.line.head) && Counts() && log.line.head == |log.line.entries|
      requires Sendable(nbl) && |nbl.frames| <= N - 1 - txCount && nbl.token !in log.tokens && nbl.token !in log.cancelled
      requires forall t :: 0 <= t < |nbl.frames| ==> StagedAt(V(), At(log.line.head + t), Pad(nbl.frames[t]))
      modifies tx, control, this`next, this`log, this`status, this`txHead, this`txCount
      ensures Books(log, status) && Rings(log.line.head) && Counts() && log.line.head == |log.line.entries|
      ensures log.lists == old(log.lists) + [nbl] && log.handed == old(log.handed) + [nbl] && log.returned == old(log.returned)
      ensures log.tokens == old(log.tokens) + {nbl.token} && log.cancelled == old(log.cancelled)
      ensures log.line.tail == old(log.line.tail) && status == old(status)[nbl.token := Success] && txCount == old(txCount) + |nbl.frames|
      ensures old(log.sent) <= log.sent && old(log.line.wire) <= log.line.wire
    {
      hide Ring, Books, At, Word, Sendable, EntriesOf, Onward;
      ghost var head := log.line.head;
      RingOpen(V(), log.line, nbl, |log.lists|);
      BooksAccept(log, status, nbl);
      ghost var posted := Accepted(log, nbl);
      log, status := posted, status[nbl.token := Success];
      OnwardSelf(posted);
      var j: nat := |nbl.frames|;
      while j > 0
        invariant j <= |nbl.frames| && Books(log, status) && Rings(head + j) && Onward(posted, log)
        invariant status == old(status)[nbl.token := Success] && txHead == old(txHead) && txCount == old(txCount)
      {
        PublishNext(nbl, j, posted);
        j := j - 1;
      }
      OnwardKeeps(posted, log);
      PublishLast(|nbl.frames|);
    }

    method PublishNext(nbl: Nbl, j: nat, ghost posted: Log)
      requires Lengths() && Books(log, status) && Onward(posted, log) && 0 < j <= |nbl.frames| && 0 < |posted.lists|
      requires Rings(posted.line.head + j) && txHead == At(posted.line.head)
      requires posted.line.head + |nbl.frames| == |posted.line.entries| && posted.line.entries[posted.line.head..] == EntriesOf(|posted.lists| - 1, nbl)
      modifies tx, control, this`next, this`log
      ensures Books(log, status) && Onward(posted, log) && Rings(posted.line.head + (j - 1))
    {
      hide Ring, Books, At, Word, EntriesOf, Onward;
      ghost var head, before := posted.line.head, log;
      OnwardKeeps(posted, log);
      Hardware(head + j);
      OnwardMore(posted, before, log);
      OnwardKeeps(posted, log);
      Advance(head, j - 1);
      EntryOf(posted, nbl, head, j - 1);
      PublishOne((txHead + (j - 1)) % N, nbl, j == |nbl.frames|, head + j);
    }

    // The whole list is in the ring: move the head past it.
    method PublishLast(count: nat)
      requires Lengths() && Books(log, status) && Rings(log.line.head) && Counts() && log.line.head + count == |log.line.entries|
      modifies this`log, this`txHead, this`txCount
      ensures Books(log, status) && Rings(log.line.head) && Counts() && txCount == old(txCount) + count
      ensures log == old(log).(line := old(log.line).(head := |old(log.line.entries)|))
    {
      hide Ring, Books, At;
      RingClose(V(), log.line);
      BooksHead(log, status, |log.line.entries|);
      Advance(log.line.head, count);
      log := log.(line := log.line.(head := |log.line.entries|));
      txCount := txCount + count;
      txHead := (txHead + count) % N;
    }

    // One descriptor handed over, from the last of the list to the first.
    method PublishOne(i: nat, nbl: Nbl, last: bool, ghost m: nat)
      requires Lengths() && Rings(m) && log.line.head < m <= |log.line.entries| && i == At(m - 1) && i < N
      requires log.line.entries[m - 1].nbl == nbl && log.line.entries[m - 1].last == last
      modifies tx, control
      ensures Rings(m - 1)
    {
      hide Ring, At, Word;
      RingPublish(V(), log.line, m);
      ghost var before := V();
      var slot := tx[i];
      tx[i] := TxSlot(Held(nbl), slot.length, last);
      control[i] := Word(slot.length, i);
      assert V() == before.(tx := before.tx[i := tx[i]], control := before.control[i := control[i]]);
    }

    lemma EntryOf(posted: Log, nbl: Nbl, head: nat, t: nat)
      requires t < |nbl.frames| && head + |nbl.frames| == |posted.line.entries| && 0 < |posted.lists|
      requires posted.line.entries[head..] == EntriesOf(|posted.lists| - 1, nbl)
      ensures posted.line.entries[head + t] == Entry(|posted.lists| - 1, nbl, Pad(nbl.frames[t]), t + 1 == |nbl.frames|)
    {
      assert posted.line.entries[head + t] == posted.line.entries[head..][t];
    }

    // One list of a Send call: it is either published whole or goes back at once.
    method SendOne(r: Request) returns (s: Status)
      requires Valid() && r.nbl.token !in log.tokens
      modifies this, tx, control, data
      ensures Valid() && Same()
      ensures Fair(r, s, running && !removed, speed != 0, N - 1 - old(txCount))
      ensures txCount == old(txCount) + if s == Success then |r.nbl.frames| else 0
      ensures log.handed == old(log.handed) + [r.nbl] && log.tokens == old(log.tokens) + {r.nbl.token}
      ensures log.lists == (if s == Success then old(log.lists) + [r.nbl] else old(log.lists))
      ensures log.returned == (if s == Success then old(log.returned) else old(log.returned) + [r.nbl])
      ensures status == old(status)[r.nbl.token := s]
      ensures log.cancelled == old(log.cancelled) && log.line.tail == old(log.line.tail)
      ensures old(log.sent) <= log.sent && old(log.line.wire) <= log.line.wire
    {
      hide Ring, Books, At, Sendable, Overfull;
      CountsInRing();
      s := Verdict(r.nbl);
      if s == Success {
        var ok := Stage(r);
        if ok {
          Publish(r.nbl);
        } else {
          s := Resources;
        }
      }
      if s != Success {
        Refuse(r.nbl, s);
      }
    }

    method Refuse(nbl: Nbl, s: Status)
      requires Valid() && nbl.token !in log.tokens && s != Success
      modifies this`log, this`status
      ensures Valid() && status == old(status)[nbl.token := s]
      ensures log == old(log).(handed := old(log.handed) + [nbl], returned := old(log.returned) + [nbl], tokens := old(log.tokens) + {nbl.token})
    {
      hide Ring, Books, At;
      BooksRefuse(log, status, nbl, s);
      log := log.(handed := log.handed + [nbl], returned := log.returned + [nbl], tokens := log.tokens + {nbl.token});
      status := status[nbl.token := s];
    }

    lemma CountsInRing()
      requires Valid()
      ensures txCount < N
    {
    }

    // What sending leaves alone.
    twostate predicate Same()
      reads this
    {
      && running == old(running) && speed == old(speed) && removed == old(removed) && fault == old(fault)
      && retainDma == old(retainDma) && dmaTouched == old(dmaTouched) && active == old(active) && live == old(live)
    }

    // Send. The refused lists come back with their reasons, newest first; the
    // others join the line in the order given.
    method Send(rs: seq<Request>) returns (refused: seq<Nbl>, ghost verdicts: seq<Status>)
      requires Valid()
      requires forall i :: 0 <= i < |rs| ==> rs[i].nbl.token !in log.tokens
      requires forall i, j :: 0 <= i < j < |rs| ==> rs[i].nbl.token != rs[j].nbl.token
      modifies this, tx, control, data
      ensures Valid() && Same() && |verdicts| == |rs|
      ensures AllFair(rs, verdicts, running && !removed, speed != 0, N - 1 - old(txCount))
      ensures log.lists == old(log.lists) + Chosen(rs, verdicts, true)
      ensures log.returned == old(log.returned) + Chosen(rs, verdicts, false)
      ensures refused == Reversed(Chosen(rs, verdicts, false))
      ensures log.handed == old(log.handed) + Lists(rs)
      ensures forall i :: 0 <= i < |rs| ==> rs[i].nbl.token in status && status[rs[i].nbl.token] == verdicts[i]
      ensures old(log.sent) <= log.sent
    {
      hide Valid, Sendable, Sorted, AllFair, FrameCount, Chosen, Fair, Overfull;
      refused, verdicts := [], [];
      SortedNone(rs, log, status);
      FairNone(rs);
      for i := 0 to |rs|
        invariant Valid() && Same() && Sorted(rs, i, verdicts, refused, old(log), log, status) && |verdicts| == i
        invariant AllFair(rs, verdicts, running && !removed, speed != 0, N - 1 - old(txCount))
        invariant txCount == old(txCount) + FrameCount(Chosen(rs[..i], verdicts, true))
      {
        ghost var before, was := log, status;
        NextIsNew(rs, i, verdicts, refused, old(log), log, status);
        var s := SendOne(rs[i]);
        SortedMore(rs, i, verdicts, refused, s, old(log), before, log, was);
        AllFairMore(rs, verdicts, s, running && !removed, speed != 0, N - 1 - old(txCount));
        if s != Success {
          refused := [rs[i].nbl] + refused;
        }
        verdicts := verdicts + [s];
      }
      SortedAll(rs, verdicts, refused, old(log), log, status);
    }

    // ----- CompleteTransmit -----

    // Retire every descriptor the hardware is seen to have sent. Each list whose
    // final frame is among them is completed, once.
    method CompleteTransmit() returns (completed: seq<Nbl>)
      requires Valid()
      modifies this, tx, control
      ensures Valid() && Same()
      ensures log.lists == old(log.lists) && log.handed == old(log.handed)
      ensures !running ==> log == old(log) && completed == []
      ensures running ==> old(log.line.wire) <= log.line.tail
      ensures old(log.Done()) <= log.Done() <= |log.lists|
      ensures completed == Reversed(log.lists[old(log.Done())..log.Done()])
      ensures log.returned == old(log.returned) + log.lists[old(log.Done())..log.Done()]
      ensures old(log.sent) <= log.sent
    {
      hide Ring, Books, At, Sendable, Used, Failed, OwnerAt, Reversed;
      completed := [];
      NoneChosen([]);
      ghost var done := log.Done();
      var going := running;
      DoneInRange();
      assert log.lists[done..done] == [];
      while going && txCount > 0
        invariant Valid() && Same() && log.handed == old(log.handed) && log.lists == old(log.lists)
        invariant going ==> running
        invariant running && !going ==> old(log.line.wire) <= log.line.tail
        invariant !running ==> log == old(log)
        invariant done <= log.Done() <= |log.lists|
        invariant completed == Reversed(log.lists[done..log.Done()])
        invariant log.returned == old(log.returned) + log.lists[done..log.Done()]
        invariant old(log.sent) <= log.sent && old(log.line.wire) <= log.line.wire
        decreases going, txCount
      {
        ghost var d := log.Done();
        var more;
        going, more := CompleteNext();
        assert log.lists[done..d] + log.lists[d..log.Done()] == log.lists[done..log.Done()];
        OneMore(log.lists[done..d], more);
        completed := more + completed;
      }
      if running {
        WireAtHead();
      }
    }

    lemma OneMore(lists: seq<Nbl>, more: seq<Nbl>)
      requires |more| <= 1
      ensures more + Reversed(lists) == Reversed(lists + more)
    {
      hide Reversed;
      if more == [] {
        assert lists + more == lists && more + Reversed(lists) == Reversed(lists);
      } else {
        ReversedSnoc(lists, more[0]);
        assert more == [more[0]];
      }
    }

    // The descriptor at the tail, if the hardware has sent it; a list completed
    // by it.
    method CompleteNext() returns (going: bool, completed: seq<Nbl>)
      requires Valid() && running && txCount > 0
      modifies this, tx, control
      ensures Valid() && Same() && log.handed == old(log.handed) && log.lists == old(log.lists)
      ensures if going then txCount < old(txCount) else log.line.wire <= log.line.tail
      ensures old(log.Done()) <= log.Done() <= |log.lists| && |completed| <= 1
      ensures completed == log.lists[old(log.Done())..log.Done()] && log.returned == old(log.returned) + completed
      ensures old(log.sent) <= log.sent && old(log.line.wire) <= log.line.wire
    {
      hide Ring, Books, At, Sendable, Used, Failed, OwnerAt;
      completed := [];
      DoneInRange();
      Hardware(log.line.head);
      var c := control[txTail];
      InShape(log.line.head);
      TailShows();
      going := Used(c);
      if going {
        ghost var d := log.Done();
        var e, last := Retire(c);
        if last {
          assert log.lists[d..d + 1] == [e];
          completed := [e];
        }
      }
    }

    lemma DoneInRange()
      requires Valid()
      ensures log.line.tail <= log.line.wire <= |log.line.entries| && log.Done() <= |log.lists|
      ensures running ==> live && Rings(log.line.head)
    {
    }

    // If the descriptor at the tail is unused, the hardware has sent nothing beyond.
    lemma TailShows()
      requires Valid() && live && txCount > 0
      ensures log.line.tail < log.line.wire ==> Used(control[txTail])
    {
      assert control[txTail] == V().control[At(log.line.tail)];
    }

    // Nothing left to retire: nothing was left to send.
    lemma WireAtHead()
      requires Valid()
      ensures txCount == 0 ==> log.line.wire == log.line.tail
    {
    }

    method Retire(c: nat) returns (nbl: Nbl, last: bool)
      requires Valid() && running && txCount > 0 && c == control[txTail] && Used(c)
      modifies this`txTail, this`txCount, this`status, this`log, tx
      ensures Valid() && txCount == old(txCount) - 1
      ensures log.lists == old(log.lists) && log.handed == old(log.handed) && log.sent == old(log.sent)
      ensures log.line == old(log.line).(tail := old(log.line.tail) + 1) && old(log.line.tail) < log.line.wire
      ensures old(log.Done()) < |log.lists| && nbl == log.lists[old(log.Done())]
      ensures log.Done() == old(log.Done()) + (if last then 1 else 0)
      ensures log.returned == if last then old(log.returned) + [nbl] else old(log.returned)
    {
      hide Ring, Books, At, Sendable, Used, Failed, OwnerAt;
      InShape(log.line.head);
      RingRetire(V(), log.line);
      BooksRetire(log, status);
      Next(log.line.tail);
      ghost var before := V();
      var slot := tx[txTail];
      last := slot.last;
      if slot.holder.Nobody? {
        // A published descriptor keeps its list until it is retired.
        assert false;
      } else {
        nbl := slot.holder.nbl;
      }
      if Failed(c) {
        status := status[nbl.token := Failure];
      }
      tx[txTail] := slot.(holder := Nobody);
      assert V() == before.(tx := before.tx[txTail := tx[txTail]]);
      log := Retired(log);
      txTail := (txTail + 1) % N;
      txCount := txCount - 1;
    }

    // ----- starting and stopping -----

    // StopHardware. `stuck` says that the transmitter does not go idle. Whatever
    // the engine did, every outstanding list is given back, exactly once.
    method StopHardware(reason: Status, stuck: bool) returns (completed: seq<Nbl>)
      requires Valid()
      modifies this, tx, control
      ensures Valid() && !running && !live && speed == 0
      ensures removed == old(removed) && fault == (old(fault) || (old(dmaTouched && !removed) && stuck))
      ensures log.handed == old(log.handed) && log.tokens == old(log.tokens) && log.lists == []
      ensures Permutes(completed, old(log.lists)[old(log.Done())..])
      ensures log.returned == old(log.returned) + completed
      ensures Settled(completed, reason, old(status), status)
      ensures Permutes(log.handed, log.returned)
    {
      hide Valid;
      Drain(stuck);
      completed := Reclaim(reason);
    }

    // Submission stops first; then the engine gets time to finish.
    method Drain(stuck: bool)
      requires Valid()
      modifies this, control
      ensures Valid() && !running && speed == 0 && (active ==> retainDma)
      ensures removed == old(removed) && fault == (old(fault) || (old(dmaTouched && !removed) && stuck)) && status == old(status)
      ensures log == old(log).(line := log.line, sent := log.sent)
      ensures log.line == old(log.line).(wire := log.line.wire, errors := log.line.errors)
    {
      hide Ring, Books, At;
      running, speed := false, 0;
      if live {
        Hardware(log.line.head);
      }
      if dmaTouched && !removed {
        if stuck {
          retainDma, fault := true, true;
        } else {
          active := false;
        }
      }
    }

    // Every list still in a slot is given back, and the ring is forgotten.
    method Reclaim(reason: Status) returns (completed: seq<Nbl>)
      requires Valid() && !running && speed == 0 && (active ==> retainDma)
      modifies this, tx
      ensures Valid() && !running && !live && speed == 0 && removed == old(removed) && fault == old(fault)
      ensures log.handed == old(log.handed) && log.tokens == old(log.tokens) && log.lists == []
      ensures Permutes(completed, old(log.lists)[old(log.Done())..])
      ensures log.returned == old(log.returned) + completed && Permutes(log.handed, log.returned)
      ensures Settled(completed, reason, old(status), status)
    {
      hide Ring, Books, At, Pending, OwnerAt, Shape, Permutes;
      AllOutstanding();
      ghost var before := status;
      completed := Collect(reason);
      StopBooks(log, before, status, completed);
      Forget(completed);
    }

    // An empty line, and no ring.
    method Forget(ghost completed: seq<Nbl>)
      requires Lengths() && !running && speed == 0 && (active ==> dmaTouched && retainDma) && (retainDma <==> fault || removed) && log.cancelled <= log.tokens
      requires Books(log.(line := Line(0, 0, 0, [], []), lists := [], sent := [], returned := log.returned + completed), status)
      requires forall i :: 0 <= i < tx.Length ==> tx[i].holder == Nobody
      modifies this`log, this`live, this`txCount, this`txHead, this`txTail
      ensures Valid() && !live
      ensures log == old(log).(line := Line(0, 0, 0, [], []), lists := [], sent := [], returned := old(log.returned) + completed)
    {
      hide Ring, Books, At;
      log := log.(line := Line(0, 0, 0, [], []), lists := [], sent := [], returned := log.returned + completed);
      live := false;
      txCount, txHead, txTail := 0, 0, 0;
      StartsAtZero();
    }

    lemma Outstanding()
      requires Valid() && live
      ensures Permutes(Pending(tx[..]), log.lists[log.Done()..])
    {
      hide Ring, Grouped, Flatten;
      PendingIsOutstanding(V(), log.line);
      FlattenGrouped(log.lists);
      LastsFrom(log.line.entries, log.lists, log.line.tail);
    }

    lemma NoneOutstanding()
      requires Valid() && !live
      ensures Permutes(Pending(tx[..]), log.lists[log.Done()..])
    {
      NonePending(tx[..]);
    }

    // Go through the slots, mark and take what they hold.
    method Collect(reason: Status) returns (completed: seq<Nbl>)
      requires Lengths()
      modifies tx, this`status
      ensures forall lists :: Permutes(Pending(old(tx[..])), lists) ==> Permutes(completed, lists)
      ensures forall i :: 0 <= i < N ==> tx[i].holder == Nobody
      ensures Settled(completed, reason, old(status), status)
    {
      hide Pending, Reversed, Settled;
      SettledNone(reason, status);
      completed := [];
      ghost var was := tx[..];
      PendingNothing(was);
      for i := 0 to N
        invariant completed == Reversed(Pending(was[..i]))
        invariant forall j :: 0 <= j < i ==> tx[j].holder == Nobody
        invariant forall j :: i <= j < N ==> tx[j] == was[j]
        invariant Settled(completed, reason, old(status), status)
      {
        PendingStep(was, i);
        if tx[i].holder.Held? && tx[i].last {
          SettledMore(completed, tx[i].holder.nbl, reason, old(status), status);
          status := status[tx[i].holder.nbl.token := reason];
          completed := [tx[i].holder.nbl] + completed;
        }
        tx[i] := tx[i].(holder := Nobody);
      }
      assert was[..N] == was;
      ReversedSame(Pending(was));
    }

    // StartHardware: the rings are rebuilt only while no engine can be running.
    method StartHardware(newSpeed: nat)
      requires Valid() && !running && !live && !fault && !removed
      modifies this, control
      ensures Valid() && running && live && speed == newSpeed && !fault && !removed
      ensures log == old(log) && status == old(status)
    {
      hide Ring, Books, At, Sendable, Failed, OwnerAt, Used;
      assert !active;
      InitRings();
      next := 0;
      RingStart(V());
      StartsAtZero();
      live := true;
      speed := newSpeed;
      running := true;
      if newSpeed != 0 {
        dmaTouched, active := true, true;
      }
    }

    // gem_init_rings: every transmit descriptor is the CPU's.
    method InitRings()
      requires Lengths()
      modifies control
      ensures forall i :: 0 <= i < N ==> Used(control[i]) && (Wraps(control[i]) <==> i == N - 1)
    {
      for i := 0 to N
        invariant forall j :: 0 <= j < i ==> Used(control[j]) && (Wraps(control[j]) <==> j == N - 1)
      {
        control[i] := USED + if i == N - 1 then WRAP else 0;
      }
    }

    lemma StartsAtZero()
      ensures At(0) == 0
    {
    }

    // The maintenance thread after a fault, a hang or a change of the link.
    method Recover(newSpeed: nat, reason: Status, stuck: bool) returns (completed: seq<Nbl>)
      requires Valid() && !removed
      modifies this, tx, control
      ensures Valid() && log.handed == old(log.handed)
      ensures log.returned == old(log.returned) + completed && Permutes(log.handed, log.returned)
      ensures Permutes(completed, old(log.lists)[old(log.Done())..])
      ensures running <==> !fault
      ensures Settled(completed, reason, old(status), status) && speed == (if fault then 0 else newSpeed)
      ensures fault == (old(fault) || (old(dmaTouched) && stuck))
    {
      hide Ring, Books, At;
      completed := StopHardware(reason, stuck);
      if !fault {
        StartHardware(newSpeed);
      }
    }

    // PnpEvent: the device is gone, and its memory is never given back.
    method SurpriseRemoval()
      requires Valid()
      modifies this`removed, this`retainDma, this`running
      ensures Valid() && removed && !running && retainDma
    {
      hide Ring, Books, At;
      removed, retainDma, running := true, true, false;
    }

    // The DPC on a fatal interrupt: no more work until the recovery.
    method Fail()
      requires Valid()
      modifies this`running
      ensures Valid() && !running
    {
      hide Ring, Books, At;
      running := false;
    }

    // CancelSend: the frames are in the hardware's hands and stay there.
    method CancelSend(cancelId: nat)
      requires Valid()
      modifies this`status, this`log
      // Exactly the outstanding lists with that id are marked, and no other.
      ensures Valid() && log == old(log).(cancelled := old(log.cancelled) + Asked(log.lists[log.Done()..], cancelId))
      ensures forall t :: t in status <==> t in old(status) || t in Asked(log.lists[log.Done()..], cancelId)
      ensures forall t :: t in status ==> status[t] == if t in Asked(log.lists[log.Done()..], cancelId) then Aborted else old(status)[t]
    {
      hide Ring, Books, At, Pending, Permutes, Asked;
      ghost var hit: set<nat> := {};
      ghost var before := status;
      HeldAreKnown();
      AllOutstanding();
      NothingPending(tx[..]);
      NothingAsked(cancelId);
      for i := 0 to N
        invariant log == old(log) && hit <= log.tokens && hit == Asked(Pending(tx[..i]), cancelId)
        invariant forall t :: t in before || t in hit <==> t in status
        invariant forall t :: t in status ==> status[t] == if t in hit then Aborted else before[t]
      {
        var slot := tx[i];
        PendingMore(tx[..], i);
        assert tx[..][..i] == tx[..i] && tx[..][..i + 1] == tx[..i + 1];
        AskedSnoc(Pending(tx[..i]), slot.holder, cancelId);
        if slot.holder.Held? && slot.last && slot.holder.nbl.cancelId == cancelId {
          status := status[slot.holder.nbl.token := Aborted];
          hit := hit + {slot.holder.nbl.token};
        }
      }
      assert tx[..N] == tx[..];
      AskedSame(Pending(tx[..]), log.lists[log.Done()..], cancelId);
      BooksCancel(log, before, status, hit);
      log := log.(cancelled := log.cancelled + hit);
    }

    lemma AllOutstanding()
      requires Valid()
      ensures log.Done() <= |log.lists| && Permutes(Pending(tx[..]), log.lists[log.Done()..])
    {
      DoneInRange();
      if live {
        Outstanding();
      } else {
        NoneOutstanding();
      }
    }

    lemma HeldAreKnown()
      requires Valid()
      ensures forall i :: 0 <= i < N && tx[i].holder.Held? ==> tx[i].holder.nbl.token in log.tokens
    {
      if live {
        hide Grouped, Flatten, Sendable;
        FlattenGrouped(log.lists);
        forall i | 0 <= i < N && tx[i].holder.Held?
          ensures tx[i].holder.nbl.token in log.tokens
        {
          var k := HolderAt(V(), log.line, i);
          GroupedAt(log.line.entries, log.lists, k);
        }
      }
    }

    // Cleanup: with everything stopped, the buffer is freed only if no engine
    // can still be using it.
    method Cleanup(stuck: bool) returns (completed: seq<Nbl>, freed: bool)
      requires Valid()
      modifies this, tx, control
      ensures Valid() && log.handed == old(log.handed)
      ensures Permutes(log.handed, log.returned) && log.returned == old(log.returned) + completed
      ensures freed ==> !active
      ensures freed <==> !retainDma
      ensures retainDma == (old(retainDma) || (old(dmaTouched && !removed) && stuck))
      ensures Settled(completed, Closing, old(status), status)
    {
      hide Ring, Books, At;
      completed := [];
      if dmaTouched {
        completed := StopHardware(Closing, stuck);
      } else {
        NeverStarted();
      }
      freed := !retainDma;
    }

    lemma NeverStarted()
      requires Valid() && !dmaTouched
      ensures Permutes(log.handed, log.returned)
    {
    }
  }
}
