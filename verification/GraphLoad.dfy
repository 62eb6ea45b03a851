// Loading the hardware graph (pi5-graph/graph.c): every answer of the source is
// checked, every allocation is counted against a budget and has one owner.
module GraphLoad {
  import opened GraphTree
  import opened GraphDecode
  import opened GraphSource
  import opened GraphServes

  // ----- allocations -----

  datatype Cell = Null | Cell(id: nat, text: Text)

  datatype PropertySlot = PropertySlot(name: Cell, data: seq<Byte>)
  datatype Slot = Slot(path: Cell, owner: Cell, parent: nat, count: nat, phandle: nat, table: Cell, properties: seq<PropertySlot>)

  const EMPTY: Slot := Slot(Null, Null, 0, 0, 0, Null, [])

  function Id(c: Cell): multiset<nat> {
    if c.Null? then multiset{} else multiset{c.id}
  }

  function NameIds(ps: seq<PropertySlot>): multiset<nat> {
    if ps == [] then multiset{} else Id(ps[0].name) + NameIds(ps[1..])
  }

  function SlotIds(s: Slot): multiset<nat> {
    Id(s.path) + Id(s.owner) + Id(s.table) + NameIds(s.properties)
  }

  function NodeIds(ns: seq<Slot>): multiset<nat> {
    if ns == [] then multiset{} else SlotIds(ns[0]) + NodeIds(ns[1..])
  }

  lemma Regroup(a: multiset<nat>, x: multiset<nat>, y: multiset<nat>, u: multiset<nat>, v: multiset<nat>)
    requires x + y == u + v
    ensures (a + x) + y == (a + u) + v
  {
    assert (a + x) + y == a + (x + y);
  }

  lemma Tails(ns: seq<Slot>, i: nat, s: Slot)
    requires i < |ns|
    ensures ns[i := s][1..] == if i == 0 then ns[1..] else ns[1..][i - 1 := s]
  {
  }

  lemma NodeIdsFirst(ns: seq<Slot>)
    requires ns != []
    ensures NodeIds(ns) == SlotIds(ns[0]) + NodeIds(ns[1..])
  {
  }

  lemma Swap(x: multiset<nat>, y: multiset<nat>, z: multiset<nat>)
    ensures (x + y) + z == (z + y) + x
  {
  }

  lemma {:induction false} NodeIdsUpdate(ns: seq<Slot>, i: nat, s: Slot)
    requires i < |ns|
    ensures NodeIds(ns[i := s]) + SlotIds(ns[i]) == NodeIds(ns) + SlotIds(s)
  {
    var after, rest := ns[i := s], ns[1..];
    hide SlotIds, NodeIds;
    NodeIdsFirst(ns);
    NodeIdsFirst(after);
    Tails(ns, i, s);
    if i == 0 {
      Swap(SlotIds(s), NodeIds(rest), SlotIds(ns[0]));
    } else {
      NodeIdsUpdate(rest, i - 1, s);
      Regroup(SlotIds(ns[0]), NodeIds(after[1..]), SlotIds(ns[i]), NodeIds(rest), SlotIds(s));
    }
  }

  lemma {:induction false} NameIdsUpdate(ps: seq<PropertySlot>, j: nat, p: PropertySlot)
    requires j < |ps|
    ensures NameIds(ps[j := p]) + Id(ps[j].name) == NameIds(ps) + Id(p.name)
  {
    hide Id;
    var after := ps[j := p];
    if j == 0 {
      assert after[1..] == ps[1..];
    } else {
      assert after[1..] == ps[1..][j - 1 := p];
      NameIdsUpdate(ps[1..], j - 1, p);
      Regroup(Id(ps[0].name), NameIds(after[1..]), Id(ps[j].name), NameIds(ps[1..]), Id(p.name));
    }
  }

  lemma Grown(x: multiset<nat>, live: set<nat>, id: nat)
    requires x == multiset(live) && id !in live
    ensures x + multiset{id} == multiset(live + {id})
  {
  }

  lemma Shrunk(x: multiset<nat>, live: set<nat>, id: nat)
    requires x + multiset{id} == multiset(live)
    ensures id in live && x == multiset(live - {id})
  {
    assert (x + multiset{id})[id] == x[id] + 1;
    assert id in multiset(live);
    forall k: nat
      ensures x[k] == multiset(live - {id})[k]
    {
      assert (x + multiset{id})[k] == multiset(live)[k];
    }
  }

  // A slot with one more name in it.
  lemma SlotGain(s: Slot, ps: seq<PropertySlot>, extra: multiset<nat>)
    requires NameIds(ps) == NameIds(s.properties) + extra
    ensures SlotIds(s.(properties := ps)) == SlotIds(s) + extra
  {
    hide NameIds, Id;
    assert Id(s.path) + Id(s.owner) + Id(s.table) + (NameIds(s.properties) + extra) == SlotIds(s) + extra;
  }

  lemma {:induction false} NoNodeIds(n: nat)
    ensures NodeIds(seq(n, _ => EMPTY)) == multiset{}
    decreases n
  {
    if n > 0 {
      assert seq(n, _ => EMPTY)[1..] == seq(n - 1, _ => EMPTY);
      NoNodeIds(n - 1);
    }
  }

  const NAMELESS: PropertySlot := PropertySlot(Null, [])

  lemma {:induction false} NoNameIds(n: nat)
    ensures NameIds(seq(n, _ => NAMELESS)) == multiset{}
    decreases n
  {
    if n > 0 {
      assert seq(n, _ => NAMELESS)[1..] == seq(n - 1, _ => NAMELESS);
      NoNameIds(n - 1);
    }
  }

  function Chars(c: Cell): Text {
    if c.Null? then [] else c.text
  }

  function NodeAt(s: Slot): Node {
    Node(Chars(s.path), Chars(s.owner), s.parent, s.phandle,
         seq(|s.properties|, j requires 0 <= j < |s.properties| => Property(Chars(s.properties[j].name), s.properties[j].data)))
  }

  function GraphOf(ns: seq<Slot>): (g: Graph)
    ensures |g| == |ns|
  {
    seq(|ns|, i requires 0 <= i < |ns| => NodeAt(ns[i]))
  }

  // ----- one property -----

  predicate Begun(src: Source, i: nat, j: nat, ps: seq<PropertySlot>, name: Text, total: nat) {
    && j < |ps| && ps[j].name.Cell? && ps[j].name.text == name
    && PieceAt(src, i, j, 0).Piece? && PieceAt(src, i, j, 0).name == name && PieceAt(src, i, j, 0).total == total
    && forall k :: 0 <= k < j ==> Chars(ps[k].name) != name
  }

  predicate PropertyLoaded(src: Source, i: nat, j: nat, ps: seq<PropertySlot>) {
    && j < |ps| && ps[j].name.Cell? && IsProperty(src, i, j, Property(ps[j].name.text, ps[j].data))
    && forall k :: 0 <= k < j ==> Chars(ps[k].name) != ps[j].name.text
  }

  lemma TitledTotal(a: seq<Argument>)
    requires |a| == 3 && (forall k :: 0 <= k < 3 ==> Proper(a[k])) && Titled(a)
    ensures a[0].kind == 1 && Integer(a[1]).Number? && Integer(a[1]).value <= LIMIT
  {
  }

  lemma GatherOnce(src: Source, i: nat, j: nat, name: Text, total: nat, offset: nat)
    requires offset <= total && PieceAt(src, i, j, offset).Piece?
    requires PieceAt(src, i, j, offset).name == name && PieceAt(src, i, j, offset).total == total
    ensures var chunk := PieceAt(src, i, j, offset).chunk;
            && offset + |chunk| <= total && (chunk == [] ==> offset == total)
            && Gather(src, i, j, name, total, offset) ==
                 if offset + |chunk| == total then Present(chunk) else Join(chunk, Gather(src, i, j, name, total, offset + |chunk|))
  {
    hide PieceAt;
  }

  lemma GatherStep(src: Source, i: nat, j: nat, name: Text, total: nat, offset: nat, data: seq<Byte>)
    requires offset <= total && PieceAt(src, i, j, offset).Piece?
    requires PieceAt(src, i, j, offset).name == name && PieceAt(src, i, j, offset).total == total
    ensures var chunk := PieceAt(src, i, j, offset).chunk;
            && offset + |chunk| <= total && (chunk == [] ==> offset == total)
            && Join(data, Gather(src, i, j, name, total, offset)) ==
                 if offset + |chunk| == total then Present(data + chunk)
                 else Join(data + chunk, Gather(src, i, j, name, total, offset + |chunk|))
  {
    hide PieceAt, Gather;
    var chunk := PieceAt(src, i, j, offset).chunk;
    GatherOnce(src, i, j, name, total, offset);
    if offset + |chunk| < total {
      JoinJoin(data, chunk, Gather(src, i, j, name, total, offset + |chunk|));
    }
  }

  lemma JoinNothing(f: Found)
    ensures Join([], f) == f
  {
    if f.Present? {
      assert [] + f.data == f.data;
    }
  }

  // ----- the loader -----

  class Loader {
    var infoNodes: nat
    var properties: nat
    var propertyBytes: nat
    var cacheBytes: nat
    var table: Cell
    var nodes: seq<Slot>
    var next: nat
    // The allocations that have not been freed.
    ghost var live: set<nat>
    // Some request went over the budget; the memory refused one that did not.
    ghost var over: bool
    ghost var refused: bool

    // Every live allocation has exactly one owner: a slot, or whoever is about to
    // put it into one. The budget is never exceeded.
    ghost predicate Holds(extra: multiset<nat>)
      reads this`table, this`nodes, this`live, this`next, this`cacheBytes
    {
      && Id(table) + NodeIds(nodes) + extra == multiset(live)
      && (forall id :: id in live ==> id < next)
      && cacheBytes <= LIMIT && (table.Null? ==> nodes == [])
      && forall k :: 0 <= k < |nodes| && nodes[k].table.Null? ==> nodes[k].properties == []
    }

    constructor ()
      ensures Holds(multiset{}) && live == {} && nodes == [] && cacheBytes == 0
    {
      infoNodes, properties, propertyBytes, cacheBytes, next := 0, 0, 0, 0, 0;
      table, nodes, live, over, refused := Null, [], {}, false, false;
    }

    ghost predicate Denied()
      reads this`over, this`refused
    {
      over || refused
    }

    // Allocate: refused if it would exceed the budget, or by the memory itself.
    method Allocate(size: nat, text: Text, ghost extra: multiset<nat>) returns (c: Cell)
      requires Holds(extra)
      modifies this`cacheBytes, this`next, this`live, this`over, this`refused
      ensures Holds(extra + Id(c)) && (c.Cell? ==> c.text == text)
      ensures size == 0 || old(cacheBytes) + size > LIMIT ==> c.Null?
      ensures cacheBytes == old(cacheBytes) + (if c.Null? then 0 else size)
      ensures over == (old(over) || size == 0 || old(cacheBytes) + size > LIMIT)
      ensures refused == (old(refused) || (c.Null? && !(size == 0 || old(cacheBytes) + size > LIMIT)))
    {
      hide NodeIds, Holds;
      c := Null;
      NoIds(extra, c);
      BudgetHeld(extra);
      if size == 0 || size > LIMIT - cacheBytes {
        over := true;
        return;
      }
      var granted: bool :| true;
      if granted {
        c := Grant(size, text, extra);
      } else {
        refused := true;
      }
    }

    method Grant(size: nat, text: Text, ghost extra: multiset<nat>) returns (c: Cell)
      requires Holds(extra) && cacheBytes + size <= LIMIT
      modifies this`cacheBytes, this`next, this`live
      ensures Holds(extra + Id(c)) && c.Cell? && c.text == text && cacheBytes == old(cacheBytes) + size
    {
      hide NodeIds;
      c := Cell(next, text);
      cacheBytes := cacheBytes + size;
      Grown(Id(table) + NodeIds(nodes) + extra, live, next);
      Assoc(Id(table) + NodeIds(nodes), extra, Id(c));
      live := live + {next};
      next := next + 1;
    }

    lemma BudgetHeld(extra: multiset<nat>)
      requires Holds(extra)
      ensures cacheBytes <= LIMIT && extra + Id(Null) == extra
    {
    }

    lemma Assoc(x: multiset<nat>, y: multiset<nat>, z: multiset<nat>)
      ensures x + (y + z) == x + y + z
    {
    }

    // Only a live allocation may be freed, so none is freed twice.
    method Free(id: nat, ghost rest: multiset<nat>)
      requires rest + multiset{id} == multiset(live)
      modifies this`live
      ensures id in old(live) && live == old(live) - {id} && rest == multiset(live)
    {
      Shrunk(rest, live, id);
      live := live - {id};
    }

    // Slot i takes over what has been allocated for it.
    method SetSlot(i: nat, s: Slot, ghost extra: multiset<nat>)
      requires Holds(extra) && i < |nodes| && SlotIds(s) == SlotIds(nodes[i]) + extra
      requires s.table.Null? ==> s.properties == []
      modifies this`nodes
      ensures Holds(multiset{}) && nodes == old(nodes)[i := s]
    {
      hide NodeIds, SlotIds;
      NodeIdsUpdate(nodes, i, s);
      Takeover(NodeIds(nodes[i := s]), SlotIds(nodes[i]), NodeIds(nodes), SlotIds(s), extra);
      nodes := nodes[i := s];
    }

    lemma Takeover(after: multiset<nat>, was: multiset<nat>, before: multiset<nat>, s: multiset<nat>, extra: multiset<nat>)
      requires after + was == before + s && s == was + extra
      ensures after == before + extra
    {
      assert before + s == (before + extra) + was;
      assert forall id :: after[id] + was[id] == (after + was)[id];
      assert forall id :: (before + extra)[id] + was[id] == ((before + extra) + was)[id];
    }

    // Evaluate.
    method Evaluate(src: Source, function_: nat, values: seq<nat>, expected: nat) returns (r: Reply)
      ensures r == Ask(src, function_, values, expected)
      ensures r.NoReply? ==> Silent(src)
    {
      match src(function_, values)
      case Refused => r := NoReply;
      case Answer(bytes) =>
        if |bytes| > RESPONSE {
          return BadReply;
        }
        var d := GraphDecode.GraphDecode(bytes, expected);
        r := if d.Invalid? then BadReply else Reply(d.arguments);
    }

    // ----- one property -----

    // The name, with room for the data behind it.
    method StoreName(i: nat, j: nat, name: Text, total: nat) returns (r: Result)
      requires Holds(multiset{}) && i < |nodes| && j < |nodes[i].properties| && nodes[i].properties[j] == NAMELESS
      requires forall k :: 0 <= k < j ==> nodes[i].properties[k].name.Cell?
      modifies this`properties, this`propertyBytes, this`cacheBytes, this`next, this`live, this`over, this`refused, this`nodes
      ensures Holds(multiset{}) && |nodes| == |old(nodes)| && nodes == old(nodes)[i := nodes[i]]
      ensures |nodes[i].properties| == |old(nodes[i].properties)|
      ensures nodes[i] == old(nodes[i]).(properties := old(nodes[i].properties)[j := nodes[i].properties[j]])
      ensures r == Success || r == NoMemory || r == BadData
      ensures r == NoMemory ==> Denied() && cacheBytes == old(cacheBytes) && propertyBytes == old(propertyBytes)
      ensures r != NoMemory ==> cacheBytes == old(cacheBytes) + |name| + 1 + total && propertyBytes == old(propertyBytes) + total
      ensures r == Success ==> Chars(nodes[i].properties[j].name) == name && nodes[i].properties[j].name.Cell?
      ensures r == Success ==> forall k :: 0 <= k < j ==> Chars(nodes[i].properties[k].name) != name
      ensures r == BadData ==> exists k :: 0 <= k < j && Chars(nodes[i].properties[k].name) == name
      ensures properties == old(properties)
    {
      hide Holds;
      ghost var was := nodes;
      var p := NewName(i, j, name, total);
      if p == NAMELESS {
        return NoMemory;
      }
      assert nodes[i] == was[i].(properties := was[i].properties[j := p]);
      propertyBytes := propertyBytes + total;
      var known := HasName(i, j, name);
      r := if known then BadData else Success;
    }

    method NewName(i: nat, j: nat, name: Text, total: nat) returns (p: PropertySlot)
      requires Holds(multiset{}) && i < |nodes| && j < |nodes[i].properties| && nodes[i].properties[j] == NAMELESS
      modifies this`cacheBytes, this`next, this`live, this`over, this`refused, this`nodes
      ensures Holds(multiset{})
      ensures p == NAMELESS ==> nodes == old(nodes) && Denied()
      ensures p != NAMELESS ==> p.name.Cell? && p.name.text == name && |p.data| == total
      ensures cacheBytes == old(cacheBytes) + if p == NAMELESS then 0 else |name| + 1 + total
      ensures p != NAMELESS ==> nodes == old(nodes)[i := old(nodes[i]).(properties := old(nodes[i].properties)[j := p])]
    {
      HasTable(i);
      hide Holds;
      var c := Allocate(|name| + 1 + total, name, multiset{});
      NoIds(Id(c), c);
      if c.Null? {
        return NAMELESS;
      }
      p := PropertySlot(c, seq(total, _ => 0));
      PutName(i, j, p);
    }

    method PutName(i: nat, j: nat, p: PropertySlot)
      requires i < |nodes| && j < |nodes[i].properties| && nodes[i].properties[j] == NAMELESS && nodes[i].table.Cell?
      requires Holds(multiset{} + Id(p.name))
      modifies this`nodes
      ensures Holds(multiset{}) && nodes == old(nodes)[i := old(nodes[i]).(properties := old(nodes[i].properties)[j := p])]
    {
      hide Holds, NodeIds, NameIds, SlotIds;
      NameGain(nodes[i], j, p);
      NoIds(Id(p.name), Null);
      SetSlot(i, nodes[i].(properties := nodes[i].properties[j := p]), Id(p.name));
    }

    lemma NameGain(s: Slot, j: nat, p: PropertySlot)
      requires j < |s.properties| && s.properties[j] == NAMELESS
      ensures SlotIds(s.(properties := s.properties[j := p])) == SlotIds(s) + Id(p.name)
    {
      NameIdsUpdate(s.properties, j, p);
      NoIds(NameIds(s.properties[j := p]), NAMELESS.name);
      SlotGain(s, s.properties[j := p], Id(p.name));
    }

    // Does one of the first j properties have the name already?
    method HasName(i: nat, j: nat, name: Text) returns (known: bool)
      requires i < |nodes| && j <= |nodes[i].properties|
      ensures known <==> exists k :: 0 <= k < j && Chars(nodes[i].properties[k].name) == name
    {
      for k := 0 to j
        invariant forall m :: 0 <= m < k ==> Chars(nodes[i].properties[m].name) != name
      {
        if Chars(nodes[i].properties[k].name) == name {
          return true;
        }
      }
      known := false;
    }

    lemma HasTable(i: nat)
      requires Holds(multiset{}) && i < |nodes|
      ensures nodes[i].table.Null? ==> nodes[i].properties == []
    {
    }

    lemma NoIds(x: multiset<nat>, c: Cell)
      ensures c.Null? ==> x + Id(c) == x
      ensures multiset{} + x == x
    {
    }

    // All pieces of property j of node i: what is stored is their concatenation.
    method LoadProperty(src: Source, i: nat, j: nat, ghost want: Property) returns (r: Result)
      requires Holds(multiset{}) && i < |nodes| && j < |nodes[i].properties| && nodes[i].properties[j] == NAMELESS
      requires forall k :: 0 <= k < j ==> nodes[i].properties[k].name.Cell?
      modifies this`properties, this`propertyBytes, this`cacheBytes, this`next, this`live, this`over, this`refused, this`nodes
      ensures Holds(multiset{}) && |nodes| == |old(nodes)| && nodes == old(nodes)[i := nodes[i]]
      ensures |nodes[i].properties| == |old(nodes[i].properties)|
      ensures nodes[i] == old(nodes[i]).(properties := old(nodes[i].properties)[j := nodes[i].properties[j]])
      ensures r == Success ==> PropertyLoaded(src, i, j, nodes[i].properties)
      ensures Wanted(src, i, j, old(nodes[i].properties), want) ==> r == Success || r == NoMemory
      ensures (r == NoMemory ==> Denied()) && (r == NoTransport ==> Silent(src))
      ensures properties == old(properties)
    {
      hide NodeIds, NameIds, Ask, Titled, ChunkOf, Holds, PieceAt, Gather, Wanted;
      ghost var wanted := Wanted(src, i, j, nodes[i].properties, want);
      var offset: nat, total: nat, name: Text, data: seq<Byte>, first := 0, 0, [], [], true;
      while first || offset < total
        invariant Holds(multiset{}) && |nodes| == |old(nodes)| && nodes == old(nodes)[i := nodes[i]]
        invariant |nodes[i].properties| == |old(nodes[i].properties)|
        invariant nodes[i] == old(nodes[i]).(properties := old(nodes[i].properties)[j := nodes[i].properties[j]])
        invariant first ==> offset == 0 && data == [] && nodes == old(nodes)
        invariant !first ==> Begun(src, i, j, nodes[i].properties, name, total)
        invariant !first && offset == 0 ==> total == 0
        invariant |data| == offset <= total <= LIMIT && properties == old(properties)
        invariant wanted && !first ==> name == want.name && total == |want.data|
        invariant !first && offset < total ==> Gather(src, i, j, name, total, 0) == Join(data, Gather(src, i, j, name, total, offset))
        invariant !first && offset == total ==> Gather(src, i, j, name, total, 0) == Present(data)
        decreases if first then LIMIT + 1 else total - offset
      {
        if wanted {
          WantedAnswered(src, i, j, old(nodes[i].properties), want, offset, data);
        }
        var reply := Evaluate(src, 3, [i, j, offset], 3);
        if reply.NoReply? {
          return NoTransport;
        }
        if reply.BadReply? {
          return BadData;
        }
        var a := reply.arguments;
        if !Titled(a) {
          return BadData;
        }
        TitledTotal(a);
        if offset == 0 {
          r := StoreName(i, j, TextOf(a[0]), Integer(a[1]).value);
          if r != Success {
            return;
          }
          name, total := TextOf(a[0]), Integer(a[1]).value;
        } else if Integer(a[1]).value != total || TextOf(a[0]) != name {
          return BadData;
        }
        var chunk := ChunkOf(a[2], total, offset);
        if chunk.Absent? {
          return BadData;
        }
        PieceFrom(src, i, j, offset, a);
        GatherStep(src, i, j, name, total, offset, data);
        JoinNothing(Gather(src, i, j, name, total, offset));
        data := data + chunk.data;
        offset := offset + |chunk.data|;
        first := false;
      }
      StoreData(i, j, data);
      r := Success;
    }

    method StoreData(i: nat, j: nat, data: seq<Byte>)
      requires Holds(multiset{}) && i < |nodes| && j < |nodes[i].properties|
      modifies this`nodes
      ensures Holds(multiset{})
      ensures nodes == old(nodes)[i := old(nodes[i]).(properties := old(nodes[i].properties)[j := old(nodes[i].properties[j]).(data := data)])]
    {
      hide NodeIds, NameIds;
      var ps := nodes[i].properties;
      var p := ps[j].(data := data);
      NameIdsUpdate(ps, j, p);
      SameIds(NameIds(ps[j := p]), NameIds(ps), Id(p.name));
      SetSlot(i, nodes[i].(properties := ps[j := p]), multiset{});
    }

    lemma SameIds(x: multiset<nat>, y: multiset<nat>, z: multiset<nat>)
      requires x + z == y + z
      ensures x == y
    {
      assert forall id :: x[id] + z[id] == (x + z)[id] && y[id] + z[id] == (y + z)[id];
    }

    // ----- one node -----

    // The node's own answer: its path and owner are stored, and the node fits
    // after those before it.
    method LoadHead(src: Source, i: nat, ghost want: Graph) returns (r: Result, count: nat)
      requires Holds(multiset{}) && i < |nodes| <= ITEMS && nodes[i] == EMPTY && Done(src, nodes[..i])
      requires properties == PropertyTotal(GraphOf(nodes[..i]))
      modifies this`properties, this`propertyBytes, this`cacheBytes, this`next, this`live, this`over, this`refused, this`nodes
      ensures Holds(multiset{}) && |nodes| == |old(nodes)| && nodes == old(nodes)[i := nodes[i]]
      ensures r == Success ==> nodes[i].count == count && Bare(src, nodes[..i], nodes[i]) && properties == old(properties) + count <= ITEMS
      ensures i < |want| && Presents(src, want) ==> r == Success || r == NoMemory
      ensures (r == NoMemory ==> Denied()) && (r == NoTransport ==> Silent(src))
    {
      hide Holds, Done, Ask, HeadOf, HeadFrom, Joins, Presents, PropertyTotal, Bare, GraphOf, FaithfulNode, DistinctNames;
      count := 0;
      ghost var wanted := i < |want| && Presents(src, want);
      if wanted {
        NextWanted(src, want, nodes[..i]);
      }
      var reply := Evaluate(src, 2, [i], 4);
      if reply.NoReply? {
        return NoTransport, count;
      }
      if reply.BadReply? {
        return BadData, count;
      }
      var a := reply.arguments;
      var h := HeadFrom(a);
      HeadIs(src, i, a);
      if h.NoHead? || h.count > ITEMS || properties + h.count > ITEMS || (if i == 0 then h.parent != NONE || h.path != [SLASH] else h.parent >= i) {
        return BadData, count;
      }
      count := h.count;
      properties := properties + count;
      r := PutHead(src, i, h, if wanted then want[i] else NodeAt(nodes[i]));
    }

    method PutHead(src: Source, i: nat, h: Head, ghost want: Node) returns (r: Result)
      requires Holds(multiset{}) && i < |nodes| <= ITEMS && nodes[i] == EMPTY && Done(src, nodes[..i])
      requires h.Head? && HeadOf(src, i) == h && if i == 0 then h.parent == NONE && h.path == [SLASH] else h.parent < i
      modifies this`cacheBytes, this`next, this`live, this`over, this`refused, this`nodes
      ensures Holds(multiset{}) && |nodes| == |old(nodes)| && nodes == old(nodes)[i := nodes[i]]
      ensures r == Success ==> nodes[i].count == h.count && Bare(src, nodes[..i], nodes[i])
      ensures h == Head(want.path, want.owner, want.parent, h.count) && Joins(GraphOf(old(nodes)[..i]), want) ==> r == Success || r == NoMemory
      ensures (r == NoMemory ==> Denied()) && (r == NoTransport ==> Silent(src))
    {
      hide NodeIds, Ask, Tree, Faithful, HeadOf, HeadFrom, Joins;
      ghost var front := nodes[..i];
      r := StoreTexts(i, h);
      if r != Success {
        return;
      }
      assert nodes[..i] == front;
      DoneParents(src, front);
      r := CheckPlace(GraphOf(front), i, h, NodeAt(nodes[i]));
      if Joins(GraphOf(front), want) && h == Head(want.path, want.owner, want.parent, h.count) {
        JoinsSame(GraphOf(front), want, NodeAt(nodes[i]));
      }
    }

    // Path and owner, both or neither kept track of.
    method StoreTexts(i: nat, h: Head) returns (r: Result)
      requires Holds(multiset{}) && i < |nodes| && nodes[i] == EMPTY && h.Head?
      modifies this`cacheBytes, this`next, this`live, this`over, this`refused, this`nodes
      ensures Holds(multiset{}) && |nodes| == |old(nodes)| && nodes == old(nodes)[i := nodes[i]]
      ensures r == Success || r == NoMemory
      ensures r == NoMemory ==> Denied()
      ensures r == Success ==> cacheBytes == old(cacheBytes) + |h.path| + 1 + |h.owner| + 1
      ensures r == Success ==>
                && nodes[i].path.Cell? && nodes[i].owner.Cell?
                && nodes[i] == Slot(nodes[i].path, nodes[i].owner, h.parent, h.count, 0, Null, [])
                && Chars(nodes[i].path) == h.path && Chars(nodes[i].owner) == h.owner
    {
      hide NodeIds;
      var path := Allocate(|h.path| + 1, h.path, multiset{});
      NoIds(Id(path), Null);
      var owner := Allocate(|h.owner| + 1, h.owner, multiset{} + Id(path));
      var s := Slot(path, owner, h.parent, h.count, 0, Null, []);
      TwoIds(path, owner, s);
      SetSlot(i, s, multiset{} + Id(path) + Id(owner));
      r := if path.Null? || owner.Null? then NoMemory else Success;
    }

    lemma TwoIds(path: Cell, owner: Cell, s: Slot)
      requires s.path == path && s.owner == owner && s.table.Null? && s.properties == []
      ensures SlotIds(s) == SlotIds(EMPTY) + (multiset{} + Id(path) + Id(owner))
    {
    }

    // The nodes stored so far are those of g.
    ghost predicate Stored(g: Graph)
      reads this`nodes
    {
      && |g| < |nodes| && |g| <= NONE
      && forall k :: 0 <= k < |g| ==> g[k].parent == nodes[k].parent && g[k].path == Chars(nodes[k].path)
    }

    // A path nobody has yet, one name longer than the parent's, not too deep.
    method CheckPlace(ghost g: Graph, i: nat, h: Head, ghost n: Node) returns (r: Result)
      requires Stored(g) && i == |g| && h.Head? && Plain(h.path) && Plain(h.owner)
      requires n.path == h.path && n.owner == h.owner && n.parent == h.parent
      requires if g == [] then h.parent == NONE && h.path == [SLASH] else h.parent < |g|
      requires (g != [] ==> g[0].parent == NONE) && forall k :: 0 < k < |g| ==> g[k].parent < k
      ensures r == Success <==> Joins(g, n)
      ensures r == Success || r == BadData
    {
      hide Plain, Extends, Ancestors;
      var known := IsKnown(g, i, h.path);
      if known {
        return BadData;
      }
      if i > 0 {
        var child := IsChild(Chars(nodes[h.parent].path), h.parent == 0, h.path);
        if !child {
          return BadData;
        }
        var deep := TooDeep(g, h.parent);
        if deep {
          return BadData;
        }
      }
      r := Success;
    }

    method IsKnown(ghost g: Graph, i: nat, path: Text) returns (known: bool)
      requires Stored(g) && i == |g|
      ensures known <==> exists k :: 0 <= k < |g| && g[k].path == path
    {
      for k := 0 to i
        invariant forall m :: 0 <= m < k ==> g[m].path != path
      {
        if Chars(nodes[k].path) == path {
          return true;
        }
      }
      known := false;
    }

    method IsChild(parent: Text, root: bool, path: Text) returns (ok: bool)
      ensures ok <==> Extends(parent, root, path)
    {
      var length := |parent|;
      if |path| <= length || path[..length] != parent || (!root && path[length] != SLASH) {
        return false;
      }
      var child := path[if root then length else length + 1..];
      assert !root ==> path[..length + 1] == parent + [SLASH];
      ok := child != [] && SLASH !in child;
    }

    // Count the nodes above, up to the root.
    method TooDeep(ghost g: Graph, p: nat) returns (deep: bool)
      requires p < |g| <= |nodes| && |g| <= NONE
      requires forall k :: 0 <= k < |g| ==> g[k].parent == nodes[k].parent
      requires g[0].parent == NONE && forall k :: 0 < k < |g| ==> g[k].parent < k
      ensures deep <==> Ancestors(g, p) > DEEPEST
    {
      hide Ancestors;
      var depth: nat, parent: nat := 0, p;
      while parent != NONE
        invariant parent == NONE || parent < |g|
        invariant depth <= DEEPEST
        invariant Ancestors(g, p) == depth + if parent == NONE then 0 else Ancestors(g, parent)
        decreases if parent == NONE then 0 else 1 + parent
      {
        AncestorsOnce(g, parent);
        depth := depth + 1;
        if depth > DEEPEST {
          return true;
        }
        parent := nodes[parent].parent;
      }
      deep := false;
    }

    // Its properties.
    method LoadProperties(src: Source, i: nat, count: nat, ghost want: Node) returns (r: Result)
      requires Holds(multiset{}) && i < |nodes| && nodes[i].properties == [] && nodes[i].table.Null?
      modifies this`properties, this`propertyBytes, this`cacheBytes, this`next, this`live, this`over, this`refused, this`nodes
      ensures Holds(multiset{}) && |nodes| == |old(nodes)| && nodes == old(nodes)[i := nodes[i]]
      ensures nodes[i] == old(nodes[i]).(table := nodes[i].table, properties := nodes[i].properties)
      ensures r == Success ==> |nodes[i].properties| == count && forall j :: 0 <= j < count ==> PropertyLoaded(src, i, j, nodes[i].properties)
      ensures FaithfulNode(src, i, want) && DistinctNames(want.properties) && count == |want.properties| ==> r == Success || r == NoMemory
      ensures (r == NoMemory ==> Denied()) && (r == NoTransport ==> Silent(src))
      ensures properties == old(properties)
    {
      hide NodeIds, NameIds, PropertyLoaded, Holds, FaithfulNode, DistinctNames, Wanted;
      ghost var wanted := FaithfulNode(src, i, want) && DistinctNames(want.properties) && count == |want.properties|;
      r := Success;
      if count > 0 {
        r := MakeTable(i, count);
        if r != Success {
          return;
        }
      }
      for j := 0 to count
        invariant Holds(multiset{}) && |nodes| == |old(nodes)| && nodes == old(nodes)[i := nodes[i]]
        invariant nodes[i] == old(nodes[i]).(table := nodes[i].table, properties := nodes[i].properties)
        invariant |nodes[i].properties| == count && properties == old(properties)
        invariant forall k :: 0 <= k < j ==> PropertyLoaded(src, i, k, nodes[i].properties) && nodes[i].properties[k].name.Cell?
        invariant forall k :: j <= k < count ==> nodes[i].properties[k] == NAMELESS
      {
        ghost var was := nodes[i].properties;
        if wanted {
          NextProperty(src, i, j, was, want);
        }
        r := LoadProperty(src, i, j, if wanted then want.properties[j] else Property([], []));
        if r != Success {
          return;
        }
        LoadedNamed(src, i, j, nodes[i].properties);
        forall k | 0 <= k < j
          ensures PropertyLoaded(src, i, k, nodes[i].properties)
        {
          LoadedKept(src, i, k, was, nodes[i].properties, j);
        }
      }
      r := Success;
    }

    method MakeTable(i: nat, count: nat) returns (r: Result)
      requires Holds(multiset{}) && i < |nodes| && nodes[i].properties == [] && nodes[i].table.Null? && count > 0
      modifies this`cacheBytes, this`next, this`live, this`over, this`refused, this`nodes
      ensures Holds(multiset{}) && |nodes| == |old(nodes)| && nodes == old(nodes)[i := nodes[i]]
      ensures nodes[i] == old(nodes[i]).(table := nodes[i].table, properties := nodes[i].properties)
      ensures r == Success || r == NoMemory
      ensures r == NoMemory ==> Denied()
      ensures r == Success ==> nodes[i].properties == seq(count, _ => NAMELESS)
      ensures r != Success ==> nodes == old(nodes)
      ensures cacheBytes == old(cacheBytes) + if r == Success then PROPERTY_BYTES * count else 0
    {
      hide NodeIds;
      var c := Allocate(PROPERTY_BYTES * count, [], multiset{});
      NoIds(Id(c), Null);
      if c.Null? {
        return NoMemory;
      }
      NoNameIds(count);
      var s := nodes[i].(table := c, properties := seq(count, _ => NAMELESS));
      TableIds(nodes[i], s);
      SetSlot(i, s, Id(c));
      r := Success;
    }

    lemma TableIds(was: Slot, s: Slot)
      requires was.table.Null? && was.properties == [] && s == was.(table := s.table, properties := s.properties)
      requires NameIds(s.properties) == multiset{}
      ensures SlotIds(s) == SlotIds(was) + Id(s.table)
    {
    }

    // A whole node.
    method LoadNode(src: Source, i: nat, ghost want: Graph) returns (r: Result)
      requires Holds(multiset{}) && i < |nodes| <= ITEMS && nodes[i] == EMPTY && Done(src, nodes[..i])
      requires properties == PropertyTotal(GraphOf(nodes[..i]))
      modifies this`properties, this`propertyBytes, this`cacheBytes, this`next, this`live, this`over, this`refused, this`nodes
      ensures Holds(multiset{}) && |nodes| == |old(nodes)| && nodes == old(nodes)[i := nodes[i]]
      ensures r == Success ==> Done(src, nodes[..i + 1])
      ensures r == Success ==> properties == PropertyTotal(GraphOf(nodes[..i + 1])) <= ITEMS
      ensures i < |want| && Presents(src, want) ==> r == Success || r == NoMemory
      ensures (r == NoMemory ==> Denied()) && (r == NoTransport ==> Silent(src))
    {
      hide Holds, Done, PropertyLoaded, Joins, HeadOf, HeadFrom, NodeAt, Presents, FaithfulNode, DistinctNames, GraphOf, PropertyTotal, Bare;
      ghost var front := nodes[..i];
      ghost var wanted := i < |want| && Presents(src, want);
      if wanted {
        NextWanted(src, want, front);
      }
      var count;
      r, count := LoadHead(src, i, want);
      if r != Success {
        return;
      }
      ghost var bare := nodes[i];
      assert nodes[..i] == front;
      BareEmpty(src, front, bare);
      r := LoadProperties(src, i, count, if wanted then want[i] else NodeAt(bare));
      if r != Success {
        return;
      }
      assert nodes[..i + 1] == front + [nodes[i]];
      DoneMore(src, front, bare, nodes[i]);
      TotalMore(front, nodes[i]);
    }

    method LoadNodes(src: Source, ghost want: Graph) returns (r: Result)
      requires Holds(multiset{}) && |nodes| <= ITEMS && forall k :: 0 <= k < |nodes| ==> nodes[k] == EMPTY
      requires properties == 0
      modifies this`properties, this`propertyBytes, this`cacheBytes, this`next, this`live, this`over, this`refused, this`nodes
      ensures Holds(multiset{}) && |nodes| == |old(nodes)|
      ensures r == Success ==> Done(src, nodes) && properties == PropertyTotal(GraphOf(nodes)) <= ITEMS
      ensures |want| == |nodes| && Presents(src, want) ==> r == Success || r == NoMemory
      ensures (r == NoMemory ==> Denied()) && (r == NoTransport ==> Silent(src))
    {
      hide Holds, Done, Presents, GraphOf;
      NothingDone(src);
      assert nodes[..0] == [];
      for i := 0 to |nodes|
        invariant Holds(multiset{}) && |nodes| == |old(nodes)| && Done(src, nodes[..i])
        invariant properties == PropertyTotal(GraphOf(nodes[..i])) <= ITEMS
        invariant forall k :: i <= k < |nodes| ==> nodes[k] == EMPTY
      {
        r := LoadNode(src, i, want);
        if r != Success {
          return;
        }
      }
      assert nodes[..|nodes|] == nodes;
      r := Success;
    }

    // ----- phandles -----

    method FindProperty(i: nat, name: Text) returns (f: Found)
      requires i < |nodes|
      ensures var ps := NodeAt(nodes[i]).properties;
              f == if Named(ps, name) < |ps| then Present(ps[Named(ps, name)].data) else Absent
    {
      for j := 0 to |nodes[i].properties|
        invariant forall k :: 0 <= k < j ==> NodeAt(nodes[i]).properties[k].name != name
      {
        if Chars(nodes[i].properties[j].name) == name {
          assert NodeAt(nodes[i]).properties[j].name == name;
          return Present(nodes[i].properties[j].data);
        }
      }
      f := Absent;
    }

    method ReadHandle(i: nat) returns (h: Handle)
      requires i < |nodes|
      ensures h == HandleOf(NodeAt(nodes[i]).properties)
    {
      var p := FindProperty(i, PHANDLE);
      var l := FindProperty(i, LINUX_PHANDLE);
      if p.Present? && l.Present? && p.data != l.data {
        return BadHandle;
      }
      if p.Absent? {
        p := l;
      }
      if p.Absent? {
        return NoHandle;
      }
      if |p.data| != 4 || Be32(p.data) == 0 || Be32(p.data) == NONE {
        return BadHandle;
      }
      h := Handle(Be32(p.data));
    }

    // The first i nodes have their phandles, all different; nothing else changed.
    ghost predicate Numbered(was: seq<Slot>, i: nat)
      requires i <= |was|
      reads this`nodes
    {
      && |nodes| == |was|
      && (forall k :: 0 <= k < i ==> NumberedNode(was[k], nodes[k]))
      && (forall k :: i <= k < |was| ==> nodes[k] == was[k])
      && (forall j, k :: 0 <= j < k < i ==> nodes[j].phandle == 0 || nodes[j].phandle != nodes[k].phandle)
    }

    method SetHandle(i: nat, ghost was: seq<Slot>, ghost want: Graph) returns (r: Result)
      requires Holds(multiset{}) && i < |was| && Numbered(was, i) && was[i].phandle == 0
      modifies this`nodes
      ensures Holds(multiset{}) && (r == Success || r == BadData)
      ensures r == Success ==> Numbered(was, i + 1)
      ensures SameHandles(was, want) ==> r == Success
    {
      hide NodeIds, HandleOf;
      var h := ReadHandle(i);
      if h.BadHandle? {
        return BadData;
      }
      if h.NoHandle? {
        return Success;
      }
      NoIds(SlotIds(nodes[i]), Null);
      SetSlot(i, nodes[i].(phandle := h.value), multiset{});
      var taken := IsTaken(i, h.value);
      r := if taken then BadData else Success;
    }

    method IsTaken(i: nat, value: nat) returns (taken: bool)
      requires i <= |nodes|
      ensures taken <==> exists k :: 0 <= k < i && nodes[k].phandle == value
    {
      for j := 0 to i
        invariant forall k :: 0 <= k < j ==> nodes[k].phandle != value
      {
        if nodes[j].phandle == value {
          return true;
        }
      }
      taken := false;
    }

    method LoadHandles(src: Source, ghost want: Graph) returns (r: Result)
      requires Holds(multiset{}) && Done(src, nodes)
      modifies this`nodes
      ensures Holds(multiset{}) && (r == Success || r == BadData)
      ensures r == Success ==> |nodes| == |old(nodes)| && PropertyTotal(GraphOf(nodes)) == PropertyTotal(GraphOf(old(nodes)))
      ensures r == Success ==> WellFormed(GraphOf(nodes)) && Faithful(src, GraphOf(nodes)) && Handled(GraphOf(nodes))
      ensures |want| == |old(nodes)| && Presents(src, want) ==> r == Success
    {
      hide Holds, Numbered, WellFormed, Faithful, Handled, Tree, GraphOf, Presents, SameHandles, Done, PropertyTotal;
      if |want| == |nodes| && Presents(src, want) {
        WantedHandles(src, want, nodes);
      }
      ghost var was := nodes;
      assert Numbered(was, 0) by {
        NumberedNone(was);
      }
      AllZero(src, was);
      NumberedSize(was, 0);
      for i := 0 to |nodes|
        invariant Holds(multiset{}) && |nodes| == |was| && Numbered(was, i)
      {
        r := SetHandle(i, was, want);
        if r != Success {
          return;
        }
        NumberedSize(was, i + 1);
      }
      NumberedAll(src, was);
      r := Success;
    }

    lemma NumberedNone(was: seq<Slot>)
      requires was == nodes
      ensures Numbered(was, 0)
    {
    }

    lemma NumberedSize(was: seq<Slot>, i: nat)
      requires i <= |was| && Numbered(was, i)
      ensures |nodes| == |was|
    {
    }

    lemma NumberedAll(src: Source, was: seq<Slot>)
      requires Done(src, was) && Numbered(was, |was|)
      ensures WellFormed(GraphOf(nodes)) && Faithful(src, GraphOf(nodes)) && Handled(GraphOf(nodes))
      ensures PropertyTotal(GraphOf(nodes)) == PropertyTotal(GraphOf(was))
    {
      hide Done, HandleOf;
      HandledAll(src, was, nodes);
      SameTotal(was, nodes);
    }

    // ----- everything -----

    method Load(src: Source, ghost want: Graph) returns (r: Result)
      requires Holds(multiset{}) && table.Null? && properties == 0
      modifies this
      ensures Holds(multiset{})
      ensures r == Success ==> Presents(src, GraphOf(nodes)) && infoNodes == |nodes| && properties == PropertyTotal(GraphOf(nodes))
      ensures Presents(src, want) ==> r == Success || r == NoMemory
      ensures (r == NoMemory ==> Denied()) && (r == NoTransport ==> Silent(src))
    {
      hide Holds, Done, Presents, GraphOf, InfoOf, PropertyTotal, WellFormed, Faithful, Handled;
      PresentsIs(src, want);
      var count;
      r, count := LoadInfo(src);
      if r == Success {
        infoNodes := count;
        r := MakeNodes(count);
      }
      if r == Success {
        r := LoadNodes(src, want);
      }
      if r == Success {
        r := LoadHandles(src, want);
        PresentsIs(src, GraphOf(nodes));
      }
    }

    method LoadInfo(src: Source) returns (r: Result, count: nat)
      ensures r == Success || r == BadData || r == NoTransport
      ensures r == NoTransport ==> Silent(src)
      ensures if r == Success then InfoOf(src) == Info(count) else InfoOf(src) == NoInfo
    {
      hide Ask;
      count := 0;
      var reply := Evaluate(src, 0, [], 1);
      if !reply.Reply? {
        return if reply.NoReply? then NoTransport else BadData, count;
      }
      var a := reply.arguments;
      if a[0].kind != 2 || a[0].data == [] || a[0].data[0] % 16 != 15 {
        return BadData, count;
      }
      reply := Evaluate(src, 1, [], 3);
      if !reply.Reply? {
        return if reply.NoReply? then NoTransport else BadData, count;
      }
      a := reply.arguments;
      var schema, nodes, layout := Integer(a[0]), Integer(a[1]), Integer(a[2]);
      if schema != Number(1) || nodes.NoNumber? || nodes.value == 0 || nodes.value > ITEMS || layout.NoNumber? || layout.value > 1 {
        return BadData, count;
      }
      r, count := Success, nodes.value;
    }

    method MakeNodes(count: nat) returns (r: Result)
      requires Holds(multiset{}) && table.Null? && 0 < count <= ITEMS
      modifies this`cacheBytes, this`next, this`live, this`over, this`refused, this`nodes, this`table
      ensures Holds(multiset{}) && (r == Success || r == NoMemory)
      ensures r == NoMemory ==> Denied()
      ensures r == Success ==> nodes == seq(count, _ => EMPTY)
      ensures cacheBytes == old(cacheBytes) + if r == Success then NODE_BYTES * count else 0
    {
      hide NodeIds;
      var c := Allocate(NODE_BYTES * count, [], multiset{});
      NoIds(Id(c), Null);
      if c.Null? {
        return NoMemory;
      }
      NoNodeIds(count);
      NoNodeIds(0);
      assert nodes == seq(0, _ => EMPTY);
      table, nodes := c, seq(count, _ => EMPTY);
      r := Success;
    }

    // ----- freeing -----

    method FreeCell(c: Cell, ghost rest: multiset<nat>)
      requires rest + Id(c) == multiset(live)
      modifies this`live
      ensures rest == multiset(live)
    {
      if c.Cell? {
        Free(c.id, rest);
      }
    }

    method FreeSlot(s: Slot, ghost rest: multiset<nat>)
      requires rest + SlotIds(s) == multiset(live) && (s.table.Null? ==> s.properties == [])
      modifies this`live
      ensures rest == multiset(live)
    {
      hide NameIds, Id;
      ghost var texts := rest + Id(s.path) + Id(s.owner);
      Texts(rest, s);
      if s.table.Cell? {
        assert s.properties[0..] == s.properties;
        for j := 0 to |s.properties|
          invariant texts + Id(s.table) + NameIds(s.properties[j..]) == multiset(live)
        {
          assert s.properties[j..][1..] == s.properties[j + 1..];
          FirstName(s.properties[j..], texts + Id(s.table));
          FreeCell(s.properties[j].name, texts + Id(s.table) + NameIds(s.properties[j + 1..]));
        }
        NoNames(s.properties[|s.properties|..], texts + Id(s.table));
        FreeCell(s.table, texts);
      } else {
        NoNames(s.properties, texts + Id(s.table));
        FreeCell(s.table, texts);
      }
      FreeCell(s.owner, rest + Id(s.path));
      FreeCell(s.path, rest);
    }

    // GraphFree: each allocation once, and then none is left.
    method GraphFree()
      requires Holds(multiset{})
      modifies this
      ensures Holds(multiset{}) && live == {} && nodes == [] && table.Null? && cacheBytes == 0
      ensures over == old(over) && refused == old(refused)
    {
      hide NodeIds, SlotIds;
      assert nodes[0..] == nodes;
      for i := 0 to |nodes|
        invariant over == old(over) && refused == old(refused) && nodes == old(nodes) && table == old(table) && Id(table) + NodeIds(nodes[i..]) == multiset(live)
      {
        assert nodes[i..][1..] == nodes[i + 1..];
        FirstNode(nodes[i..], Id(table));
        FreeSlot(nodes[i], Id(table) + NodeIds(nodes[i + 1..]));
      }
      NoNodeIds(0);
      assert nodes[|nodes|..] == seq(0, _ => EMPTY);
      FreeCell(table, multiset{});
      NoneLive();
      infoNodes, properties, propertyBytes, cacheBytes, table, nodes := 0, 0, 0, 0, Null, [];
      assert nodes == seq(0, _ => EMPTY);
    }

    lemma NoneLive()
      requires multiset{} == multiset(live)
      ensures live == {}
    {
      assert forall id :: id in live ==> id in multiset(live);
    }

    // GraphLoad: on success the graph that the source presents, the one there is;
    // on failure nothing is left behind. Answers are found wanting only if the
    // source presents no graph at all.
    method GraphLoad(src: Source, buffered: bool) returns (r: Result)
      requires Holds(multiset{}) && table.Null?
      modifies this
      ensures Holds(multiset{})
      ensures r == Success ==> buffered && Presents(src, GraphOf(nodes)) && Served(src, GraphOf(nodes))
      ensures r == Success ==> infoNodes == |nodes| && properties == PropertyTotal(GraphOf(nodes))
      ensures r == BadData || r == NoTransport ==> forall g :: !Presents(src, g) && !Served(src, g)
      ensures (r == NoTransport ==> Silent(src)) && (r == NoMemory ==> !buffered || Denied())
      ensures r != Success ==> live == {} && nodes == []
    {
      hide Holds, Presents, Served, GraphOf, PropertyTotal;
      Clear();
      if !buffered {
        return NoMemory;
      }
      ghost var want: Graph := [];
      if g: Graph :| Presents(src, g) {
        want := g;
      }
      r := Load(src, want);
      forall g
        ensures Served(src, g) <==> Presents(src, g)
      {
        ServesIsPresents(src, g);
      }
      if r != Success {
        GraphFree();
      }
    }

    method Clear()
      requires Holds(multiset{}) && table.Null?
      modifies this
      ensures Holds(multiset{}) && live == {} && nodes == [] && table.Null? && properties == 0 && cacheBytes == 0 && !Denied()
    {
      infoNodes, properties, propertyBytes, cacheBytes := 0, 0, 0, 0;
      over, refused := false, false;
      NoNodeIds(0);
      assert nodes == seq(0, _ => EMPTY);
      NoneLive();
    }
  }

  // ----- what the first i nodes amount to -----

  ghost predicate Done(src: Source, ns: seq<Slot>) {
    && Tree(GraphOf(ns)) && Faithful(src, GraphOf(ns))
    && (forall k :: 0 <= k < |ns| ==> ns[k].phandle == 0)
  }

  lemma DoneParents(src: Source, ns: seq<Slot>)
    requires Done(src, ns)
    ensures forall k :: 0 < k < |ns| ==> GraphOf(ns)[k].parent < k
    ensures forall k :: 0 <= k < |ns| ==> GraphOf(ns)[k].parent == ns[k].parent && GraphOf(ns)[k].path == Chars(ns[k].path)
    ensures ns != [] ==> ns[0].parent == NONE
  {
    assert forall k :: 0 <= k < |ns| ==> Rooted(GraphOf(ns), k);
  }

  lemma LoadedNamed(src: Source, i: nat, j: nat, ps: seq<PropertySlot>)
    requires PropertyLoaded(src, i, j, ps)
    ensures j < |ps| && ps[j].name.Cell?
  {
  }

  // A later property does not disturb an earlier one.
  lemma LoadedKept(src: Source, i: nat, k: nat, before: seq<PropertySlot>, after: seq<PropertySlot>, j: nat)
    requires PropertyLoaded(src, i, k, before) && k < j < |before| && |after| == |before| && after == before[j := after[j]]
    ensures PropertyLoaded(src, i, k, after)
  {
  }

  lemma NothingDone(src: Source)
    ensures Done(src, [])
  {
  }

  // A node without its properties: it fits, and is what the source says.
  ghost predicate Bare(src: Source, front: seq<Slot>, s: Slot) {
    && s.phandle == 0 && s.properties == [] && s.table.Null?
    && Joins(GraphOf(front), NodeAt(s))
    && HeadOf(src, |front|) == Head(NodeAt(s).path, NodeAt(s).owner, s.parent, s.count)
  }

  lemma BareEmpty(src: Source, front: seq<Slot>, s: Slot)
    requires Bare(src, front, s)
    ensures s.properties == [] && s.table.Null? && HeadOf(src, |front|).Head? && HeadOf(src, |front|).count == s.count
  {
  }

  lemma TotalMore(front: seq<Slot>, s: Slot)
    ensures PropertyTotal(GraphOf(front + [s])) == PropertyTotal(GraphOf(front)) + |s.properties|
  {
    hide PropertyTotal;
    GraphSnoc(front, s);
    TotalSnoc(GraphOf(front), NodeAt(s));
  }

  lemma DoneMore(src: Source, front: seq<Slot>, bare: Slot, s: Slot)
    requires Done(src, front) && s == bare.(table := s.table, properties := s.properties)
    requires Bare(src, front, bare) && bare.count == |s.properties|
    requires forall j :: 0 <= j < |s.properties| ==> PropertyLoaded(src, |front|, j, s.properties)
    ensures Done(src, front + [s])
  {
    hide HeadOf, Tree, Joins, IsProperty, PropertyLoaded;
    var g, n, i := GraphOf(front), NodeAt(s), |front|;
    AllLoaded(src, i, s);
    JoinsSame(g, NodeAt(bare), n);
    TreeExtend(g, n);
    GraphSnoc(front, s);
    assert FaithfulNode(src, i, n);
    FaithfulSnoc(src, g, n);
  }

  lemma AllLoaded(src: Source, i: nat, s: Slot)
    requires forall j :: 0 <= j < |s.properties| ==> PropertyLoaded(src, i, j, s.properties)
    ensures DistinctNames(NodeAt(s).properties)
    ensures forall j :: 0 <= j < |s.properties| ==> IsProperty(src, i, j, NodeAt(s).properties[j])
  {
    hide IsProperty;
    var n := NodeAt(s);
    forall j, k | 0 <= j < k < |n.properties|
      ensures n.properties[j].name != n.properties[k].name
    {
      assert PropertyLoaded(src, i, k, s.properties);
    }
    forall j | 0 <= j < |n.properties|
      ensures IsProperty(src, i, j, n.properties[j])
    {
      assert PropertyLoaded(src, i, j, s.properties);
    }
  }

  lemma GraphSnoc(front: seq<Slot>, s: Slot)
    ensures GraphOf(front + [s]) == GraphOf(front) + [NodeAt(s)]
  {
  }

  ghost predicate NumberedNode(was: Slot, now: Slot) {
    var h := HandleOf(NodeAt(was).properties);
    !h.BadHandle? && now == was.(phandle := if h.Handle? then h.value else 0)
  }

  lemma AllZero(src: Source, ns: seq<Slot>)
    requires Done(src, ns)
    ensures forall k :: 0 <= k < |ns| ==> ns[k].phandle == 0
  {
  }

  lemma HandledAll(src: Source, was: seq<Slot>, now: seq<Slot>)
    requires Done(src, was) && |now| == |was| && forall k :: 0 <= k < |was| ==> NumberedNode(was[k], now[k])
    requires forall j, k :: 0 <= j < k < |now| ==> now[j].phandle == 0 || now[j].phandle != now[k].phandle
    ensures WellFormed(GraphOf(now)) && Faithful(src, GraphOf(now)) && Handled(GraphOf(now))
  {
    hide HandleOf, Tree, HeadOf, IsProperty;
    var g, h := GraphOf(was), GraphOf(now);
    forall k | 0 <= k < |g|
      ensures h[k] == g[k].(phandle := h[k].phandle)
    {
      assert NumberedNode(was[k], now[k]);
    }
    TreeSame(g, h);
    forall k | 0 <= k < |h|
      ensures FaithfulNode(src, k, h[k])
    {
      assert FaithfulNode(src, k, g[k]);
    }
  }

  // ----- what is still to come -----

  // The property is in the source, and none before it has its name.
  ghost predicate Wanted(src: Source, i: nat, j: nat, ps: seq<PropertySlot>, want: Property) {
    && j <= |ps| && IsProperty(src, i, j, want)
    && forall k :: 0 <= k < j ==> Chars(ps[k].name) != want.name
  }

  lemma WantedAnswered(src: Source, i: nat, j: nat, ps: seq<PropertySlot>, want: Property, offset: nat, data: seq<Byte>)
    requires Wanted(src, i, j, ps, want) && offset <= |want.data|
    requires offset == 0 || Gather(src, i, j, want.name, |want.data|, 0) == Join(data, Gather(src, i, j, want.name, |want.data|, offset))
    ensures Ask(src, 3, [i, j, offset], 3).Reply?
    ensures exists chunk :: Answers(Ask(src, 3, [i, j, offset], 3).arguments, offset, Piece(want.name, |want.data|, chunk))
    ensures forall k :: 0 <= k < j ==> Chars(ps[k].name) != want.name
  {
    hide PieceAt, Answers, Ask;
    GatherAnswered(src, i, j, want.name, |want.data|, offset);
    PieceAnswered(src, i, j, offset);
    var p := PieceAt(src, i, j, offset);
    assert p == Piece(want.name, |want.data|, p.chunk);
  }

  // Property j of a node read up to there.
  lemma NextProperty(src: Source, i: nat, j: nat, ps: seq<PropertySlot>, want: Node)
    requires FaithfulNode(src, i, want) && DistinctNames(want.properties) && j < |want.properties| == |ps|
    requires forall k :: 0 <= k < j ==> PropertyLoaded(src, i, k, ps)
    ensures Wanted(src, i, j, ps, want.properties[j])
  {
    hide HeadOf, PieceAt, Gather;
    forall k | 0 <= k < j
      ensures Chars(ps[k].name) != want.properties[j].name
    {
      assert PropertyLoaded(src, i, k, ps) && IsProperty(src, i, k, want.properties[k]);
      assert want.properties[k].name != want.properties[j].name;
    }
  }

  // The next node of a graph read up to there.
  lemma NextWanted(src: Source, want: Graph, front: seq<Slot>)
    requires Presents(src, want) && Done(src, front) && |front| < |want|
    ensures var n := want[|front|];
            && Joins(GraphOf(front), n) && (if front == [] then n.parent == NONE && n.path == [SLASH] else n.parent < |front|)
            && HeadOf(src, |front|) == Head(n.path, n.owner, n.parent, |n.properties|)
            && FaithfulNode(src, |front|, n) && DistinctNames(n.properties)
            && PropertyTotal(GraphOf(front)) + |n.properties| <= ITEMS
    ensures Ask(src, 2, [|front|], 4).Reply?
    ensures HeadFrom(Ask(src, 2, [|front|], 4).arguments) == HeadOf(src, |front|)
  {
    hide HeadOf, HeadFrom, Ask, Joins, FaithfulNode, Handled, InfoOf, PropertyTotal, DistinctNames, DistinctPhandles, GraphOf, Rooted, Plain;
    NextFits(src, want, GraphOf(front));
    JoinsWhere(GraphOf(front), want[|front|]);
    HeadAnswered(src, |front|);
  }

  // The handles of a presented graph are those the nodes read will get.
  ghost predicate SameHandles(was: seq<Slot>, want: Graph) {
    && |was| == |want| && Handled(want) && DistinctPhandles(want)
    && forall k :: 0 <= k < |was| ==> NodeAt(was[k]).properties == want[k].properties
  }

  lemma WantedHandles(src: Source, want: Graph, was: seq<Slot>)
    requires Presents(src, want) && Done(src, was) && |was| == |want|
    ensures SameHandles(was, want)
  {
    hide Faithful, Handled, Tree, DistinctPhandles, InfoOf, PropertyTotal;
    SameFront(src, GraphOf(was), want);
    forall k | 0 <= k < |was|
      ensures NodeAt(was[k]).properties == want[k].properties
    {
      assert GraphOf(was)[k] == NodeAt(was[k]);
    }
  }

  lemma SameTotal(was: seq<Slot>, now: seq<Slot>)
    requires |now| == |was| && forall k :: 0 <= k < |was| ==> NumberedNode(was[k], now[k])
    ensures PropertyTotal(GraphOf(now)) == PropertyTotal(GraphOf(was))
  {
    hide HandleOf;
    TotalFront(GraphOf(now), GraphOf(was));
  }

  lemma PresentsIs(src: Source, g: Graph)
    ensures Presents(src, g) <==>
            InfoOf(src) == Info(|g|) && WellFormed(g) && Faithful(src, g) && Handled(g) && PropertyTotal(g) <= ITEMS
  {
  }

  // ----- taking apart what a slot owns -----

  lemma Texts(rest: multiset<nat>, s: Slot)
    ensures rest + SlotIds(s) == rest + Id(s.path) + Id(s.owner) + Id(s.table) + NameIds(s.properties)
  {
    hide NameIds, Id;
  }

  lemma FirstName(ps: seq<PropertySlot>, x: multiset<nat>)
    requires ps != []
    ensures x + NameIds(ps) == x + NameIds(ps[1..]) + Id(ps[0].name)
  {
    hide Id;
    assert NameIds(ps) == Id(ps[0].name) + NameIds(ps[1..]);
  }

  lemma NoNames(ps: seq<PropertySlot>, x: multiset<nat>)
    requires ps == []
    ensures x + NameIds(ps) == x
  {
  }

  lemma FirstNode(ns: seq<Slot>, x: multiset<nat>)
    requires ns != []
    ensures x + NodeIds(ns) == x + NodeIds(ns[1..]) + SlotIds(ns[0])
  {
    hide SlotIds;
    assert NodeIds(ns) == SlotIds(ns[0]) + NodeIds(ns[1..]);
  }
}
