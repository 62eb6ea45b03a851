// What a source of the hardware graph says (pi5-graph/graph.c): its answers, the
// nodes and properties they describe, and whether they make up a graph at all.
module GraphSource {
  import opened GraphTree
  import opened GraphDecode

  const LIMIT: nat := 16 * 1024 * 1024
  const ITEMS: nat := 32640
  const RESPONSE: nat := 8192
  const PATH: nat := 1024
  const NAME: nat := 256
  const CHUNK: nat := 4096
  const NODE_BYTES: nat := 40
  const PROPERTY_BYTES: nat := 24
  const BACKSLASH: Byte := 92

  const PHANDLE: Text := [112, 104, 97, 110, 100, 108, 101]
  const LINUX_PHANDLE: Text := [108, 105, 110, 117, 120, 44] + PHANDLE

  datatype Result = Success | BadData | NoMemory | NoTransport

  // ----- the source -----

  // The firmware's answers. Each question is put once, so they form a function.
  datatype Response = Refused | Answer(bytes: seq<Byte>)
  type Source = (nat, seq<nat>) -> Response

  // Some question goes unanswered.
  ghost predicate Silent(src: Source) {
    exists what: nat, values: seq<nat> :: src(what, values) == Refused
  }

  datatype Reply = NoReply | BadReply | Reply(arguments: seq<Argument>)

  function Ask(src: Source, method_: nat, values: seq<nat>, expected: nat): (r: Reply)
    ensures r.Reply? ==> |r.arguments| == expected && forall k :: 0 <= k < expected ==> Proper(r.arguments[k])
  {
    match src(method_, values)
    case Refused => NoReply
    case Answer(bytes) =>
      if |bytes| > RESPONSE then BadReply
      else
        match Decode(bytes, expected)
        case Invalid => BadReply
        case Valid(arguments) => Reply(arguments)
  }

  // What the source says about node i.
  datatype Head = NoHead | Head(path: Text, owner: Text, parent: nat, count: nat)

  function HeadOf(src: Source, i: nat): (h: Head)
    ensures h.Head? ==> Plain(h.path) && Plain(h.owner)
  {
    match Ask(src, 2, [i], 4)
    case Reply(a) => HeadFrom(a)
    case _ => NoHead
  }

  function HeadFrom(a: seq<Argument>): Head
    requires |a| == 4 && Proper(a[0]) && Proper(a[1]) && Proper(a[2]) && Proper(a[3])
  {
    if && a[0].kind == 1 && |a[0].data| <= PATH && a[0].data[0] == SLASH
       && a[2].kind == 1 && |a[2].data| <= PATH && (a[2].data[0] == 0 || a[2].data[0] == BACKSLASH)
       && Integer(a[1]).Number? && Integer(a[3]).Number?
    then Head(TextOf(a[0]), TextOf(a[2]), Integer(a[1]).value, Integer(a[3]).value)
    else NoHead
  }

  lemma HeadIs(src: Source, i: nat, a: seq<Argument>)
    requires Ask(src, 2, [i], 4) == Reply(a)
    ensures HeadOf(src, i) == HeadFrom(a)
    ensures HeadFrom(a).Head? ==> Plain(HeadFrom(a).path) && Plain(HeadFrom(a).owner)
  {
  }

  // A piece of property j of node i, from an offset on.
  datatype Piece = NoPiece | Piece(name: Text, total: nat, chunk: seq<Byte>)

  predicate Titled(a: seq<Argument>)
    requires |a| == 3 && forall k :: 0 <= k < 3 ==> Proper(a[k])
  {
    a[0].kind == 1 && 2 <= |a[0].data| <= NAME && Integer(a[1]).Number? && Integer(a[1]).value <= LIMIT
  }

  // The bytes an answer brings for a property of `total` bytes, if acceptable.
  function ChunkOf(a: Argument, total: nat, offset: nat): Found
    requires Proper(a)
  {
    if a.kind != 2 && !(Integer(a) == Number(0) && offset == total) then Absent
    else
      var chunk := if a.kind == 2 then a.data else [];
      if |chunk| > CHUNK || offset > total || |chunk| > total - offset || (chunk == [] && offset != total) then Absent
      else Present(chunk)
  }

  function PieceAt(src: Source, i: nat, j: nat, offset: nat): (p: Piece)
    ensures p.Piece? ==> offset + |p.chunk| <= p.total && (p.chunk == [] ==> offset == p.total)
  {
    match Ask(src, 3, [i, j, offset], 3)
    case Reply(a) =>
      if !Titled(a) then NoPiece
      else
        var total := Integer(a[1]).value;
        var chunk := ChunkOf(a[2], total, offset);
        if chunk.Absent? then NoPiece else Piece(TextOf(a[0]), total, chunk.data)
    case _ => NoPiece
  }

  lemma PieceFrom(src: Source, i: nat, j: nat, offset: nat, a: seq<Argument>)
    requires Ask(src, 3, [i, j, offset], 3) == Reply(a) && Titled(a)
    requires ChunkOf(a[2], Integer(a[1]).value, offset).Present?
    ensures PieceAt(src, i, j, offset) == Piece(TextOf(a[0]), Integer(a[1]).value, ChunkOf(a[2], Integer(a[1]).value, offset).data)
  {
  }

  // All pieces of a property from an offset on, joined.
  function Gather(src: Source, i: nat, j: nat, name: Text, total: nat, offset: nat): (f: Found)
    requires offset <= total
    ensures f.Present? ==> |f.data| == total - offset
    decreases total - offset
  {
    var p := PieceAt(src, i, j, offset);
    if p.NoPiece? || p.name != name || p.total != total then Absent
    else if offset + |p.chunk| == total then Present(p.chunk)
    else Join(p.chunk, Gather(src, i, j, name, total, offset + |p.chunk|))
  }

  function Join(front: seq<Byte>, rest: Found): Found {
    if rest.Absent? then Absent else Present(front + rest.data)
  }

  lemma JoinJoin(a: seq<Byte>, b: seq<Byte>, rest: Found)
    ensures Join(a, Join(b, rest)) == Join(a + b, rest)
  {
    if rest.Present? {
      assert a + (b + rest.data) == a + b + rest.data;
    }
  }

  predicate IsProperty(src: Source, i: nat, j: nat, p: Property) {
    && PieceAt(src, i, j, 0).Piece? && PieceAt(src, i, j, 0).name == p.name && PieceAt(src, i, j, 0).total == |p.data|
    && Gather(src, i, j, p.name, |p.data|, 0) == Present(p.data)
  }

  // The graph says what the source says.
  ghost predicate Faithful(src: Source, g: Graph) {
    forall i :: 0 <= i < |g| ==> FaithfulNode(src, i, g[i])
  }

  ghost predicate FaithfulNode(src: Source, i: nat, n: Node) {
    && HeadOf(src, i) == Head(n.path, n.owner, n.parent, |n.properties|)
    && forall j :: 0 <= j < |n.properties| ==> IsProperty(src, i, j, n.properties[j])
  }

  // ----- phandles -----

  datatype Handle = NoHandle | BadHandle | Handle(value: nat)

  function HandleOf(ps: seq<Property>): (h: Handle)
    ensures h.Handle? ==> 0 < h.value < NONE
  {
    var p := if Named(ps, PHANDLE) < |ps| then Present(ps[Named(ps, PHANDLE)].data) else Absent;
    var l := if Named(ps, LINUX_PHANDLE) < |ps| then Present(ps[Named(ps, LINUX_PHANDLE)].data) else Absent;
    if p.Present? && l.Present? && p.data != l.data then BadHandle
    else
      var q := if p.Present? then p else l;
      if q.Absent? then NoHandle
      else if |q.data| != 4 || Be32(q.data) == 0 || Be32(q.data) == NONE then BadHandle
      else Handle(Be32(q.data))
  }

  ghost predicate Handled(g: Graph) {
    forall i :: 0 <= i < |g| ==>
                  && !HandleOf(g[i].properties).BadHandle?
                  && g[i].phandle == if HandleOf(g[i].properties).Handle? then HandleOf(g[i].properties).value else 0
  }

  // ----- trees, node by node -----

  lemma {:induction false} AncestorsSame(g: Graph, h: Graph, p: nat)
    requires p < |g| && |g| <= |h| && forall k :: 0 <= k < |g| ==> g[k].parent == h[k].parent
    requires (forall k :: 0 < k < |g| ==> g[k].parent < k) && (forall k :: 0 < k < |h| ==> h[k].parent < k)
    ensures Ancestors(g, p) == Ancestors(h, p)
  {
    if p > 0 {
      AncestorsSame(g, h, g[p].parent);
    }
  }

  lemma AncestorsOnce(g: Graph, p: nat)
    requires p < |g| && forall k :: 0 < k < |g| ==> g[k].parent < k
    ensures Ancestors(g, p) == 1 + if p == 0 then 0 else Ancestors(g, g[p].parent)
    ensures 1 <= Ancestors(g, p)
  {
  }

  // Does a node fit after the nodes so far?
  ghost predicate Joins(g: Graph, n: Node) {
    && (if g == [] then n.path == [SLASH] && n.parent == NONE else n.parent < |g| && Extends(g[n.parent].path, n.parent == 0, n.path))
    && Plain(n.path) && Plain(n.owner)
    && (forall k :: 0 <= k < |g| ==> g[k].path != n.path)
    && (forall k :: 0 < k < |g| ==> g[k].parent < k)
    && (g != [] ==> Ancestors(g, n.parent) <= DEEPEST)
  }

  lemma TreeExtend(g: Graph, n: Node)
    requires Tree(g) && Joins(g, n) && DistinctNames(n.properties)
    ensures Tree(g + [n])
  {
    hide Extends, Plain, DistinctNames, Ancestors, Rooted;
    var h := g + [n];
    RootedExtend(g, n);
    RootedParents(h);
    ParentsEarlier(g);
    forall i | 0 < i < |h|
      ensures Ancestors(h, h[i].parent) <= DEEPEST
    {
      if i < |g| {
        assert h[i] == g[i];
      }
      AncestorsSame(g, h, h[i].parent);
    }
  }

  lemma RootedParents(h: Graph)
    requires forall i :: 0 <= i < |h| ==> Rooted(h, i)
    ensures forall k :: 0 < k < |h| ==> h[k].parent < k
  {
    forall k | 0 < k < |h|
      ensures h[k].parent < k
    {
      assert Rooted(h, k);
    }
  }

  lemma RootedExtend(g: Graph, n: Node)
    requires Tree(g) && Joins(g, n)
    ensures forall i :: 0 <= i <= |g| ==> Rooted(g + [n], i)
  {
    hide Extends, Ancestors, Plain, DistinctNames;
    var h := g + [n];
    forall i | 0 <= i <= |g|
      ensures Rooted(h, i)
    {
      if i < |g| {
        assert h[i] == g[i] && Rooted(g, i);
      }
    }
  }

  // The phandle of a node plays no part in the tree.
  lemma {:induction false} TreeSame(g: Graph, h: Graph)
    requires Tree(g) && |h| == |g| && forall k :: 0 <= k < |g| ==> h[k] == g[k].(phandle := h[k].phandle)
    ensures Tree(h)
  {
    hide Plain, Extends, DistinctNames, Ancestors;
    forall i | 0 <= i < |h|
      ensures Rooted(h, i) && Plain(h[i].path) && Plain(h[i].owner) && DistinctNames(h[i].properties)
    {
      assert Rooted(g, i);
    }
    RootedParents(h);
    ParentsEarlier(g);
    hide Rooted;
    forall i | 0 < i < |h|
      ensures Ancestors(h, h[i].parent) <= DEEPEST
    {
      AncestorsSame(g, h, h[i].parent);
    }
  }

  lemma JoinsWhere(g: Graph, n: Node)
    requires Joins(g, n)
    ensures if g == [] then n.parent == NONE && n.path == [SLASH] else n.parent < |g|
  {
  }

  lemma JoinsSame(g: Graph, m: Node, n: Node)
    requires Joins(g, m) && n.path == m.path && n.owner == m.owner && n.parent == m.parent
    ensures Joins(g, n)
  {
  }

  lemma FaithfulSnoc(src: Source, g: Graph, n: Node)
    requires Faithful(src, g) && FaithfulNode(src, |g|, n)
    ensures Faithful(src, g + [n])
  {
    hide FaithfulNode;
  }

  // ----- does the source present a graph? -----

  datatype Info = NoInfo | Info(count: nat)

  // The functions the source offers, its schema, its size and its layout.
  function InfoOf(src: Source): (info: Info)
    ensures info.Info? ==> 0 < info.count <= ITEMS
  {
    match Ask(src, 0, [], 1)
    case Reply(f) =>
      if f[0].kind != 2 || f[0].data == [] || f[0].data[0] % 16 != 15 then NoInfo
      else
        (match Ask(src, 1, [], 3)
         case Reply(a) =>
           if Integer(a[0]) == Number(1) && Integer(a[1]).Number? && 0 < Integer(a[1]).value <= ITEMS && Integer(a[2]).Number? && Integer(a[2]).value <= 1
           then Info(Integer(a[1]).value) else NoInfo
         case _ => NoInfo)
    case _ => NoInfo
  }

  // All properties of all nodes.
  function PropertyTotal(g: Graph): (n: nat)
    ensures g != [] ==> |g[|g| - 1].properties| <= n
  {
    if g == [] then 0 else PropertyTotal(g[..|g| - 1]) + |g[|g| - 1].properties|
  }

  lemma TotalSnoc(g: Graph, n: Node)
    ensures PropertyTotal(g + [n]) == PropertyTotal(g) + |n.properties|
  {
    assert (g + [n])[..|g|] == g;
  }

  // Only the shape of a graph counts.
  lemma {:induction false} TotalFront(front: Graph, g: Graph)
    requires |front| <= |g| && forall k :: 0 <= k < |front| ==> |front[k].properties| == |g[k].properties|
    ensures PropertyTotal(front) <= PropertyTotal(g) && (|front| == |g| ==> PropertyTotal(front) == PropertyTotal(g))
    decreases |g|
  {
    if g != [] {
      TotalFront(if |front| == |g| then front[..|g| - 1] else front, g[..|g| - 1]);
    }
  }

  // The source's answers describe the graph, and nothing in it is out of bounds.
  ghost predicate Presents(src: Source, g: Graph) {
    && InfoOf(src) == Info(|g|)
    && WellFormed(g) && Faithful(src, g) && Handled(g)
    && PropertyTotal(g) <= ITEMS
  }

  // What the source says of a node it says of no other.
  lemma SameNode(src: Source, i: nat, m: Node, n: Node)
    requires FaithfulNode(src, i, m) && FaithfulNode(src, i, n)
    ensures n == m.(phandle := n.phandle)
  {
    hide HeadOf, PieceAt, Gather;
    forall j | 0 <= j < |m.properties|
      ensures m.properties[j] == n.properties[j]
    {
      assert IsProperty(src, i, j, m.properties[j]) && IsProperty(src, i, j, n.properties[j]);
    }
    assert m.properties == n.properties;
  }

  // Two faithful readings agree as far as they both go, up to phandles.
  lemma SameFront(src: Source, front: Graph, g: Graph)
    requires Faithful(src, front) && Faithful(src, g) && |front| <= |g|
    ensures forall k :: 0 <= k < |front| ==> g[k] == front[k].(phandle := g[k].phandle)
  {
    hide FaithfulNode;
    forall k | 0 <= k < |front|
      ensures g[k] == front[k].(phandle := g[k].phandle)
    {
      SameNode(src, k, front[k], g[k]);
    }
  }

  // A source presents one graph at most.
  lemma PresentsOnce(src: Source, g: Graph, h: Graph)
    requires Presents(src, g) && Presents(src, h)
    ensures g == h
  {
    hide HandleOf, Faithful, WellFormed, PropertyTotal, InfoOf;
    SameFront(src, g, h);
  }

  // The next node of a presented graph fits after those read so far.
  lemma NextFits(src: Source, g: Graph, front: Graph)
    requires Presents(src, g) && Tree(front) && Faithful(src, front) && |front| < |g|
    ensures Joins(front, g[|front|])
    ensures HeadOf(src, |front|) == Head(g[|front|].path, g[|front|].owner, g[|front|].parent, |g[|front|].properties|)
    ensures PropertyTotal(front) + |g[|front|].properties| <= ITEMS
  {
    hide HeadOf, Tree, DistinctPhandles, Handled, InfoOf, PropertyTotal, IsProperty, Joins;
    var i := |front|;
    SameFront(src, front, g);
    assert FaithfulNode(src, i, g[i]);
    TotalSnoc(front, g[i]);
    NextTotal(front, g);
    NextJoins(g, front);
  }

  lemma NextTotal(front: Graph, g: Graph)
    requires |front| < |g| && forall k :: 0 <= k < |front| ==> |front[k].properties| == |g[k].properties|
    ensures PropertyTotal(front + [g[|front|]]) <= PropertyTotal(g)
  {
    hide PropertyTotal;
    TotalFront(front + [g[|front|]], g);
  }

  // A node of a tree fits after those before it.
  lemma NextJoins(g: Graph, front: Graph)
    requires Tree(g) && Tree(front) && |front| < |g|
    requires forall k :: 0 <= k < |front| ==> g[k].path == front[k].path && g[k].parent == front[k].parent
    ensures Joins(front, g[|front|])
  {
    hide Plain, Extends, DistinctNames, Ancestors;
    var i := |front|;
    assert Rooted(g, i);
    ParentsEarlier(front);
    ParentsEarlier(g);
    if i > 0 {
      AncestorsSame(front, g, g[i].parent);
    }
  }

  lemma ParentsEarlier(g: Graph)
    requires Tree(g)
    ensures forall k :: 0 < k < |g| ==> g[k].parent < k
  {
    assert forall k :: 0 < k < |g| ==> Rooted(g, k);
  }

  // A piece of a property that can be gathered was answered well.
  lemma GatherAnswered(src: Source, i: nat, j: nat, name: Text, total: nat, offset: nat)
    requires offset <= total && Gather(src, i, j, name, total, offset).Present?
    ensures PieceAt(src, i, j, offset).Piece? && PieceAt(src, i, j, offset).name == name && PieceAt(src, i, j, offset).total == total
  {
    hide PieceAt;
  }

  // An answer that makes a piece.
  ghost predicate Answers(a: seq<Argument>, offset: nat, p: Piece) {
    && |a| == 3 && (forall k :: 0 <= k < 3 ==> Proper(a[k])) && p.Piece? && Titled(a)
    && Integer(a[1]).value == p.total <= LIMIT && TextOf(a[0]) == p.name && ChunkOf(a[2], p.total, offset) == Present(p.chunk)
  }

  lemma PieceAnswered(src: Source, i: nat, j: nat, offset: nat)
    requires PieceAt(src, i, j, offset).Piece?
    ensures Ask(src, 3, [i, j, offset], 3).Reply?
    ensures Answers(Ask(src, 3, [i, j, offset], 3).arguments, offset, PieceAt(src, i, j, offset))
  {
  }

  lemma HeadAnswered(src: Source, i: nat)
    requires HeadOf(src, i).Head?
    ensures Ask(src, 2, [i], 4).Reply?
    ensures HeadFrom(Ask(src, 2, [i], 4).arguments) == HeadOf(src, i)
  {
  }
}
