// The hardware graph (pi5-graph/graph.c): nodes with properties, as the device
// tree has them (sections 2.2 and 2.3 of the Devicetree Specification v0.4).
module GraphTree {
  type Byte = x: nat | x < 256
  type Text = seq<Byte>

  const WORD: nat := 0x1_0000_0000
  const NONE: nat := 0xffffffff
  const SLASH: Byte := 47

  datatype Property = Property(name: Text, data: seq<Byte>)
  datatype Node = Node(path: Text, owner: Text, parent: nat, phandle: nat, properties: seq<Property>)

  type Graph = seq<Node>

  // ----- integers -----

  // Be32, and the bytes it reads.
  function Be32(b: seq<Byte>): (n: nat)
    requires |b| == 4
    ensures n < WORD
  {
    var b0: nat, b1: nat, b2: nat, b3: nat := b[0], b[1], b[2], b[3];
    b3 + 256 * b2 + 65536 * b1 + 16777216 * b0
  }

  function ToBe32(n: nat): (b: seq<Byte>)
    requires n < WORD
    ensures |b| == 4
  {
    [n / 16777216, n / 65536 % 256, n / 256 % 256, n % 256]
  }

  lemma Be32Inverse(n: nat)
    requires n < WORD
    ensures Be32(ToBe32(n)) == n
  {
    var q := n / 256;
    assert n == 256 * q + n % 256;
    assert q == 256 * (q / 256) + q % 256 && q / 256 == n / 65536;
    assert n / 65536 == 256 * (n / 16777216) + n / 65536 % 256;
  }

  lemma ToBe32Inverse(b: seq<Byte>)
    requires |b| == 4
    ensures ToBe32(Be32(b)) == b
  {
    var n, b0: nat, b1: nat, b2: nat := Be32(b), b[0], b[1], b[2];
    assert n / 16777216 == b0;
    assert n / 65536 == b1 + 256 * b0;
    assert n / 256 == b2 + 256 * b1 + 65536 * b0;
  }

  // ----- properties -----

  // The place of the first property of that name, or the number of them all.
  function Named(ps: seq<Property>, name: Text): (i: nat)
    ensures i <= |ps|
    ensures i < |ps| ==> ps[i].name == name
    ensures forall k :: 0 <= k < i ==> ps[k].name != name
  {
    if ps == [] then 0 else if ps[0].name == name then 0 else 1 + Named(ps[1..], name)
  }

  datatype Found = Absent | Present(data: seq<Byte>)

  function DataOf(g: Graph, node: nat, name: Text): Found {
    if node < |g| && Named(g[node].properties, name) < |g[node].properties|
    then Present(g[node].properties[Named(g[node].properties, name)].data)
    else Absent
  }

  // GraphProperty.
  method GraphProperty(g: Graph, node: nat, name: Text) returns (found: Found)
    ensures found == DataOf(g, node, name)
  {
    if node >= |g| {
      return Absent;
    }
    for i := 0 to |g[node].properties|
      invariant forall k :: 0 <= k < i ==> g[node].properties[k].name != name
    {
      if g[node].properties[i].name == name {
        return Present(g[node].properties[i].data);
      }
    }
    found := Absent;
  }

  // ----- trees -----

  predicate Plain(t: Text) {
    forall k :: 0 <= k < |t| ==> t[k] != 0
  }

  // The path of a node is its parent's and one name more.
  predicate Extends(parent: Text, root: bool, path: Text) {
    var front := if root then parent else parent + [SLASH];
    && |front| < |path| && front == path[..|front|]
    && SLASH !in path[|front|..]
  }

  // Node i stands rightly after the nodes before it.
  ghost predicate Rooted(g: Graph, i: nat)
    requires i < |g|
  {
    if i == 0 then g[0].path == [SLASH] && g[0].parent == NONE
    else g[i].parent < i && Extends(g[g[i].parent].path, g[i].parent == 0, g[i].path)
  }

  // How many nodes stand above one whose parent is `p`.
  function Ancestors(g: Graph, p: nat): nat
    requires p < |g| && forall k :: 0 < k < |g| ==> g[k].parent < k
  {
    if p == 0 then 1 else 1 + Ancestors(g, g[p].parent)
  }

  ghost predicate DistinctNames(ps: seq<Property>) {
    forall j, k :: 0 <= j < k < |ps| ==> ps[j].name != ps[k].name
  }

  const DEEPEST: nat := 64

  // A tree of uniquely named nodes with uniquely named properties, none deep down.
  ghost predicate Tree(g: Graph) {
    && (forall i :: 0 <= i < |g| ==> Rooted(g, i) && Plain(g[i].path) && Plain(g[i].owner))
    && (forall i, j :: 0 <= i < j < |g| ==> g[i].path != g[j].path)
    && (forall i :: 0 <= i < |g| ==> DistinctNames(g[i].properties))
    && (forall i :: 0 < i < |g| ==> Ancestors(g, g[i].parent) <= DEEPEST)
  }

  ghost predicate DistinctPhandles(g: Graph) {
    && (forall i :: 0 <= i < |g| ==> (g[i].phandle != 0 ==> g[i].phandle < NONE))
    && (forall i, j :: 0 <= i < j < |g| ==> g[i].phandle == 0 || g[i].phandle != g[j].phandle)
  }

  ghost predicate WellFormed(g: Graph) {
    Tree(g) && DistinctPhandles(g)
  }

  // In a well-formed graph a phandle names one node at most.
  lemma PhandleUnique(g: Graph, i: nat, j: nat)
    requires WellFormed(g) && i < |g| && j < |g| && g[i].phandle == g[j].phandle != 0
    ensures i == j
  {
  }

  // A path's proper ancestors in the tree are its proper prefixes: the parent is
  // the one node whose path is that of the node without its last name.
  lemma ParentUnique(g: Graph, i: nat, j: nat)
    requires WellFormed(g) && 0 < i < |g| && j < |g| && Extends(g[j].path, j == 0, g[i].path)
    ensures j == g[i].parent
  {
    var p := g[i].parent;
    var a := if p == 0 then g[p].path else g[p].path + [SLASH];
    var b := if j == 0 then g[j].path else g[j].path + [SLASH];
    assert Rooted(g, i);
    EndsWithSlash(g, p);
    EndsWithSlash(g, j);
    LastSlash(g[i].path, a, b);
    SamePath(g, p, j);
  }

  // A text divides at its last slash in one way.
  lemma LastSlash(t: Text, a: Text, b: Text)
    requires |a| <= |t| && a == t[..|a|] && a != [] && a[|a| - 1] == SLASH && SLASH !in t[|a|..]
    requires |b| <= |t| && b == t[..|b|] && b != [] && b[|b| - 1] == SLASH && SLASH !in t[|b|..]
    ensures a == b
  {
    var i, j := |a| - 1, |b| - 1;
    assert forall k :: |a| <= k < |t| ==> t[k] != SLASH by {
      assert forall k :: |a| <= k < |t| ==> t[k] == t[|a|..][k - |a|];
    }
    assert forall k :: |b| <= k < |t| ==> t[k] != SLASH by {
      assert forall k :: |b| <= k < |t| ==> t[k] == t[|b|..][k - |b|];
    }
    assert t[i] == SLASH && t[j] == SLASH;
  }

  lemma EndsWithSlash(g: Graph, j: nat)
    requires WellFormed(g) && j < |g|
    ensures var b := if j == 0 then g[j].path else g[j].path + [SLASH]; b != [] && b[|b| - 1] == SLASH
  {
    assert Rooted(g, j);
  }

  lemma SamePath(g: Graph, p: nat, j: nat)
    requires WellFormed(g) && p < |g| && j < |g|
    requires (if p == 0 then g[p].path else g[p].path + [SLASH]) == (if j == 0 then g[j].path else g[j].path + [SLASH])
    ensures p == j
  {
    NotEmpty(g, p);
    NotEmpty(g, j);
    var x, y := if p == 0 then g[p].path else g[p].path + [SLASH], if j == 0 then g[j].path else g[j].path + [SLASH];
    assert Rooted(g, 0);
    assert |x| == |y| && (p == 0 <==> j == 0);
    assert x[..|x| - 1] == y[..|y| - 1];
    assert p != 0 ==> x[..|x| - 1] == g[p].path;
    assert j != 0 ==> y[..|y| - 1] == g[j].path;
  }

  lemma NotEmpty(g: Graph, j: nat)
    requires WellFormed(g) && j < |g|
    ensures g[j].path != []
  {
    assert Rooted(g, j);
  }
}
