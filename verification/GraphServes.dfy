// What a source of the hardware graph sends, byte for byte (pi5-graph/graph.c and
// the arguments of ACPI's function-eval buffers), and that this is exactly what
// the loader goes by.
module GraphServes {
  import opened GraphTree
  import opened GraphDecode
  import opened GraphSource

  // ----- arguments -----

  // An integer of four or eight bytes, least significant first.
  predicate IsInt(a: Argument, n: nat) {
    && a.kind == 0 && (|a.data| == 4 || (|a.data| == 8 && a.data[4] == a.data[5] == a.data[6] == a.data[7] == 0))
    && n == a.data[0] as nat + 0x100 * a.data[1] as nat + 0x10000 * a.data[2] as nat + 0x1000000 * a.data[3] as nat
  }

  // A text with the zero that ends it.
  function Str(t: Text): Argument {
    Argument(1, t + [0])
  }

  function Bytes(data: seq<Byte>): Argument {
    Argument(2, data)
  }

  // The source answers with these arguments, whatever fills their gaps.
  ghost predicate Says(src: Source, what: nat, values: seq<nat>, args: seq<Argument>) {
    exists paddings :: SaysWith(src, what, values, args, paddings)
  }

  ghost predicate SaysWith(src: Source, what: nat, values: seq<nat>, args: seq<Argument>, paddings: seq<seq<Byte>>) {
    && Padded(args, paddings) && |args| <= 4 && 12 + |EncodeAll(args, paddings)| <= 8192
    && src(what, values) == Answer(Encode(args, paddings))
  }

  // ----- the answers for a graph -----

  // Its functions, at least the first four; schema 1, the number of nodes, and one
  // of two layouts.
  ghost predicate SaysInfo(src: Source, count: nat) {
    && (exists mask :: mask != [] && mask[0] % 16 == 15 && Says(src, 0, [], [Bytes(mask)]))
    && exists schema, nodes, layout ::
         Says(src, 1, [], [schema, nodes, layout]) && IsInt(schema, 1) && IsInt(nodes, count) && (IsInt(layout, 0) || IsInt(layout, 1))
  }

  // Node i: path, parent, owner, number of properties.
  ghost predicate SaysNode(src: Source, i: nat, n: Node) {
    exists parent, count ::
      && Says(src, 2, [i], [Str(n.path), parent, Str(n.owner), count])
      && IsInt(parent, n.parent) && IsInt(count, |n.properties|)
  }

  // Property j of node i, from an offset on: name, total size, some bytes.
  ghost predicate SaysPiece(src: Source, i: nat, j: nat, offset: nat, name: Text, total: nat, chunk: seq<Byte>) {
    exists size, rest ::
      && Says(src, 3, [i, j, offset], [Str(name), size, rest])
      && IsInt(size, total) && (rest == Bytes(chunk) || (chunk == [] && IsInt(rest, 0)))
  }

  // Piece after piece, each of up to 4096 bytes and none empty before the end.
  ghost predicate SaysRest(src: Source, i: nat, j: nat, name: Text, data: seq<Byte>, offset: nat)
    requires offset <= |data|
    decreases |data| - offset
  {
    exists n: nat :: n <= 4096 && offset + n <= |data| && (n == 0 ==> offset == |data|) && SaysFrom(src, i, j, name, data, offset, n)
  }

  ghost predicate SaysFrom(src: Source, i: nat, j: nat, name: Text, data: seq<Byte>, offset: nat, n: nat)
    requires offset + n <= |data| && (n == 0 ==> offset == |data|)
    decreases |data| - offset, 0
  {
    && SaysPiece(src, i, j, offset, name, |data|, data[offset..offset + n])
    && (offset + n < |data| ==> SaysRest(src, i, j, name, data, offset + n))
  }

  ghost predicate Serves(src: Source, g: Graph) {
    && SaysInfo(src, |g|)
    && (forall i :: 0 <= i < |g| ==> SaysNode(src, i, g[i]))
    && (forall i, j :: 0 <= i < |g| && 0 <= j < |g[i].properties| ==> SaysRest(src, i, j, g[i].properties[j].name, g[i].properties[j].data, 0))
  }

  // ----- what else makes a graph -----

  function Ascii(s: string): Text
    requires forall k :: 0 <= k < |s| ==> s[k] < 256 as char
  {
    seq(|s|, k requires 0 <= k < |s| => s[k] as int)
  }

  ghost predicate Bounded(g: Graph) {
    && 0 < |g| <= 32640 && PropertyTotal(g) <= 32640
    && (forall i :: 0 <= i < |g| ==> |g[i].path| < 1024 && |g[i].owner| < 1024 && (g[i].owner == [] || g[i].owner[0] == '\\' as int))
    && forall i, j :: 0 <= i < |g| && 0 <= j < |g[i].properties| ==> Storable(g[i].properties[j])
  }

  ghost predicate Storable(p: Property) {
    Plain(p.name) && 0 < |p.name| < 256 && |p.data| <= 0x1000000
  }

  // A node's phandle is the big-endian value of every property that gives it, and
  // zero if none does.
  ghost predicate Carries(n: Node) {
    && (forall j :: 0 <= j < |n.properties| && Gives(n.properties[j]) ==> 0 < n.phandle < 0xffffffff && IsBig(n.properties[j].data, n.phandle))
    && ((forall j :: 0 <= j < |n.properties| ==> !Gives(n.properties[j])) ==> n.phandle == 0)
  }

  predicate Gives(p: Property) {
    p.name == Ascii("phandle") || p.name == Ascii("linux,phandle")
  }

  predicate IsBig(b: seq<Byte>, n: nat) {
    |b| == 4 && n == 0x1000000 * b[0] as nat + 0x10000 * b[1] as nat + 0x100 * b[2] as nat + b[3] as nat
  }

  ghost predicate Served(src: Source, g: Graph) {
    && Serves(src, g) && WellFormed(g) && Bounded(g)
    && forall i :: 0 <= i < |g| ==> Carries(g[i])
  }

  // ----- one answer -----

  lemma IntIs(a: Argument, n: nat)
    requires Proper(a)
    ensures IsInt(a, n) <==> Integer(a) == Number(n)
  {
    if a.kind == 0 && |a.data| == 8 {
      assert a.data[4..8] == [a.data[4], a.data[5], a.data[6], a.data[7]];
    }
  }

  lemma IntProper(a: Argument, n: nat)
    requires IsInt(a, n)
    ensures Proper(a)
  {
  }

  lemma StrIs(a: Argument, t: Text)
    requires Proper(a) && a.kind == 1
    ensures TextOf(a) == t <==> a == Str(t)
    ensures |a.data| == |TextOf(a)| + 1 && (TextOf(a) == [] <==> a.data[0] == 0) && (TextOf(a) != [] ==> a.data[0] == TextOf(a)[0])
  {
    assert a.data == a.data[..|a.data| - 1] + [0];
    if a == Str(t) {
      assert a.data[..|a.data| - 1] == t;
    }
  }

  lemma StrProper(t: Text)
    requires Plain(t) && |t| < 1024
    ensures Proper(Str(t)) && TextOf(Str(t)) == t
  {
    assert (t + [0])[..|t|] == t;
  }

  // An answer is read as these arguments exactly if the source gave them.
  lemma AskSays(src: Source, what: nat, values: seq<nat>, args: seq<Argument>)
    ensures Says(src, what, values, args) <==> |args| <= 4 && Ask(src, what, values, |args|) == Reply(args)
    ensures Says(src, what, values, args) ==> forall k :: 0 <= k < |args| ==> Proper(args[k])
  {
    if Says(src, what, values, args) {
      var paddings :| SaysWith(src, what, values, args, paddings);
      DecodeEncode(args, paddings);
    }
    if |args| <= 4 && Ask(src, what, values, |args|) == Reply(args) {
      AskedSays(src, what, values, args);
    }
  }

  lemma AskedSays(src: Source, what: nat, values: seq<nat>, args: seq<Argument>)
    requires |args| <= 4 && Ask(src, what, values, |args|) == Reply(args)
    ensures Says(src, what, values, args)
  {
    hide Decode, Padded, EncodeAll;
    var bytes := src(what, values).bytes;
    var paddings := EncodeDecode(bytes, |args|);
    EncodeSize(args, paddings);
    assert SaysWith(src, what, values, args, paddings);
  }

  lemma EncodeSize(args: seq<Argument>, paddings: seq<seq<Byte>>)
    requires Padded(args, paddings) && 12 + |EncodeAll(args, paddings)| < WORD && |args| <= ARGUMENTS
    ensures |Encode(args, paddings)| == 12 + |EncodeAll(args, paddings)|
  {
    hide EncodeAll, Padded;
  }

  // ----- the functions and the size -----

  lemma InfoSays(src: Source, count: nat)
    requires 0 < count <= 32640
    ensures SaysInfo(src, count) <==> InfoOf(src) == Info(count)
  {
    hide Ask, Says;
    if SaysInfo(src, count) {
      InfoSaid(src, count);
    }
    if InfoOf(src) == Info(count) {
      var f, a := Ask(src, 0, [], 1).arguments, Ask(src, 1, [], 3).arguments;
      assert f == [Bytes(f[0].data)] && a == [a[0], a[1], a[2]];
      AskSays(src, 0, [], [Bytes(f[0].data)]);
      AskSays(src, 1, [], [a[0], a[1], a[2]]);
      IntIs(a[0], 1);
      IntIs(a[1], count);
      IntIs(a[2], 0);
      IntIs(a[2], 1);
    }
  }

  lemma InfoSaid(src: Source, count: nat)
    requires 0 < count <= 32640 && SaysInfo(src, count)
    ensures InfoOf(src) == Info(count)
  {
    hide Ask, Says, Integer, IsInt;
    var mask :| mask != [] && mask[0] % 16 == 15 && Says(src, 0, [], [Bytes(mask)]);
    AskSays(src, 0, [], [Bytes(mask)]);
    var schema, nodes, layout :| Says(src, 1, [], [schema, nodes, layout]) && IsInt(schema, 1) && IsInt(nodes, count) && (IsInt(layout, 0) || IsInt(layout, 1));
    AskSays(src, 1, [], [schema, nodes, layout]);
    AllProper(schema, nodes, layout);
    IntIs(schema, 1);
    IntIs(nodes, count);
    IntIs(layout, 0);
    IntIs(layout, 1);
  }

  // ----- nodes -----

  lemma NodeSays(src: Source, i: nat, n: Node)
    requires Plain(n.path) && Plain(n.owner) && n.path != [] && n.path[0] == SLASH
    requires |n.path| < 1024 && |n.owner| < 1024 && (n.owner == [] || n.owner[0] == '\\' as int)
    ensures SaysNode(src, i, n) <==> HeadOf(src, i) == Head(n.path, n.owner, n.parent, |n.properties|)
  {
    hide HeadOf, Says, IsInt, Plain;
    if SaysNode(src, i, n) {
      var parent, count :| Says(src, 2, [i], [Str(n.path), parent, Str(n.owner), count]) && IsInt(parent, n.parent) && IsInt(count, |n.properties|);
      NodeSaid(src, i, n, parent, count);
    }
    if HeadOf(src, i) == Head(n.path, n.owner, n.parent, |n.properties|) {
      NodeTold(src, i, n);
    }
  }

  lemma NodeSaid(src: Source, i: nat, n: Node, parent: Argument, count: Argument)
    requires Plain(n.path) && Plain(n.owner) && n.path != [] && n.path[0] == SLASH
    requires |n.path| < 1024 && |n.owner| < 1024 && (n.owner == [] || n.owner[0] == '\\' as int)
    requires Says(src, 2, [i], [Str(n.path), parent, Str(n.owner), count]) && IsInt(parent, n.parent) && IsInt(count, |n.properties|)
    ensures HeadOf(src, i) == Head(n.path, n.owner, n.parent, |n.properties|)
  {
    hide Says, IsInt, Integer, TextOf, Plain, Ask, HeadFrom;
    var a := [Str(n.path), parent, Str(n.owner), count];
    AskSays(src, 2, [i], a);
    HeadIs(src, i, a);
    FourProper(a);
    IntIs(parent, n.parent);
    IntIs(count, |n.properties|);
    StrIs(a[0], n.path);
    StrIs(a[2], n.owner);
    HeadGiven(a, n.path, n.owner, n.parent, |n.properties|);
  }

  lemma HeadGiven(a: seq<Argument>, path: Text, owner: Text, parent: nat, count: nat)
    requires |a| == 4 && Proper(a[0]) && Proper(a[1]) && Proper(a[2]) && Proper(a[3])
    requires a[0] == Str(path) && a[2] == Str(owner) && TextOf(a[0]) == path && TextOf(a[2]) == owner
    requires path != [] && path[0] == SLASH && |path| < 1024 && |owner| < 1024 && (owner == [] || owner[0] == '\\' as int)
    requires Integer(a[1]) == Number(parent) && Integer(a[3]) == Number(count)
    ensures HeadFrom(a) == Head(path, owner, parent, count)
  {
    hide Proper, Integer, TextOf;
  }

  lemma FourProper(a: seq<Argument>)
    requires |a| == 4 && forall k :: 0 <= k < |a| ==> Proper(a[k])
    ensures Proper(a[0]) && Proper(a[1]) && Proper(a[2]) && Proper(a[3])
  {
  }

  lemma AllProper(x: Argument, y: Argument, z: Argument)
    requires forall k :: 0 <= k < |[x, y, z]| ==> Proper([x, y, z][k])
    ensures Proper(x) && Proper(y) && Proper(z)
  {
    assert [x, y, z][0] == x && [x, y, z][1] == y && [x, y, z][2] == z;
  }

  lemma NodeTold(src: Source, i: nat, n: Node)
    requires HeadOf(src, i) == Head(n.path, n.owner, n.parent, |n.properties|)
    ensures SaysNode(src, i, n)
  {
    hide Says, Integer, TextOf, IsInt, Ask;
    var a := Ask(src, 2, [i], 4).arguments;
    StrIs(a[0], n.path);
    StrIs(a[2], n.owner);
    IntIs(a[1], n.parent);
    IntIs(a[3], |n.properties|);
    assert a == [Str(n.path), a[1], Str(n.owner), a[3]];
    AskSays(src, 2, [i], [Str(n.path), a[1], Str(n.owner), a[3]]);
  }

  // What the answer about a node must be for there to be one.
  lemma HeadBounded(src: Source, i: nat)
    requires HeadOf(src, i).Head?
    ensures var h := HeadOf(src, i); |h.path| < 1024 && |h.owner| < 1024 && (h.owner == [] || h.owner[0] == '\\' as int)
  {
    hide Ask, Integer;
    var a := Ask(src, 2, [i], 4).arguments;
    StrIs(a[0], TextOf(a[0]));
    StrIs(a[2], TextOf(a[2]));
  }

  // ----- properties -----

  lemma PieceSays(src: Source, i: nat, j: nat, offset: nat, name: Text, total: nat, chunk: seq<Byte>)
    requires Plain(name) && 0 < |name| < 256 && total <= 0x1000000
    requires |chunk| <= 4096 && offset + |chunk| <= total && (chunk == [] ==> offset == total)
    ensures SaysPiece(src, i, j, offset, name, total, chunk) <==> PieceAt(src, i, j, offset) == Piece(name, total, chunk)
  {
    hide PieceAt, Says, IsInt;
    if SaysPiece(src, i, j, offset, name, total, chunk) {
      var size, rest :| Says(src, 3, [i, j, offset], [Str(name), size, rest]) && IsInt(size, total) && (rest == Bytes(chunk) || (chunk == [] && IsInt(rest, 0)));
      PieceSaid(src, i, j, offset, name, total, chunk, size, rest);
    }
    if PieceAt(src, i, j, offset) == Piece(name, total, chunk) {
      PieceTold(src, i, j, offset, name, total, chunk);
    }
  }

  lemma PieceSaid(src: Source, i: nat, j: nat, offset: nat, name: Text, total: nat, chunk: seq<Byte>, size: Argument, rest: Argument)
    requires Plain(name) && 0 < |name| < 256 && total <= 0x1000000
    requires |chunk| <= 4096 && offset + |chunk| <= total && (chunk == [] ==> offset == total)
    requires Says(src, 3, [i, j, offset], [Str(name), size, rest]) && IsInt(size, total) && (rest == Bytes(chunk) || (chunk == [] && IsInt(rest, 0)))
    ensures PieceAt(src, i, j, offset) == Piece(name, total, chunk)
  {
    hide Ask, Says, Integer, TextOf, IsInt, PieceAt, Plain;
    var a := [Str(name), size, rest];
    AskSays(src, 3, [i, j, offset], a);
    AllProper(Str(name), size, rest);
    IntIs(size, total);
    StrIs(Str(name), name);
    IntIs(rest, 0);
    KindOf(rest, 0);
    PieceFrom(src, i, j, offset, a);
  }

  lemma PieceTold(src: Source, i: nat, j: nat, offset: nat, name: Text, total: nat, chunk: seq<Byte>)
    requires PieceAt(src, i, j, offset) == Piece(name, total, chunk)
    ensures SaysPiece(src, i, j, offset, name, total, chunk)
  {
    hide Ask, Says, Integer, TextOf, IsInt;
    var a := Ask(src, 3, [i, j, offset], 3).arguments;
    StrIs(a[0], name);
    IntIs(a[1], total);
    IntIs(a[2], 0);
    assert a == [Str(name), a[1], a[2]];
    AskSays(src, 3, [i, j, offset], [Str(name), a[1], a[2]]);
    assert a[2] == Bytes(a[2].data) || a[2].kind != 2;
  }

  lemma KindOf(a: Argument, n: nat)
    ensures IsInt(a, n) ==> a.kind != 2
  {
  }

  lemma PieceBounded(src: Source, i: nat, j: nat, offset: nat)
    requires PieceAt(src, i, j, offset).Piece?
    ensures var p := PieceAt(src, i, j, offset); Plain(p.name) && 0 < |p.name| < 256 && p.total <= 0x1000000 && |p.chunk| <= 4096
  {
    hide Ask, Integer;
    var a := Ask(src, 3, [i, j, offset], 3).arguments;
    StrIs(a[0], TextOf(a[0]));
  }

  // What is gathered from an offset on is what the source sends from there.
  lemma {:induction false} RestSays(src: Source, i: nat, j: nat, name: Text, data: seq<Byte>, offset: nat)
    requires Plain(name) && 0 < |name| < 256 && |data| <= 0x1000000 && offset <= |data|
    ensures SaysRest(src, i, j, name, data, offset) <==> Gather(src, i, j, name, |data|, offset) == Present(data[offset..])
    decreases |data| - offset
  {
    hide SaysPiece, PieceAt, SaysFrom, SaysRest;
    if SaysRest(src, i, j, name, data, offset) {
      var n := RestCut(src, i, j, name, data, offset);
      FromSays(src, i, j, name, data, offset, n);
      Cut(data, offset, n);
      if offset + n < |data| {
        RestSays(src, i, j, name, data, offset + n);
      }
    }
    if Gather(src, i, j, name, |data|, offset) == Present(data[offset..]) {
      var n := |PieceAt(src, i, j, offset).chunk|;
      PieceBounded(src, i, j, offset);
      Cut(data, offset, n);
      if offset + n < |data| {
        RestSays(src, i, j, name, data, offset + n);
        Heads(PieceAt(src, i, j, offset).chunk, Gather(src, i, j, name, |data|, offset + n).data, data, offset);
      }
      FromSays(src, i, j, name, data, offset, n);
      RestMade(src, i, j, name, data, offset, n);
    }
  }

  lemma RestCut(src: Source, i: nat, j: nat, name: Text, data: seq<Byte>, offset: nat) returns (n: nat)
    requires offset <= |data| && SaysRest(src, i, j, name, data, offset)
    ensures n <= 4096 && offset + n <= |data| && (n == 0 ==> offset == |data|) && SaysFrom(src, i, j, name, data, offset, n)
  {
    hide SaysPiece;
    n :| n <= 4096 && offset + n <= |data| && (n == 0 ==> offset == |data|) && SaysFrom(src, i, j, name, data, offset, n);
  }

  lemma RestMade(src: Source, i: nat, j: nat, name: Text, data: seq<Byte>, offset: nat, n: nat)
    requires n <= 4096 && offset + n <= |data| && (n == 0 ==> offset == |data|) && SaysFrom(src, i, j, name, data, offset, n)
    ensures SaysRest(src, i, j, name, data, offset)
  {
    hide SaysPiece;
  }

  lemma FromSays(src: Source, i: nat, j: nat, name: Text, data: seq<Byte>, offset: nat, n: nat)
    requires Plain(name) && 0 < |name| < 256 && |data| <= 0x1000000
    requires n <= 4096 && offset + n <= |data| && (n == 0 ==> offset == |data|)
    ensures SaysFrom(src, i, j, name, data, offset, n) <==>
            && PieceAt(src, i, j, offset) == Piece(name, |data|, data[offset..offset + n])
            && (offset + n < |data| ==> SaysRest(src, i, j, name, data, offset + n))
  {
    hide SaysPiece, PieceAt, SaysRest;
    PieceSays(src, i, j, offset, name, |data|, data[offset..offset + n]);
  }

  lemma Cut(data: seq<Byte>, offset: nat, n: nat)
    requires offset + n <= |data|
    ensures data[offset..offset + n] + data[offset + n..] == data[offset..]
    ensures offset + n == |data| ==> data[offset..offset + n] == data[offset..]
  {
  }

  lemma Heads(chunk: seq<Byte>, rest: seq<Byte>, data: seq<Byte>, offset: nat)
    requires offset + |chunk| <= |data| && chunk + rest == data[offset..]
    ensures chunk == data[offset..offset + |chunk|] && rest == data[offset + |chunk|..]
  {
    assert (chunk + rest)[..|chunk|] == chunk && (chunk + rest)[|chunk|..] == rest;
  }

  lemma PropertySays(src: Source, i: nat, j: nat, p: Property)
    ensures Storable(p) && SaysRest(src, i, j, p.name, p.data, 0) <==> IsProperty(src, i, j, p)
  {
    hide PieceAt, SaysFrom;
    assert p.data[0..] == p.data;
    if IsProperty(src, i, j, p) {
      PieceBounded(src, i, j, 0);
      RestSays(src, i, j, p.name, p.data, 0);
    }
    if Storable(p) && SaysRest(src, i, j, p.name, p.data, 0) {
      RestSays(src, i, j, p.name, p.data, 0);
      GatherAnswered(src, i, j, p.name, |p.data|, 0);
    }
  }

  // ----- phandles -----

  lemma Spelled()
    ensures Ascii("phandle") == PHANDLE && Ascii("linux,phandle") == LINUX_PHANDLE && PHANDLE != LINUX_PHANDLE
  {
    assert |PHANDLE| == 7 && |LINUX_PHANDLE| == 13;
  }

  lemma BigIs(b: seq<Byte>, n: nat)
    ensures IsBig(b, n) <==> |b| == 4 && Be32(b) == n
    ensures forall c: seq<Byte> :: IsBig(b, n) && IsBig(c, n) ==> b == c
  {
    if |b| == 4 {
      forall c: seq<Byte> | IsBig(b, n) && IsBig(c, n)
        ensures b == c
      {
        ToBe32Inverse(b);
        ToBe32Inverse(c);
      }
    }
  }

  lemma NodeCarries(n: Node)
    requires DistinctNames(n.properties)
    ensures Carries(n) <==> !HandleOf(n.properties).BadHandle? && n.phandle == if HandleOf(n.properties).Handle? then HandleOf(n.properties).value else 0
  {
    hide Ascii, IsBig;
    Spelled();
    var ps := n.properties;
    var a, b := Named(ps, PHANDLE), Named(ps, LINUX_PHANDLE);
    forall j | 0 <= j < |ps| && Gives(ps[j])
      ensures j == a || j == b
    {
    }
    if a < |ps| {
      BigIs(ps[a].data, n.phandle);
      assert Gives(ps[a]);
    }
    if b < |ps| {
      BigIs(ps[b].data, n.phandle);
      assert Gives(ps[b]);
    }
  }

  // ----- the whole graph -----

  // The loader goes by what the source sends, and by nothing else.
  lemma ServesIsPresents(src: Source, g: Graph)
    ensures Served(src, g) <==> Presents(src, g)
  {
    hide SaysInfo, SaysNode, SaysRest, HeadOf, IsProperty, InfoOf, HandleOf, Carries, PropertyTotal, Storable, Tree, DistinctPhandles;
    if Served(src, g) {
      ServedFaithful(src, g);
      ServedHandled(g);
      InfoSays(src, |g|);
    }
    if Presents(src, g) {
      FaithfulServed(src, g);
      HandledCarries(g);
      InfoSays(src, |g|);
    }
  }

  lemma TreeTexts(g: Graph, i: nat)
    requires Tree(g) && i < |g|
    ensures Plain(g[i].path) && Plain(g[i].owner) && g[i].path != [] && g[i].path[0] == SLASH && DistinctNames(g[i].properties)
  {
    hide Plain, Ancestors, DistinctNames;
    assert Rooted(g, i);
    if i > 0 {
      TreeTexts(g, g[i].parent);
    }
  }

  lemma ServedFaithful(src: Source, g: Graph)
    requires Serves(src, g) && WellFormed(g) && Bounded(g)
    ensures Faithful(src, g)
  {
    hide SaysInfo, SaysNode, SaysRest, HeadOf, IsProperty, Tree, DistinctPhandles, PropertyTotal, Storable, Plain;
    forall i | 0 <= i < |g|
      ensures FaithfulNode(src, i, g[i])
    {
      TreeTexts(g, i);
      NodeSays(src, i, g[i]);
      forall j | 0 <= j < |g[i].properties|
        ensures IsProperty(src, i, j, g[i].properties[j])
      {
        PropertySays(src, i, j, g[i].properties[j]);
      }
    }
  }

  lemma FaithfulServed(src: Source, g: Graph)
    requires Presents(src, g)
    ensures Serves(src, g) && Bounded(g)
  {
    hide SaysInfo, SaysNode, SaysRest, HeadOf, IsProperty, Tree, DistinctPhandles, PropertyTotal, Handled, Storable, Plain;
    InfoSays(src, |g|);
    forall i | 0 <= i < |g|
      ensures SaysNode(src, i, g[i]) && |g[i].path| < 1024 && |g[i].owner| < 1024 && (g[i].owner == [] || g[i].owner[0] == '\\' as int)
    {
      assert FaithfulNode(src, i, g[i]);
      TreeTexts(g, i);
      HeadBounded(src, i);
      NodeSays(src, i, g[i]);
    }
    forall i, j | 0 <= i < |g| && 0 <= j < |g[i].properties|
      ensures Storable(g[i].properties[j]) && SaysRest(src, i, j, g[i].properties[j].name, g[i].properties[j].data, 0)
    {
      assert FaithfulNode(src, i, g[i]);
      PropertySays(src, i, j, g[i].properties[j]);
    }
  }

  lemma ServedHandled(g: Graph)
    requires WellFormed(g) && forall i :: 0 <= i < |g| ==> Carries(g[i])
    ensures Handled(g)
  {
    hide Tree, DistinctPhandles, Carries, HandleOf;
    forall i | 0 <= i < |g|
      ensures Carries(g[i])
    {
    }
    forall i | 0 <= i < |g|
      ensures !HandleOf(g[i].properties).BadHandle?
      ensures g[i].phandle == if HandleOf(g[i].properties).Handle? then HandleOf(g[i].properties).value else 0
    {
      TreeTexts(g, i);
      NodeCarries(g[i]);
    }
  }

  lemma HandledCarries(g: Graph)
    requires WellFormed(g) && Handled(g)
    ensures forall i :: 0 <= i < |g| ==> Carries(g[i])
  {
    hide Tree, DistinctPhandles, Carries, HandleOf;
    forall i | 0 <= i < |g|
      ensures Carries(g[i])
    {
      TreeTexts(g, i);
      NodeCarries(g[i]);
    }
  }
}
