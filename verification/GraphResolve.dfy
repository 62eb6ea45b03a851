// Resolving specifiers in the hardware graph (pi5-graph/graph.c): lists of
// phandles with arguments (section 2.3.3 of the Devicetree Specification v0.4).
module GraphResolve {
  import opened GraphTree

  const CELLS: nat := 16

  // An entry of such a list: a null phandle, or a provider and its arguments.
  datatype Entry = Null | To(provider: nat, phandle: nat, cells: seq<nat>)

  datatype Result = Ok | Invalid | NotFound
  datatype Query = Query(version: nat, reserved: nat, node: nat, property: Text, cellsProperty: Text, index: nat, terminated: bool)

  // The first node with a phandle, or the number of nodes.
  function ProviderOf(g: Graph, phandle: nat): (i: nat)
    ensures i <= |g|
    ensures i < |g| ==> g[i].phandle == phandle
    ensures forall k :: 0 <= k < i ==> g[k].phandle != phandle
    decreases |g|
  {
    if g == [] then 0
    else
      var n := |g| - 1;
      var i := ProviderOf(g[..n], phandle);
      if i < n then i else if g[n].phandle == phandle then n else |g|
  }

  // A provider takes n arguments: none where no property is named to say so, and
  // otherwise as many as its property of that name holds, in one cell.
  predicate Takes(g: Graph, provider: nat, cellsProperty: Text, n: nat) {
    n <= CELLS && if cellsProperty == [] then n == 0 else DataOf(g, provider, cellsProperty) == Present(ToBe32(n))
  }

  datatype Count = Bad | Arguments(n: nat)

  // How many arguments a provider takes, by its #*-cells property.
  function CountOf(g: Graph, provider: nat, cellsProperty: Text): Count {
    if cellsProperty == [] then Arguments(0)
    else
      match DataOf(g, provider, cellsProperty)
      case Absent => Bad
      case Present(data) => if |data| == 4 && Be32(data) <= CELLS then Arguments(Be32(data)) else Bad
  }

  lemma CountIs(g: Graph, provider: nat, cellsProperty: Text)
    ensures forall n :: CountOf(g, provider, cellsProperty) == Arguments(n) <==> Takes(g, provider, cellsProperty, n)
  {
    var found := DataOf(g, provider, cellsProperty);
    if found.Present? && |found.data| == 4 {
      ToBe32Inverse(found.data);
    }
    forall n: nat | n <= CELLS
      ensures Be32(ToBe32(n)) == n
    {
      Be32Inverse(n);
    }
  }

  // ----- encoding -----

  predicate Proper(g: Graph, cellsProperty: Text, e: Entry) {
    e.To? ==>
      && 0 < e.phandle < WORD && e.provider < |g| && e.provider == ProviderOf(g, e.phandle)
      && Takes(g, e.provider, cellsProperty, |e.cells|)
      && forall k :: 0 <= k < |e.cells| ==> e.cells[k] < WORD
  }

  function EncodeCells(cells: seq<nat>): (b: seq<Byte>)
    requires forall k :: 0 <= k < |cells| ==> cells[k] < WORD
    ensures |b| == 4 * |cells|
  {
    if cells == [] then [] else ToBe32(cells[0]) + EncodeCells(cells[1..])
  }

  function EncodeEntry(g: Graph, cellsProperty: Text, e: Entry): (b: seq<Byte>)
    requires Proper(g, cellsProperty, e)
    ensures 4 <= |b|
  {
    match e
    case Null => ToBe32(0)
    case To(provider, phandle, cells) => ToBe32(phandle) + EncodeCells(cells)
  }

  ghost predicate AllProper(g: Graph, cellsProperty: Text, es: seq<Entry>) {
    forall k :: 0 <= k < |es| ==> Proper(g, cellsProperty, es[k])
  }

  function Encode(g: Graph, cellsProperty: Text, es: seq<Entry>): seq<Byte>
    requires AllProper(g, cellsProperty, es)
  {
    if es == [] then [] else EncodeEntry(g, cellsProperty, es[0]) + Encode(g, cellsProperty, es[1..])
  }

  // ----- decoding -----

  function DecodeCells(b: seq<Byte>, n: nat): (cells: seq<nat>)
    requires |b| >= 4 * n
    ensures |cells| == n && forall k :: 0 <= k < n ==> cells[k] < WORD
  {
    if n == 0 then [] else [Be32(b[..4])] + DecodeCells(b[4..], n - 1)
  }

  datatype Parsed = Failed | Entries(list: seq<Entry>)

  // The first entry of a list, if it is well-formed.
  datatype First = Malformed | One(entry: Entry, size: nat)

  function ParseFirst(g: Graph, cellsProperty: Text, b: seq<Byte>): (f: First)
    ensures f.One? ==> 4 <= f.size <= |b| && f.size % 4 == 0 && Proper(g, cellsProperty, f.entry)
  {
    if |b| < 4 then Malformed
    else if Be32(b[..4]) == 0 then One(Null, 4)
    else
      var phandle := Be32(b[..4]);
      var provider := ProviderOf(g, phandle);
      if provider == |g| then Malformed
      else
        CountIs(g, provider, cellsProperty);
        match CountOf(g, provider, cellsProperty)
        case Bad => Malformed
        case Arguments(n) =>
          if n > (|b| - 4) / 4 then Malformed
          else One(To(provider, phandle, DecodeCells(b[4..], n)), 4 + 4 * n)
  }

  function Parse(g: Graph, cellsProperty: Text, b: seq<Byte>): (p: Parsed)
    ensures p.Entries? ==> AllProper(g, cellsProperty, p.list)
    decreases |b|
  {
    if b == [] then Entries([])
    else
      var f := ParseFirst(g, cellsProperty, b);
      if f.Malformed? then Failed
      else
        var rest := Parse(g, cellsProperty, b[f.size..]);
        if rest.Failed? then Failed else Entries([f.entry] + rest.list)
  }

  // ----- the two are inverse -----

  lemma {:induction false} CellsInverse(cells: seq<nat>, tail: seq<Byte>)
    requires forall k :: 0 <= k < |cells| ==> cells[k] < WORD
    ensures DecodeCells(EncodeCells(cells) + tail, |cells|) == cells
  {
    if cells != [] {
      var b := EncodeCells(cells) + tail;
      Be32Inverse(cells[0]);
      assert b[..4] == ToBe32(cells[0]);
      assert b[4..] == EncodeCells(cells[1..]) + tail;
      CellsInverse(cells[1..], tail);
    }
  }

  lemma {:induction false} CellsEncoded(b: seq<Byte>, n: nat)
    requires |b| >= 4 * n
    ensures EncodeCells(DecodeCells(b, n)) == b[..4 * n]
  {
    if n > 0 {
      ToBe32Inverse(b[..4]);
      CellsEncoded(b[4..], n - 1);
      assert DecodeCells(b, n)[1..] == DecodeCells(b[4..], n - 1);
      assert b[..4] + b[4..][..4 * (n - 1)] == b[..4 * n];
    }
  }

  lemma FirstInverse(g: Graph, cellsProperty: Text, e: Entry, tail: seq<Byte>)
    requires Proper(g, cellsProperty, e)
    ensures var b := EncodeEntry(g, cellsProperty, e);
            ParseFirst(g, cellsProperty, b + tail) == One(e, |b|)
  {
    var b := EncodeEntry(g, cellsProperty, e);
    if e.To? {
      CountIs(g, e.provider, cellsProperty);
    }
    match e
    case Null =>
      Be32Inverse(0);
      assert (b + tail)[..4] == ToBe32(0);
    case To(provider, phandle, cells) =>
      Be32Inverse(phandle);
      assert (b + tail)[..4] == ToBe32(phandle);
      assert (b + tail)[4..] == EncodeCells(cells) + tail;
      CellsInverse(cells, tail);
  }

  // A list of entries is read back as it was written.
  lemma {:induction false} ParseEncode(g: Graph, cellsProperty: Text, es: seq<Entry>)
    requires AllProper(g, cellsProperty, es)
    ensures Parse(g, cellsProperty, Encode(g, cellsProperty, es)) == Entries(es)
    decreases |es|
  {
    hide ParseFirst, EncodeEntry, Proper;
    if es != [] {
      var b, tail := EncodeEntry(g, cellsProperty, es[0]), Encode(g, cellsProperty, es[1..]);
      FirstInverse(g, cellsProperty, es[0], tail);
      assert (b + tail)[|b|..] == tail;
      ParseEncode(g, cellsProperty, es[1..]);
    }
  }

  // And only encodings of lists can be read at all.
  lemma {:induction false} EncodeParse(g: Graph, cellsProperty: Text, b: seq<Byte>)
    requires Parse(g, cellsProperty, b).Entries?
    ensures Encode(g, cellsProperty, Parse(g, cellsProperty, b).list) == b
    decreases |b|
  {
    if b != [] {
      var f := ParseFirst(g, cellsProperty, b);
      EncodeParse(g, cellsProperty, b[f.size..]);
      ToBe32Inverse(b[..4]);
      if f.entry.To? {
        CellsEncoded(b[4..], |f.entry.cells|);
        assert b[..4] + b[4..][..4 * |f.entry.cells|] == b[..f.size];
      }
      assert EncodeEntry(g, cellsProperty, f.entry) == b[..f.size];
      assert Parse(g, cellsProperty, b).list[1..] == Parse(g, cellsProperty, b[f.size..]).list;
      assert b[..f.size] + b[f.size..] == b;
    }
  }

  // So a property has one reading at most, and has one exactly if it is the
  // encoding of some list of proper entries.
  lemma ReadableExactly(g: Graph, cellsProperty: Text, b: seq<Byte>)
    ensures Parse(g, cellsProperty, b).Entries? <==> exists es :: AllProper(g, cellsProperty, es) && Encode(g, cellsProperty, es) == b
    ensures forall es :: AllProper(g, cellsProperty, es) && Encode(g, cellsProperty, es) == b ==> Parse(g, cellsProperty, b) == Entries(es)
  {
    forall es | AllProper(g, cellsProperty, es) && Encode(g, cellsProperty, es) == b
      ensures Parse(g, cellsProperty, b) == Entries(es)
    {
      ParseEncode(g, cellsProperty, es);
    }
    if Parse(g, cellsProperty, b).Entries? {
      EncodeParse(g, cellsProperty, b);
    }
  }

  // ----- GraphResolve -----

  predicate WellPosed(g: Graph, q: Query) {
    q.version == 1 && q.reserved == 0 && q.node < |g| && q.terminated && q.property != []
  }

  // Entries read so far, then the rest.
  function Join(done: seq<Entry>, rest: Parsed): Parsed {
    if rest.Failed? then Failed else Entries(done + rest.list)
  }

  // The query's index selects exactly that entry of the list; a null entry or an
  // index beyond the end is not found; a list with any malformed entry is
  // refused, even if the entry asked for came before it.
  method GraphResolve(g: Graph, q: Query) returns (r: Result, reference: Entry)
    ensures !WellPosed(g, q) ==> r == Invalid
    ensures WellPosed(g, q) ==>
              match DataOf(g, q.node, q.property) {
                case Absent => r == NotFound
                case Present(data) =>
                  match Parse(g, q.cellsProperty, data) {
                    case Failed => r == Invalid
                    case Entries(es) =>
                      if q.index < |es| && es[q.index].To? then r == Ok && reference == es[q.index] else r == NotFound
                  }
              }
  {
    reference := Null;
    if q.version != 1 || q.reserved != 0 || q.node >= |g| || !q.terminated || q.property == [] {
      return Invalid, reference;
    }
    var found := GraphProperty(g, q.node, q.property);
    if found.Absent? {
      return NotFound, reference;
    }
    r, reference := Select(g, q, found.data);
  }

  // Walk through the whole list, keeping the entry with the index asked for.
  method Select(g: Graph, q: Query, data: seq<Byte>) returns (r: Result, reference: Entry)
    ensures match Parse(g, q.cellsProperty, data) {
              case Failed => r == Invalid
              case Entries(es) =>
                if q.index < |es| && es[q.index].To? then r == Ok && reference == es[q.index] else r == NotFound
            }
  {
    hide ParseFirst, Parse;
    reference := Null;
    if |data| % 4 != 0 {
      ParsedWhole(g, q.cellsProperty, data);
      return Invalid, reference;
    }
    var at: nat, index: nat, hit := 0, 0, Null;
    ghost var done: seq<Entry> := [];
    assert data[0..] == data;
    while at < |data|
      invariant at <= |data| && at % 4 == 0 && index == |done|
      invariant Parse(g, q.cellsProperty, data) == Join(done, Parse(g, q.cellsProperty, data[at..]))
      invariant hit == if q.index < |done| then done[q.index] else Null
    {
      ParseStep(g, q.cellsProperty, data[at..]);
      var f := ReadFirst(g, q.cellsProperty, data[at..]);
      if f.Malformed? {
        return Invalid, reference;
      }
      if index == q.index {
        hit := f.entry;
      }
      assert data[at..][f.size..] == data[at + f.size..];
      JoinSnoc(done, f.entry, Parse(g, q.cellsProperty, data[at + f.size..]));
      done := done + [f.entry];
      index := index + 1;
      at := at + f.size;
    }
    assert data[at..] == [];
    ParseStep(g, q.cellsProperty, []);
    if hit.Null? {
      return NotFound, reference;
    }
    r, reference := Ok, hit;
  }

  lemma ParseStep(g: Graph, cellsProperty: Text, b: seq<Byte>)
    ensures b == [] ==> Parse(g, cellsProperty, b) == Entries([])
    ensures b != [] ==>
              var f := ParseFirst(g, cellsProperty, b);
              if f.Malformed? then Parse(g, cellsProperty, b).Failed?
              else Parse(g, cellsProperty, b) == Join([f.entry], Parse(g, cellsProperty, b[f.size..]))
  {
  }

  // One entry: the phandle, its provider, the provider's count, the arguments.
  method ReadFirst(g: Graph, cellsProperty: Text, b: seq<Byte>) returns (f: First)
    requires 4 <= |b|
    ensures f == ParseFirst(g, cellsProperty, b)
  {
    var phandle := Be32(b[..4]);
    if phandle == 0 {
      return One(Null, 4);
    }
    var provider := FindProvider(g, phandle);
    if provider == |g| {
      return Malformed;
    }
    var count := ReadCount(g, provider, cellsProperty);
    if count.Bad? || count.n > (|b| - 4) / 4 {
      return Malformed;
    }
    var cells := ReadCells(b[4..], count.n);
    f := One(To(provider, phandle, cells), 4 + 4 * count.n);
  }

  lemma JoinSnoc(done: seq<Entry>, e: Entry, rest: Parsed)
    ensures Join(done, Join([e], rest)) == Join(done + [e], rest)
  {
    if rest.Entries? {
      assert done + ([e] + rest.list) == done + [e] + rest.list;
    }
  }

  lemma {:induction false} ParsedWhole(g: Graph, cellsProperty: Text, b: seq<Byte>)
    ensures Parse(g, cellsProperty, b).Entries? ==> |b| % 4 == 0
    decreases |b|
  {
    hide Parse, ParseFirst;
    ParseStep(g, cellsProperty, b);
    var f := ParseFirst(g, cellsProperty, b);
    if b != [] && f.One? {
      ParsedWhole(g, cellsProperty, b[f.size..]);
    }
  }

  method FindProvider(g: Graph, phandle: nat) returns (provider: nat)
    ensures provider == ProviderOf(g, phandle)
  {
    provider := 0;
    while provider < |g| && g[provider].phandle != phandle
      invariant provider <= |g| && forall k :: 0 <= k < provider ==> g[k].phandle != phandle
    {
      provider := provider + 1;
    }
  }

  method ReadCount(g: Graph, provider: nat, cellsProperty: Text) returns (count: Count)
    ensures count == CountOf(g, provider, cellsProperty)
  {
    if cellsProperty == [] {
      return Arguments(0);
    }
    var found := GraphProperty(g, provider, cellsProperty);
    if found.Absent? || |found.data| != 4 || Be32(found.data) > CELLS {
      return Bad;
    }
    count := Arguments(Be32(found.data));
  }

  method ReadCells(b: seq<Byte>, n: nat) returns (cells: seq<nat>)
    requires |b| >= 4 * n
    ensures cells == DecodeCells(b, n)
  {
    cells := [];
    assert b[0..] == b;
    for i := 0 to n
      invariant |cells| == i && DecodeCells(b, n) == cells + DecodeCells(b[4 * i..], n - i)
    {
      assert b[4 * i..][..4] == b[4 * i..4 * i + 4];
      assert b[4 * i..][4..] == b[4 * (i + 1)..];
      cells := cells + [Be32(b[4 * i..4 * i + 4])];
    }
  }
}
