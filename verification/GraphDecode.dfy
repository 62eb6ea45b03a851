// Evaluation results of ACPI methods as the hardware graph receives them
// (pi5-graph/graph.c): a header and a list of typed arguments.
module GraphDecode {
  import opened GraphTree

  const SIGNATURE: nat := 0x426f6541
  const ARGUMENTS: nat := 4

  // An argument: an integer (0), a text (1) or a buffer (2).
  datatype Argument = Argument(kind: nat, data: seq<Byte>)

  function Le16(b: seq<Byte>): (n: nat)
    requires |b| == 2
    ensures n < 65536
  {
    var low: nat, high: nat := b[0], b[1];
    low + 256 * high
  }

  function ToLe16(n: nat): (b: seq<Byte>)
    requires n < 65536
    ensures |b| == 2
  {
    [n % 256, n / 256]
  }

  function Le32(b: seq<Byte>): (n: nat)
    requires |b| == 4
    ensures n < WORD
  {
    Be32([b[3], b[2], b[1], b[0]])
  }

  function ToLe32(n: nat): (b: seq<Byte>)
    requires n < WORD
    ensures |b| == 4
  {
    var r := ToBe32(n);
    [r[3], r[2], r[1], r[0]]
  }

  lemma Le16Inverse(b: seq<Byte>, n: nat)
    requires |b| == 2 && n < 65536
    ensures ToLe16(Le16(b)) == b && Le16(ToLe16(n)) == n
  {
  }

  lemma Le32Inverse(b: seq<Byte>, n: nat)
    requires |b| == 4 && n < WORD
    ensures ToLe32(Le32(b)) == b && Le32(ToLe32(n)) == n
  {
    var reversed := [b[3], b[2], b[1], b[0]];
    ToBe32Inverse(reversed);
    Be32Inverse(n);
    var r := ToLe32(n);
    assert [r[3], r[2], r[1], r[0]] == ToBe32(n);
  }

  // ----- one argument -----

  predicate Proper(a: Argument) {
    && a.kind <= 2 && |a.data| < 65536
    && (a.kind == 0 ==> |a.data| == 4 || |a.data| == 8)
    && (a.kind == 1 ==> a.data != [] && a.data[|a.data| - 1] == 0 && Plain(a.data[..|a.data| - 1]))
  }

  function Width(length: nat): nat {
    if length < 4 then 4 else length
  }

  // Short data is followed by bytes that mean nothing.
  function EncodeOne(a: Argument, padding: seq<Byte>): (b: seq<Byte>)
    requires Proper(a) && |padding| == Width(|a.data|) - |a.data|
    ensures |b| == 4 + Width(|a.data|)
  {
    ToLe16(a.kind) + ToLe16(|a.data|) + a.data + padding
  }

  datatype First = Malformed | One(argument: Argument, size: nat)

  function DecodeOne(b: seq<Byte>): (f: First)
    ensures f.One? ==> 8 <= f.size <= |b| && Proper(f.argument) && f.size == 4 + Width(|f.argument.data|)
  {
    if |b| < 8 then Malformed
    else
      var kind, length := Le16(b[..2]), Le16(b[2..4]);
      if Width(length) > |b| - 4 then Malformed
      else
        var a := Argument(kind, b[4..4 + length]);
        if Proper(a) then One(a, 4 + Width(length)) else Malformed
  }

  lemma OneInverse(a: Argument, padding: seq<Byte>, tail: seq<Byte>)
    requires Proper(a) && |padding| == Width(|a.data|) - |a.data|
    ensures DecodeOne(EncodeOne(a, padding) + tail) == One(a, 4 + Width(|a.data|))
  {
    var b := EncodeOne(a, padding) + tail;
    Le16Inverse([0, 0], a.kind);
    Le16Inverse([0, 0], |a.data|);
    assert b[..2] == ToLe16(a.kind) && b[2..4] == ToLe16(|a.data|);
    assert b[4..4 + |a.data|] == a.data;
  }

  lemma OneEncoded(b: seq<Byte>)
    requires DecodeOne(b).One?
    ensures var f := DecodeOne(b);
            b[..f.size] == EncodeOne(f.argument, b[4 + |f.argument.data|..f.size])
  {
    var f := DecodeOne(b);
    Le16Inverse(b[..2], 0);
    Le16Inverse(b[2..4], 0);
    var a, padding := f.argument, b[4 + |f.argument.data|..f.size];
    assert b[..f.size] == b[..2] + b[2..4] + b[4..4 + |a.data|] + padding;
  }

  // ----- a whole result -----

  datatype Decoded = Invalid | Valid(arguments: seq<Argument>)

  function DecodeAll(b: seq<Byte>, count: nat): (d: Decoded)
    ensures d.Valid? ==> |d.arguments| == count && forall k :: 0 <= k < count ==> Proper(d.arguments[k])
    decreases count
  {
    if count == 0 then (if b == [] then Valid([]) else Invalid)
    else
      var f := DecodeOne(b);
      if f.Malformed? then Invalid
      else
        var rest := DecodeAll(b[f.size..], count - 1);
        if rest.Invalid? then Invalid else Valid([f.argument] + rest.arguments)
  }

  function Decode(b: seq<Byte>, count: nat): (d: Decoded)
    ensures d.Valid? ==> |d.arguments| == count && forall k :: 0 <= k < count ==> Proper(d.arguments[k])
  {
    if |b| < 12 || Le32(b[..4]) != SIGNATURE || Le32(b[4..8]) != |b| || Le32(b[8..12]) != count || count > ARGUMENTS then Invalid
    else DecodeAll(b[12..], count)
  }

  ghost predicate Padded(args: seq<Argument>, paddings: seq<seq<Byte>>) {
    && |paddings| == |args|
    && forall k :: 0 <= k < |args| ==> Proper(args[k]) && |paddings[k]| == Width(|args[k].data|) - |args[k].data|
  }

  ghost function EncodeAll(args: seq<Argument>, paddings: seq<seq<Byte>>): seq<Byte>
    requires Padded(args, paddings)
  {
    if args == [] then [] else EncodeOne(args[0], paddings[0]) + EncodeAll(args[1..], paddings[1..])
  }

  ghost function Encode(args: seq<Argument>, paddings: seq<seq<Byte>>): seq<Byte>
    requires Padded(args, paddings) && 12 + |EncodeAll(args, paddings)| < WORD && |args| <= ARGUMENTS
  {
    var body := EncodeAll(args, paddings);
    ToLe32(SIGNATURE) + ToLe32(12 + |body|) + ToLe32(|args|) + body
  }

  lemma {:induction false} AllInverse(args: seq<Argument>, paddings: seq<seq<Byte>>)
    requires Padded(args, paddings)
    ensures DecodeAll(EncodeAll(args, paddings), |args|) == Valid(args)
    decreases |args|
  {
    if args != [] {
      var b, tail := EncodeOne(args[0], paddings[0]), EncodeAll(args[1..], paddings[1..]);
      OneInverse(args[0], paddings[0], tail);
      assert (b + tail)[|b|..] == tail;
      AllInverse(args[1..], paddings[1..]);
    }
  }

  // Every list of proper arguments is read back, whatever fills the gaps ...
  lemma DecodeEncode(args: seq<Argument>, paddings: seq<seq<Byte>>)
    requires Padded(args, paddings) && 12 + |EncodeAll(args, paddings)| < WORD && |args| <= ARGUMENTS
    ensures Decode(Encode(args, paddings), |args|) == Valid(args)
  {
    hide EncodeAll, DecodeAll, Padded, Le32, ToLe32;
    var body := EncodeAll(args, paddings);
    var b := Encode(args, paddings);
    Le32Inverse([0, 0, 0, 0], SIGNATURE);
    Le32Inverse([0, 0, 0, 0], 12 + |body|);
    Le32Inverse([0, 0, 0, 0], |args|);
    assert b[..4] == ToLe32(SIGNATURE) && b[4..8] == ToLe32(12 + |body|) && b[8..12] == ToLe32(|args|) && b[12..] == body;
    AllInverse(args, paddings);
  }

  lemma {:induction false} AllEncoded(b: seq<Byte>, count: nat) returns (paddings: seq<seq<Byte>>)
    requires DecodeAll(b, count).Valid?
    ensures Padded(DecodeAll(b, count).arguments, paddings) && EncodeAll(DecodeAll(b, count).arguments, paddings) == b
    decreases count
  {
    paddings := [];
    if count > 0 {
      var f := DecodeOne(b);
      OneEncoded(b);
      var rest := AllEncoded(b[f.size..], count - 1);
      paddings := [b[4 + |f.argument.data|..f.size]] + rest;
      var args := DecodeAll(b, count).arguments;
      assert args[1..] == DecodeAll(b[f.size..], count - 1).arguments && paddings[1..] == rest;
      assert b == b[..f.size] + b[f.size..];
    }
  }

  // ... and nothing else is accepted.
  lemma EncodeDecode(b: seq<Byte>, count: nat) returns (paddings: seq<seq<Byte>>)
    requires |b| < WORD && Decode(b, count).Valid?
    ensures var args := Decode(b, count).arguments;
            && Padded(args, paddings) && 12 + |EncodeAll(args, paddings)| < WORD && |args| <= ARGUMENTS && Encode(args, paddings) == b
  {
    hide DecodeAll, EncodeAll, Padded, Le32, ToLe32;
    paddings := AllEncoded(b[12..], count);
    Le32Inverse(b[..4], 0);
    Le32Inverse(b[4..8], 0);
    Le32Inverse(b[8..12], 0);
    assert b == b[..4] + b[4..8] + b[8..12] + b[12..];
  }

  // ----- GraphDecode -----

  method GraphDecode(b: seq<Byte>, count: nat) returns (d: Decoded)
    ensures d == Decode(b, count)
  {
    hide DecodeOne, DecodeAll;
    if |b| < 12 || Le32(b[..4]) != SIGNATURE || Le32(b[4..8]) != |b| || Le32(b[8..12]) != count || count > ARGUMENTS {
      return Invalid;
    }
    var at: nat, arguments := 12, [];
    assert Prepend([], DecodeAll(b[12..], count)) == DecodeAll(b[12..], count) by {
      if DecodeAll(b[12..], count).Valid? {
        assert [] + DecodeAll(b[12..], count).arguments == DecodeAll(b[12..], count).arguments;
      }
    }
    for i := 0 to count
      invariant 12 <= at <= |b| && |arguments| == i
      invariant DecodeAll(b[12..], count) == Prepend(arguments, DecodeAll(b[at..], count - i))
    {
      DecodeStep(b[at..], count - i);
      var f := ReadOne(b, at);
      if f.Malformed? {
        return Invalid;
      }
      assert b[at..][f.size..] == b[at + f.size..];
      PrependSnoc(arguments, f.argument, DecodeAll(b[at + f.size..], count - i - 1));
      arguments := arguments + [f.argument];
      at := at + f.size;
    }
    DecodeStep(b[at..], 0);
    assert arguments + [] == arguments;
    d := if at == |b| then Valid(arguments) else Invalid;
  }

  lemma DecodeStep(b: seq<Byte>, count: nat)
    ensures count == 0 ==> DecodeAll(b, count) == if b == [] then Valid([]) else Invalid
    ensures count > 0 ==>
              var f := DecodeOne(b);
              if f.Malformed? then DecodeAll(b, count).Invalid?
              else DecodeAll(b, count) == Prepend([f.argument], DecodeAll(b[f.size..], count - 1))
  {
  }

  function Prepend(front: seq<Argument>, d: Decoded): Decoded {
    if d.Invalid? then Invalid else Valid(front + d.arguments)
  }

  lemma PrependSnoc(front: seq<Argument>, a: Argument, d: Decoded)
    ensures Prepend(front, Prepend([a], d)) == Prepend(front + [a], d)
  {
    if d.Valid? {
      assert front + ([a] + d.arguments) == front + [a] + d.arguments;
    }
  }

  method ReadOne(b: seq<Byte>, at: nat) returns (f: First)
    requires at <= |b|
    ensures f == DecodeOne(b[at..])
  {
    if |b| - at < 8 {
      return Malformed;
    }
    assert b[at..][..2] == b[at..at + 2] && b[at..][2..4] == b[at + 2..at + 4];
    var kind, length := Le16(b[at..at + 2]), Le16(b[at + 2..at + 4]);
    var width := if length < 4 then 4 else length;
    if width > |b| - at - 4 {
      return Malformed;
    }
    assert b[at..][4..4 + length] == b[at + 4..at + 4 + length];
    var data := b[at + 4..at + 4 + length];
    if kind > 2 || (kind == 0 && length != 4 && length != 8) {
      return Malformed;
    }
    if kind == 1 {
      if length == 0 || data[length - 1] != 0 {
        return Malformed;
      }
      for k := 0 to length - 1
        invariant forall j :: 0 <= j < k ==> data[j] != 0
      {
        if data[k] == 0 {
          assert !Plain(data[..length - 1]) by {
            assert data[..length - 1][k] == 0;
          }
          return Malformed;
        }
      }
    }
    f := One(Argument(kind, data), 4 + width);
  }

  // Integer: values that fit 32 bits.
  datatype Number = NoNumber | Number(value: nat)

  function Integer(a: Argument): (n: Number)
    requires Proper(a)
    ensures n.Number? ==> n.value < WORD
  {
    if a.kind != 0 || (|a.data| == 8 && Le32(a.data[4..8]) != 0) then NoNumber else Number(Le32(a.data[..4]))
  }

  // The characters of a text argument.
  function TextOf(a: Argument): (t: Text)
    requires Proper(a) && a.kind == 1
    ensures Plain(t)
  {
    a.data[..|a.data| - 1]
  }
}
