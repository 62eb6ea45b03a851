// The packed mux and pull fields of the BCM2712 pin controller
// (bcm2712-gpio/layout.c, bcm2712-gpio/hardware.c): where each pin's fields lie,
// and that writing one field of a 32-bit register leaves every other as it was.
module GpioFields {
  // ----- one register -----

  function Mask(m: bv32, s: bv32): bv32
    requires s < 32
  {
    m << s
  }

  function Down(x: bv32, s: bv32): bv32
    requires s < 32
  {
    x >> s
  }

  function And(x: bv32, y: bv32): bv32 {
    x & y
  }

  // BcmFieldRead and BcmFieldWrite on the value of the register.
  function Extract(w: bv32, m: bv32, s: bv32): bv32
    requires s < 32
  {
    (w >> s) & m
  }

  function Insert(w: bv32, v: bv32, m: bv32, s: bv32): bv32
    requires s < 32
  {
    (w & !(m << s)) | ((v & m) << s)
  }

  predicate Fits(m: bv32, s: bv32) {
    (m == 15 && s <= 28) || (m == 3 && s <= 30)
  }

  lemma ExtractMasked(x: bv32, m: bv32, t: bv32)
    requires t < 32 && (m << t) >> t == m
    ensures Extract(x, m, t) == Down(And(x, Mask(m, t)), t)
  {
  }

  lemma Inside15(v: bv32, s: bv32)
    requires s < 32
    ensures ((v & 15) << s) & (15 << s) == (v & 15) << s
  {
  }

  lemma Inside3(v: bv32, s: bv32)
    requires s < 32
    ensures ((v & 3) << s) & (3 << s) == (v & 3) << s
  {
  }

  lemma OutsideBits(w: bv32, a: bv32, b: bv32, m: bv32)
    requires a & m == 0 && b & a == b
    ensures ((w & !a) | b) & m == w & m
  {
  }

  lemma OutsideShifted(w: bv32, v: bv32, m: bv32, s: bv32, n: bv32, t: bv32)
    requires s < 32 && t < 32 && (m << s) & (n << t) == 0
    requires m == 15 || m == 3
    ensures Insert(w, v, m, s) & (n << t) == w & (n << t)
  {
    if m == 15 {
      Inside15(v, s);
      OutsideBits(w, 15 << s, (v & 15) << s, n << t);
    } else {
      Inside3(v, s);
      OutsideBits(w, 3 << s, (v & 3) << s, n << t);
    }
  }

  lemma Outside(w: bv32, v: bv32, m: bv32, s: bv32, n: bv32, t: bv32)
    requires s < 32 && t < 32 && And(Mask(m, s), Mask(n, t)) == 0
    requires m == 15 || m == 3
    ensures And(Insert(w, v, m, s), Mask(n, t)) == And(w, Mask(n, t))
  {
    hide Insert;
    OutsideShifted(w, v, m, s, n, t);
  }

  lemma NothingLost(m: bv32, t: bv32)
    requires Fits(m, t)
    ensures (m << t) >> t == m
  {
  }

  lemma Separate(m: bv32, s: bv32, n: bv32, t: bv32)
    requires Fits(m, s) && Fits(n, t)
    requires s + (if m == 15 then 4 else 2) <= t || t + (if n == 15 then 4 else 2) <= s
    ensures And(Mask(m, s), Mask(n, t)) == 0
  {
  }

  // A field reads back what was written to it ...
  lemma ReadsBack(w: bv32, v: bv32, m: bv32, s: bv32)
    requires Fits(m, s)
    ensures Extract(Insert(w, v, m, s), m, s) == v & m
  {
  }

  // ... and every field apart from it reads as before.
  lemma ReadsSame(w: bv32, v: bv32, m: bv32, s: bv32, n: bv32, t: bv32)
    requires Fits(m, s) && Fits(n, t)
    requires s + (if m == 15 then 4 else 2) <= t || t + (if n == 15 then 4 else 2) <= s
    ensures Extract(Insert(w, v, m, s), n, t) == Extract(w, n, t)
  {
    Separate(m, s, n, t);
    NothingLost(n, t);
    hide Insert, Extract, Mask, Down, And;
    Outside(w, v, m, s, n, t);
    ExtractMasked(Insert(w, v, m, s), n, t);
    ExtractMasked(w, n, t);
  }

  // ----- a field of the register file -----

  // A shift amount as a register value.
  function Amount(k: nat): (s: bv32)
    requires k < 32
    ensures s < 32
  {
    (k as bv5) as bv32
  }

  // A four-bit mux field, or a two-bit pull field, at a bit position.
  datatype Field = Field(position: nat, wide: bool)
  {
    function Width(): nat {
      if wide then 4 else 2
    }

    function Bits(): bv32 {
      if wide then 15 else 3
    }

    function Word(): nat {
      position / 32
    }

    function Shift(): (s: bv32)
      ensures s < 32
    {
      Amount(position % 32)
    }

    // Within one register of a file of n.
    predicate In(n: nat) {
      position / 32 < n && position % 32 + Width() <= 32
    }
  }

  predicate Disjoint(f: Field, g: Field) {
    f.position + f.Width() <= g.position || g.position + g.Width() <= f.position
  }

  function Read(words: seq<bv32>, f: Field): bv32
    requires f.In(|words|)
  {
    Extract(words[f.Word()], f.Bits(), f.Shift())
  }

  function Write(words: seq<bv32>, f: Field, value: bv32): seq<bv32>
    requires f.In(|words|)
  {
    words[f.Word() := Insert(words[f.Word()], value, f.Bits(), f.Shift())]
  }

  lemma FieldFits(f: Field)
    requires f.position % 32 + f.Width() <= 32
    ensures Fits(f.Bits(), f.Shift())
  {
    Small(f.position % 32);
  }

  lemma Small(a: nat)
    requires a < 32
    ensures a <= 28 ==> Amount(a) <= 28
    ensures a <= 30 ==> Amount(a) <= 30
  {
  }

  lemma ShiftsApart(a: nat, b: nat, w: nat)
    requires a < 32 && b < 32 && (w == 2 || w == 4) && a + w <= b
    ensures Amount(a) + (if w == 4 then 4 else 2) <= Amount(b)
  {
    if w == 4 {
      ApartByFour(a, b);
    } else {
      ApartByTwo(a, b);
    }
  }

  lemma ApartByFour(a: nat, b: nat)
    requires a + 4 <= b < 32
    ensures Amount(a) + 4 <= Amount(b)
  {
  }

  lemma ApartByTwo(a: nat, b: nat)
    requires a + 2 <= b < 32
    ensures Amount(a) + 2 <= Amount(b)
  {
  }

  lemma WriteReadsBack(words: seq<bv32>, f: Field, value: bv32)
    requires f.In(|words|) && value & f.Bits() == value
    ensures Read(Write(words, f, value), f) == value
  {
    FieldFits(f);
    ReadsBack(words[f.Word()], value, f.Bits(), f.Shift());
  }

  // Disjoint fields do not disturb each other.
  lemma WriteElsewhere(words: seq<bv32>, f: Field, value: bv32, g: Field)
    requires f.In(|words|) && g.In(|words|) && Disjoint(f, g)
    ensures Read(Write(words, f, value), g) == Read(words, g)
  {
    if f.Word() == g.Word() {
      FieldFits(f);
      FieldFits(g);
      var a, b := f.position % 32, g.position % 32;
      if f.position < g.position {
        ShiftsApart(a, b, f.Width());
      } else {
        ShiftsApart(b, a, g.Width());
      }
      ReadsSame(words[f.Word()], value, f.Bits(), f.Shift(), g.Bits(), g.Shift());
    }
  }

  // ----- where the fields are -----

  datatype PinFields = NoPin | Pin(mux: nat, pull: Pull)
  datatype Pull = NoPull | PullAt(position: nat)

  const MAIN: seq<nat> := [1, 2, 3, 4, 10, 11, 12, 13, 14, 15, 18, 19, 20, 21, 22, 23, 24, 25, 26, 27, 28, 29, 30, 31, 32, 33, 34, 35]
  const AON: seq<nat> := [0, 1, 2, 3, 4, 5, 6, 8, 9, 12, 13, 14]

  // The place of a pin in a table, or its length.
  function Place(table: seq<nat>, pin: nat): (i: nat)
    ensures i <= |table|
    ensures i < |table| ==> table[i] == pin
  {
    if table == [] then 0
    else if table[|table| - 1] == pin && Place(table[..|table| - 1], pin) == |table| - 1 then |table| - 1
    else if Place(table[..|table| - 1], pin) < |table| - 1 then Place(table[..|table| - 1], pin)
    else |table|
  }

  function PullPosition(first: nat, pull: nat): nat {
    (first + pull / 15) * 32 + pull % 15 * 2
  }

  // BcmPinFields for a revision of the chip, on the main or the always-on block.
  function FieldsOf(d0: bool, aon: bool, pin: nat): PinFields {
    if aon && 32 <= pin <= 37 then
      var i := pin - 32;
      Pin(if i < 4 then i * 4 else (i - 3) * 32, NoPull)
    else if !d0 then
      if (!aon && pin >= 54) || (aon && pin >= 17) then NoPin
      else Pin((if aon then 96 else 0) + pin * 4, PullAt(PullPosition(if aon then 6 else 7, pin + if aon then 10 else 7)))
    else
      var table := if aon then AON else MAIN;
      var i := Place(table, pin);
      if i == |table| then NoPin
      else Pin((if aon then 96 else 0) + i * 4, PullAt(PullPosition(if aon then 5 else 4, i + if aon then 9 else 5)))
  }

  // The registers of the pin controller that are mapped.
  function Registers(d0: bool, aon: bool): nat {
    if aon then (if d0 then 7 else 8) else (if d0 then 8 else 12)
  }

  predicate Has(d0: bool, aon: bool, f: Field, pin: nat) {
    var p := FieldsOf(d0, aon, pin);
    p.Pin? && (f == Field(p.mux, true) || (p.pull.PullAt? && f == Field(p.pull.position, false)))
  }

  // The first register that holds pull fields: the muxes come before it.
  function PullStart(d0: bool, aon: bool): nat {
    if aon then (if d0 then 5 else 6) else (if d0 then 4 else 7)
  }

  lemma PullPlace(first: nat, n: nat)
    ensures var p := PullPosition(first, n);
            p / 32 == first + n / 15 && p % 32 == n % 15 * 2 && p % 2 == 0 && p % 32 <= 28
  {
  }

  lemma MuxRange(d0: bool, aon: bool, pin: nat)
    requires FieldsOf(d0, aon, pin).Pin?
    ensures var m := FieldsOf(d0, aon, pin).mux; m % 4 == 0 && m + 4 <= 32 * PullStart(d0, aon)
  {
    hide PullPosition;
  }

  lemma PullRange(d0: bool, aon: bool, pin: nat)
    requires FieldsOf(d0, aon, pin).Pin? && FieldsOf(d0, aon, pin).pull.PullAt?
    ensures var p := FieldsOf(d0, aon, pin).pull.position;
            p % 2 == 0 && p % 32 <= 28 && 32 * PullStart(d0, aon) <= p < 32 * Registers(d0, aon)
  {
    hide PullPosition;
    if !d0 {
      PullPlace(if aon then 6 else 7, pin + if aon then 10 else 7);
    } else {
      PullPlace(if aon then 5 else 4, Place(if aon then AON else MAIN, pin) + if aon then 9 else 5);
    }
  }

  lemma MuxDistinct(d0: bool, aon: bool, p: nat, q: nat)
    requires FieldsOf(d0, aon, p).Pin? && FieldsOf(d0, aon, q).Pin? && p != q
    ensures FieldsOf(d0, aon, p).mux != FieldsOf(d0, aon, q).mux
  {
    hide PullPosition;
  }

  lemma PullDistinct(d0: bool, aon: bool, p: nat, q: nat)
    requires FieldsOf(d0, aon, p).Pin? && FieldsOf(d0, aon, p).pull.PullAt?
    requires FieldsOf(d0, aon, q).Pin? && FieldsOf(d0, aon, q).pull.PullAt? && p != q
    ensures FieldsOf(d0, aon, p).pull != FieldsOf(d0, aon, q).pull
  {
    hide PullPosition;
    var table := if aon then AON else MAIN;
    if d0 {
      PullDiffers(if aon then 5 else 4, Place(table, p) + (if aon then 9 else 5), Place(table, q) + if aon then 9 else 5);
    } else {
      PullDiffers(if aon then 6 else 7, p + (if aon then 10 else 7), q + if aon then 10 else 7);
    }
  }

  lemma PullDiffers(first: nat, m: nat, n: nat)
    requires m != n
    ensures PullPosition(first, m) != PullPosition(first, n)
  {
    PullPlace(first, m);
    PullPlace(first, n);
    Rows(m, n);
  }

  lemma Rows(m: nat, n: nat)
    requires m != n
    ensures m / 15 != n / 15 || m % 15 != n % 15
  {
  }

  // Every field lies within one mapped register.
  lemma FieldsMapped(d0: bool, aon: bool, pin: nat, f: Field)
    requires Has(d0, aon, f, pin)
    ensures f.In(Registers(d0, aon))
  {
    hide FieldsOf;
    MuxRange(d0, aon, pin);
    if !f.wide {
      PullRange(d0, aon, pin);
    } else {
      WordOfFour(f.position);
    }
  }

  lemma WordOfFour(p: nat)
    requires p % 4 == 0
    ensures p % 32 + 4 <= 32
  {
  }

  // No two fields overlap: neither those of two pins, nor a pin's own two.
  lemma FieldsDisjoint(d0: bool, aon: bool, p: nat, f: Field, q: nat, g: Field)
    requires Has(d0, aon, f, p) && Has(d0, aon, g, q) && (p != q || f != g)
    ensures Disjoint(f, g)
  {
    hide FieldsOf;
    MuxRange(d0, aon, p);
    MuxRange(d0, aon, q);
    if !f.wide {
      PullRange(d0, aon, p);
    }
    if !g.wide {
      PullRange(d0, aon, q);
    }
    if p != q && f.wide && g.wide {
      MuxDistinct(d0, aon, p, q);
    }
    if p != q && !f.wide && !g.wide {
      PullDistinct(d0, aon, p, q);
    }
  }
}
