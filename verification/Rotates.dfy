/** What the rotates compute, bit by bit: every bit moves by the count around a ring, which for the
    through-carry kinds has the carry flag as one more place above the top bit. */
module Rotates {
  import opened Words
  import opened Alu
  import opened Shifts

  /** Places on the ring. */
  function Ring(op: Operation, w: Width): (r: nat)
    ensures r > Bits(w) - 1 > 0
  {
    if op in {Rol, Ror} then Bits(w) else Bits(w) + 1
  }

  /** What stands at place k: a bit of the value, or the carry. */
  predicate At(w: Width, v: nat, carry: bool, k: nat) {
    if k < Bits(w) then Digit(v, k) else carry
  }

  /** The place that ends at place k after n steps. */
  function Source(op: Operation, w: Width, k: nat, n: nat): (s: nat)
    ensures s < Ring(op, w)
  {
    if op in {Rol, Rcl} then (k - n) % Ring(op, w) else (k + n) % Ring(op, w)
  }

  // ---- one step ----

  /** Doubling and adding a bit moves every digit up by one. */
  lemma ShiftedIn(v: nat, b: bool, k: nat)
    ensures Digit(2 * v + Bit(b), k) <==> if k == 0 then b else Digit(v, k - 1)
  {
    var x := 2 * v + Bit(b);
    if k == 0 {
      assert Pow2(0) == 1;
    } else {
      HalfFirst(x, k - 1);
      assert x / 2 == v;
    }
  }

  lemma LeftDigit(w: Width, v: nat, b: bool, k: nat)
    requires Fits(w, v) && k < Bits(w)
    ensures Digit(Double(w, v) + Bit(b), k) <==> if k == 0 then b else Digit(v, k - 1)
  {
    ShiftedIn(v, b, k);
    BitBelow(w, 2 * v + Bit(b), k, if v >= Top(w) then -1 else 0);
  }

  lemma TopDigit(w: Width, v: nat)
    requires Fits(w, v)
    ensures Digit(v, Bits(w) - 1) <==> v >= Top(w)
  {
    assert Pow2(Bits(w) - 1) == Top(w) by {
      WidthPower(w);
    }
    QuotientUnique(v, Top(w), if v >= Top(w) then 1 else 0, if v >= Top(w) then v - Top(w) else v);
  }

  lemma RightFits(w: Width, v: nat, b: bool)
    requires Fits(w, v)
    ensures Fits(w, v / 2 + Bit(b) * Top(w)) && (v / 2 + Bit(b) * Top(w) >= Top(w) <==> b)
  {
  }

  lemma RightDigit(w: Width, v: nat, b: bool, k: nat)
    requires Fits(w, v) && k < Bits(w)
    ensures Digit(v / 2 + Bit(b) * Top(w), k) <==> if k == Bits(w) - 1 then b else Digit(v, k + 1)
  {
    hide Pow2;
    RightFits(w, v, b);
    if k == Bits(w) - 1 {
      TopDigit(w, v / 2 + Bit(b) * Top(w));
    } else {
      LowDigit(w, v, Bit(b), k);
    }
  }

  lemma LowDigit(w: Width, v: nat, b: nat, k: nat)
    requires k + 1 < Bits(w)
    ensures Digit(v / 2 + b * Top(w), k) <==> Digit(v, k + 1)
  {
    HalfFirst(v, k);
    TopSplit(w, k + 1);
    var q := Pow2(Bits(w) - 1 - (k + 1));
    Regroup(b, q, Pow2(k + 1), Top(w));
    hide Pow2, Top;
    SameBit(v / 2 + b * Top(w), v / 2, k, b * q);
  }

  lemma TopSplit(w: Width, k: nat)
    requires k < Bits(w)
    ensures Pow2(Bits(w) - 1 - k) * Pow2(k) == Top(w)
  {
    WidthPower(w);
    PowSum(Bits(w) - 1 - k, k);
  }

  lemma SingleForm(op: Operation, w: Width, v: nat, f: Flags)
    requires Fits(w, v) && op in {Rol, Ror, Rcl, Rcr}
    ensures var r := Single(op, w, v, f);
      if op in {Rol, Rcl} then
        r.flags.cf == (v >= Top(w)) && r.value == Double(w, v) + Bit(if op == Rol then r.flags.cf else f.cf)
      else
        r.flags.cf == (v % 2 == 1) && r.value == v / 2 + Bit(if op == Ror then r.flags.cf else f.cf) * Top(w)
  {
  }

  lemma SourceOne(op: Operation, w: Width, k: nat)
    requires k < Ring(op, w)
    ensures Source(op, w, k, 1)
         == if op in {Rol, Rcl} then (if k == 0 then Ring(op, w) - 1 else k - 1) else if k == Ring(op, w) - 1 then 0 else k + 1
  {
  }

  /** One step turns the ring by one place. */
  lemma TurnedOnce(op: Operation, w: Width, v: nat, f: Flags, k: nat)
    requires Fits(w, v) && op in {Rol, Ror, Rcl, Rcr} && k < Ring(op, w)
    ensures var r := Single(op, w, v, f);
      At(w, r.value, r.flags.cf, k) == At(w, v, f.cf, Source(op, w, k, 1))
  {
    var high, odd := v >= Top(w), v % 2 == 1;
    SingleForm(op, w, v, f);
    SourceOne(op, w, k);
    TopDigit(w, v);
    LowestDigit(v);
    hide Single, Source, Digit, Double;
    if k < Bits(w) {
      if op in {Rol, Rcl} {
        LeftDigit(w, v, if op == Rol then high else f.cf, k);
      } else {
        RightDigit(w, v, if op == Ror then odd else f.cf, k);
      }
    }
  }

  lemma LowestDigit(v: nat)
    ensures Digit(v, 0) <==> v % 2 == 1
  {
    assert Pow2(0) == 1;
  }

  // ---- any count ----

  lemma SourceStep(op: Operation, w: Width, k: nat, n: nat)
    requires n > 0
    ensures Source(op, w, Source(op, w, k, 1), n - 1) == Source(op, w, k, n)
  {
    if op in {Rol, Rcl} {
      Folded(k - 1, 1 - n, Ring(op, w));
    } else {
      Folded(k + 1, n - 1, Ring(op, w));
    }
  }

  lemma Folded(x: int, y: int, r: nat)
    requires r > 0
    ensures (x % r + y) % r == (x + y) % r
  {
    var q, z := x / r, x % r + y;
    assert x + y == z + q * r;
    TimesPlus(z / r, q, r);
    QuotientUnique(x + y, r, z / r + q, z % r);
  }

  lemma TimesPlus(a: int, b: int, r: nat)
    ensures (a + b) * r == a * r + b * r
  {
  }

  /** After n steps place k of the ring holds what stood n places before it (ROL, RCL) or after it
      (ROR, RCR), for both widths and any count. */
  lemma {:induction false} RotateMeans(op: Operation, w: Width, v: nat, f: Flags, n: nat, k: nat)
    requires Fits(w, v) && op in {Rol, Ror, Rcl, Rcr} && k < Ring(op, w)
    ensures var r := Repeated(op, w, v, f, n);
      At(w, r.value, r.flags.cf, k) == At(w, v, f.cf, Source(op, w, k, n))
    decreases n
  {
    if n > 0 {
      hide Single, Source, At;
      var r := Repeated(op, w, v, f, n - 1);
      TurnedOnce(op, w, r.value, r.flags, k);
      SourceStep(op, w, k, n);
      RotateMeans(op, w, v, f, n - 1, Source(op, w, k, 1));
    }
  }

  /** The flags of a rotate: CF is the bit that went around last, OF compares the sign with it (left)
      or the two top bits (right). */
  lemma RotateFlagsMean(op: Operation, w: Width, v: nat, f: Flags, n: nat)
    requires Fits(w, v) && op in {Rol, Ror, Rcl, Rcr} && n > 0
    ensures var r := Repeated(op, w, v, f, n);
      var top := Bits(w) - 1;
      && (op == Rol ==> r.flags.cf == Digit(r.value, 0))
      && (op == Ror ==> r.flags.cf == Digit(r.value, top))
      && (op in {Rol, Rcl} ==> r.flags.of == (Digit(r.value, top) != r.flags.cf))
      && (op in {Ror, Rcr} ==> r.flags.of == (Digit(r.value, top) != Digit(r.value, top - 1)))
  {
    var p := Repeated(op, w, v, f, n - 1);
    var r := Single(op, w, p.value, p.flags);
    TopDigit(w, r.value);
    SecondDigit(w, r.value);
    SingleForm(op, w, p.value, p.flags);
    if op == Rol {
      LeftDigit(w, p.value, r.flags.cf, 0);
    } else if op == Ror {
      RightDigit(w, p.value, r.flags.cf, Bits(w) - 1);
    }
  }

  lemma SecondDigit(w: Width, v: nat)
    requires Fits(w, v)
    ensures Digit(v, Bits(w) - 2) <==> Second(w, v)
  {
    HalfTop(w);
    hide Pow2;
    var h, b := Top(w) / 2, Bit(Second(w, v));
    QuotientUnique(v, h, 2 * (v / Top(w)) + b, v % Top(w) - b * h);
  }

  lemma HalfTop(w: Width)
    ensures Pow2(Bits(w) - 2) == Top(w) / 2
  {
    TopSplit(w, 1);
    assert Pow2(1) == 2;
  }

  // ---- the flags that test a result ----

  /** How many of the n lowest bits are set. */
  function DigitSum(v: nat, n: nat): nat {
    if n == 0 then 0 else DigitSum(v, n - 1) + Bit(Digit(v, n - 1))
  }

  lemma {:induction false} SumFromBelow(v: nat, n: nat)
    ensures DigitSum(v, n + 1) == v % 2 + DigitSum(v / 2, n)
  {
    if n == 0 {
      LowestDigit(v);
    } else {
      SumFromBelow(v, n - 1);
      HalfFirst(v, n - 1);
    }
  }

  lemma {:induction false} OnesAreDigits(x: nat, n: nat)
    requires x < Pow2(n)
    ensures Ones(x) == DigitSum(x, n)
  {
    if n > 0 {
      OnesAreDigits(x / 2, n - 1);
      SumFromBelow(x, n - 1);
    }
  }

  lemma {:induction false} SumOfLowByte(v: nat, n: nat)
    requires n <= 8
    ensures DigitSum(v % 0x100, n) == DigitSum(v, n)
  {
    if n > 0 {
      SumOfLowByte(v, n - 1);
      LowByteBit(v, n - 1);
    }
  }

  /** The parity flag says that an even number of the eight low bits are set, the sign flag that the
      value is negative; carry, overflow and half carry stay. */
  lemma TestMeans(f: Flags, w: Width, v: nat)
    requires Fits(w, v)
    ensures var t := Test(f, w, v);
      && (t.pf <==> DigitSum(v, 8) % 2 == 0) && (t.sf <==> Signed(w, v) < 0) && (t.zf <==> v == 0)
      && t.cf == f.cf && t.of == f.of && t.af == f.af
  {
    assert Pow2(8) == 0x100;
    OnesAreDigits(v % 0x100, 8);
    SumOfLowByte(v, 8);
  }
}
