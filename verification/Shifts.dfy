/** The shifts and rotates of the 16-bit core: one step, and by a count. */
module Shifts {
  import opened Words
  import opened Alu

  datatype Operation = Rol | Ror | Rcl | Rcr | Shl | Shr | Sar

  predicate Fits(w: Width, v: nat) {
    v < 2 * Top(w)
  }

  /** v << 1 within the width. */
  function Double(w: Width, v: nat): nat
    requires Fits(w, v)
  {
    if v >= Top(w) then 2 * v - 2 * Top(w) else 2 * v
  }

  function Second(w: Width, v: nat): bool {
    v % Top(w) >= Top(w) / 2
  }

  /** The single-step form. */
  function Single(op: Operation, w: Width, v: nat, f: Flags): (r: Outcome)
    requires Fits(w, v)
    ensures Fits(w, r.value)
  {
    var high, odd, top := v >= Top(w), v % 2 == 1, Top(w);
    var g := f.(af := false);
    match op
    case Rol =>
      var x := Double(w, v) + Bit(high);
      Outcome(x, g.(cf := high, of := (x >= top) != high))
    case Ror =>
      var x := v / 2 + Bit(odd) * top;
      Outcome(x, g.(cf := odd, of := Second(w, x) != (x >= top)))
    case Rcl =>
      var x := Double(w, v) + Bit(f.cf);
      Outcome(x, g.(cf := high, of := (x >= top) != high))
    case Rcr =>
      var x := v / 2 + Bit(f.cf) * top;
      Outcome(x, g.(cf := odd, of := Second(w, x) != (x >= top)))
    case Shl =>
      var x := Double(w, v);
      Outcome(x, Test(g.(cf := high, of := (x >= top) != high), w, x))
    case Shr =>
      Outcome(v / 2, Test(g.(cf := odd, of := high), w, v / 2))
    case Sar =>
      var x := v / 2 + Bit(high) * top;
      Outcome(x, Test(g.(cf := odd, of := false), w, x))
  }

  /** n single steps. */
  function Repeated(op: Operation, w: Width, v: nat, f: Flags, n: nat): (r: Outcome)
    requires Fits(w, v)
    ensures Fits(w, r.value)
  {
    if n == 0 then Outcome(v, f)
    else
      var r := Repeated(op, w, v, f, n - 1);
      Single(op, w, r.value, r.flags)
  }

  // ---- closed forms ----

  function Bits(w: Width): nat {
    if w == Byte then 8 else 16
  }

  /** The carry the counted SAR takes: from the low byte, sign-extended, whatever the width. */
  function SarCarry(v: nat, n: nat): bool
    requires n > 0
  {
    Signed(Byte, v % 0x100) / Pow2(n - 1) % 2 == 1
  }

  lemma {:induction false} PowSum(a: nat, b: nat)
    ensures Pow2(a + b) == Pow2(a) * Pow2(b)
  {
    if a > 0 {
      PowSum(a - 1, b);
    }
  }

  lemma WidthPower(w: Width)
    ensures Pow2(Bits(w)) == 2 * Top(w)
  {
    assert Pow2(8) == 0x100;
    PowSum(8, 8);
  }

  /** Where v * p stands in units of q * p. */
  lemma ScaledDivision(v: nat, p: nat, q: nat)
    requires p > 0 && q > 0
    ensures v * p / (q * p) == v / q
  {
    var d, m := v / q, v % q;
    assert v * p == d * (q * p) + m * p;
    assert 0 <= m * p < q * p;
    QuotientUnique(v * p, q * p, d, m * p);
  }

  /** Halving twice is dividing by the product. */
  lemma HalfStep(x: int, n: nat)
    ensures x / Pow2(n) / 2 == x / Pow2(n + 1)
  {
    var p := Pow2(n);
    var a, b := x / p, x % p;
    assert x == a / 2 * (2 * p) + (a % 2 * p + b);
    assert 0 <= a % 2 * p + b < 2 * p;
    QuotientUnique(x, 2 * p, a / 2, a % 2 * p + b);
  }

  lemma {:induction false} PowGrows(a: nat, b: nat)
    requires a <= b
    ensures Pow2(a) <= Pow2(b)
  {
    if a < b {
      PowGrows(a, b - 1);
    }
  }

  /** SHL by n multiplies by 2^n and drops what leaves the width; the carry is the last bit dropped. */
  lemma {:induction false} ShlMeans(w: Width, v: nat, f: Flags, n: nat)
    requires Fits(w, v)
    ensures var r := Repeated(Shl, w, v, f, n);
      r.value == v * Pow2(n) % (2 * Top(w)) && (n > 0 ==> r.flags.cf == (v * Pow2(n) / (2 * Top(w)) % 2 == 1))
  {
    if n > 0 {
      ShlMeans(w, v, f, n - 1);
      var r := Repeated(Shl, w, v, f, n - 1);
      ShlStep(w, Scaled(v, n - 1), r);
      TwiceScaled(v, n);
    } else {
      assert v * Pow2(n) == v;
    }
  }

  function Scaled(v: nat, n: nat): nat {
    v * Pow2(n)
  }

  lemma TwiceScaled(v: nat, n: nat)
    requires n > 0
    ensures v * Pow2(n) == 2 * (v * Pow2(n - 1))
  {
  }

  lemma ShlStep(w: Width, u: nat, r: Outcome)
    requires r.value == u % (2 * Top(w))
    ensures Fits(w, r.value)
    ensures Single(Shl, w, r.value, r.flags).value == 2 * u % (2 * Top(w))
    ensures Single(Shl, w, r.value, r.flags).flags.cf == (2 * u / (2 * Top(w)) % 2 == 1)
  {
    DoubleMod(w, u);
  }

  lemma DoubleMod(w: Width, u: nat)
    ensures var s := 2 * Top(w);
      Fits(w, u % s) && Double(w, u % s) == 2 * u % s && ((u % s >= Top(w)) == (2 * u / s % 2 == 1))
  {
    var s, q, m := 2 * Top(w), u / (2 * Top(w)), u % (2 * Top(w));
    assert 2 * u == 2 * q * s + 2 * m;
    if m >= Top(w) {
      QuotientUnique(2 * u, s, 2 * q + 1, 2 * m - s);
    } else {
      QuotientUnique(2 * u, s, 2 * q, 2 * m);
    }
  }

  /** SHR by n divides by 2^n; the carry is the last bit shifted out. */
  lemma {:induction false} ShrMeans(w: Width, v: nat, f: Flags, n: nat)
    requires Fits(w, v)
    ensures var r := Repeated(Shr, w, v, f, n);
      r.value == v / Pow2(n) && (n > 0 ==> r.flags.cf == (v / Pow2(n - 1) % 2 == 1)) && (n > 1 ==> !r.flags.of)
  {
    if n > 0 {
      ShrMeans(w, v, f, n - 1);
      HalfStep(v, n - 1);
      if n > 1 {
        ShrMeans(w, v, f, n - 2);
      }
    }
  }

  /** SAR by n is division by 2^n of the signed value, rounding down. */
  lemma {:induction false} SarMeans(w: Width, v: nat, f: Flags, n: nat)
    requires Fits(w, v)
    ensures var r := Repeated(Sar, w, v, f, n);
      Signed(w, r.value) == Signed(w, v) / Pow2(n) && (n > 0 ==> r.flags.cf == (Signed(w, v) / Pow2(n - 1) % 2 == 1))
  {
    if n > 0 {
      SarMeans(w, v, f, n - 1);
      var r := Repeated(Sar, w, v, f, n - 1);
      SarStep(w, r.value, r.flags);
      HalfStep(Signed(w, v), n - 1);
    }
  }

  lemma SarStep(w: Width, x: nat, f: Flags)
    requires Fits(w, x)
    ensures var r := Single(Sar, w, x, f);
      Signed(w, r.value) == Signed(w, x) / 2 && r.flags.cf == (Signed(w, x) % 2 == 1)
  {
  }

  lemma Regroup(a: int, b: int, c: int, bc: int)
    requires bc == b * c
    ensures a * bc == (a * b) * c
  {
  }

  /** Past the width everything is shifted out. */
  lemma ShiftedOutLeft(w: Width, v: nat, n: nat)
    requires n > Bits(w)
    ensures v * Pow2(n) % (2 * Top(w)) == 0 && v * Pow2(n) / (2 * Top(w)) % 2 == 0
  {
    WidthPower(w);
    PowSum(Bits(w), n - Bits(w));
    var s, q := 2 * Top(w), Pow2(n - Bits(w) - 1);
    Regroup(v, 2 * q, s, Pow2(n));
    Regroup(v, q, 2, 2 * q);
    QuotientUnique(v * Pow2(n), s, 2 * (v * q), 0);
  }

  lemma ShiftedOutRight(w: Width, v: nat, n: nat)
    requires Fits(w, v) && n > Bits(w)
    ensures v / Pow2(n) == 0 && v / Pow2(n - 1) == 0
  {
    WidthPower(w);
    PowGrows(Bits(w), n - 1);
    QuotientUnique(v, Pow2(n - 1), 0, v);
    QuotientUnique(v, Pow2(n), 0, v);
  }

  /** The bit the counted SHL tests is the last one out. */
  lemma LastBitOut(w: Width, v: nat, n: nat)
    requires Fits(w, v) && n <= Bits(w)
    ensures v / Pow2(Bits(w) - n) == v * Pow2(n) / (2 * Top(w))
  {
    WidthSplit(w, n);
    ScaledDivision(v, Pow2(n), Pow2(Bits(w) - n));
  }

  // ---- the counted form ----

  /** What the counted form computes after masking the count. */
  function Counted(op: Operation, w: Width, v: nat, f: Flags, n: nat): Outcome
    requires Fits(w, v)
  {
    var r := Repeated(op, w, v, f, n);
    if op == Sar && n > 1 then Outcome(r.value, r.flags.(cf := SarCarry(v, n))) else r
  }

  /** x and y agree in bit k when they agree modulo 2^(k+1). */
  lemma SameBit(x: int, y: int, k: nat, d: int)
    requires x - y == d * Pow2(k + 1)
    ensures x / Pow2(k) % 2 == y / Pow2(k) % 2
  {
    var p := Pow2(k);
    assert x == (y / p + 2 * d) * p + y % p;
    QuotientUnique(x, p, y / p + 2 * d, y % p);
  }

  lemma WidthSplit(w: Width, k: nat)
    requires k <= Bits(w)
    ensures Pow2(Bits(w) - k) * Pow2(k) == 2 * Top(w)
  {
    WidthPower(w);
    PowSum(Bits(w) - k, k);
  }

  /** Taking away the weight of the whole width does not touch a bit inside it. */
  lemma BitBelow(w: Width, v: int, k: nat, times: int)
    requires k < Bits(w)
    ensures (v + times * (2 * Top(w))) / Pow2(k) % 2 == v / Pow2(k) % 2
  {
    WidthSplit(w, k + 1);
    var p, q := Pow2(Bits(w) - k - 1), Pow2(k + 1);
    Regroup(times, p, q, 2 * Top(w));
    SameBit(v + times * (2 * Top(w)), v, k, times * p);
  }

  /** Bit k of a sign-extended value: its own bit below the width, the top bit above. */
  lemma SignedBit(w: Width, v: nat, k: nat)
    requires Fits(w, v)
    ensures Signed(w, v) / Pow2(k) % 2 == v / Pow2(Min(k, Bits(w) - 1)) % 2
  {
    if k < Bits(w) {
      BitBelow(w, v, k, if v >= Top(w) then -1 else 0);
    } else {
      SignAbove(w, v, k);
    }
  }

  lemma SignAbove(w: Width, v: nat, k: nat)
    requires Fits(w, v) && k >= Bits(w)
    ensures Signed(w, v) / Pow2(k) % 2 == v / Pow2(Bits(w) - 1) % 2
  {
    WidthPower(w);
    PowGrows(Bits(w), k);
    assert Pow2(Bits(w) - 1) == Top(w);
    var s := if v >= Top(w) then -1 else 0;
    QuotientUnique(Signed(w, v), Pow2(k), s, Signed(w, v) - s * Pow2(k));
  }

  /** When the counted 16-bit SAR has the carry of single steps. */
  predicate SarCarryRight(v: nat, n: nat)
    requires n > 0
  {
    n <= 8 || v / 0x80 % 2 == v / Pow2(Min(n - 1, 15)) % 2
  }

  lemma LowByteBit(v: nat, k: nat)
    requires k < 8
    ensures v % 0x100 / Pow2(k) % 2 == v / Pow2(k) % 2
  {
    BitBelow(Byte, v, k, -(v / 0x100));
    assert v == v / 0x100 * 0x100 + v % 0x100;
  }

  lemma SarCarryExact(w: Width, v: nat, f: Flags, n: nat)
    requires Fits(w, v) && n > 0
    ensures SarCarry(v, n) == Repeated(Sar, w, v, f, n).flags.cf <==> w == Byte || SarCarryRight(v, n)
  {
    SarMeans(w, v, f, n);
    SignedBit(w, v, n - 1);
    SignedBit(Byte, v % 0x100, n - 1);
    LowByteBit(v, Min(n - 1, 7));
    assert Pow2(7) == 0x80;
  }

  /** The counted form is the count-fold single step, in value and every flag, for all operations,
      both widths and all counts, except for the carry of a 16-bit SAR: there it is so if and only if
      the count is at most 8 or bit 7 happens to equal the bit that should leave. */
  lemma CountedIsRepeated(op: Operation, w: Width, v: nat, f: Flags, n: nat)
    requires Fits(w, v)
    ensures Counted(op, w, v, f, n) == Repeated(op, w, v, f, n)
       <==> op != Sar || w == Byte || n <= 1 || SarCarryRight(v, n)
  {
    if op == Sar && n > 1 {
      SarCarryExact(w, v, f, n);
    }
  }

  /** 0x0100 shifted right nine times drops a one, but the counted form leaves the carry clear. */
  lemma SarCarryWrong(v: nat, n: nat, f: Flags)
    requires v == 0x100 && n == 9
    ensures Counted(Sar, Word, v, f, n) != Repeated(Sar, Word, v, f, n)
  {
    assert Pow2(8) == 0x100;
    assert !SarCarryRight(v, n);
    CountedIsRepeated(Sar, Word, v, f, n);
  }

  // ---- rotates undo each other ----

  function Opposite(op: Operation): Operation
    requires op in {Rol, Ror, Rcl, Rcr}
  {
    match op case Rol => Ror case Ror => Rol case Rcl => Rcr case Rcr => Rcl
  }

  /** What a rotate turns around: the value, with the carry for the through-carry kinds. */
  predicate SameRing(op: Operation, a: Outcome, b: Outcome) {
    a.value == b.value && (op in {Rcl, Rcr} ==> a.flags.cf == b.flags.cf)
  }

  lemma SingleUndone(op: Operation, w: Width, v: nat, f: Flags, g: Flags)
    requires Fits(w, v) && op in {Rol, Ror, Rcl, Rcr}
    requires op in {Rcl, Rcr} ==> g.cf == Single(op, w, v, f).flags.cf
    ensures SameRing(op, Single(Opposite(op), w, Single(op, w, v, f).value, g), Outcome(v, f))
  {
  }

  /** The first of n steps taken apart. */
  lemma {:induction false} FirstStep(op: Operation, w: Width, v: nat, f: Flags, n: nat)
    requires Fits(w, v) && n > 0
    ensures var s := Single(op, w, v, f); Repeated(op, w, v, f, n) == Repeated(op, w, s.value, s.flags, n - 1)
  {
    if n > 1 {
      FirstStep(op, w, v, f, n - 1);
    }
  }

  lemma {:induction false} SameRingKept(op: Operation, w: Width, a: Outcome, b: Outcome, n: nat)
    requires op in {Rol, Ror, Rcl, Rcr} && Fits(w, a.value) && SameRing(op, a, b)
    ensures SameRing(op, Repeated(op, w, a.value, a.flags, n), Repeated(op, w, b.value, b.flags, n))
  {
    if n > 0 {
      SameRingKept(op, w, a, b, n - 1);
    }
  }

  /** Rotating by any count and back by the same count restores the value (and, through carry, the carry). */
  lemma {:induction false} RotateUndone(op: Operation, w: Width, v: nat, f: Flags, n: nat)
    requires Fits(w, v) && op in {Rol, Ror, Rcl, Rcr}
    ensures var r := Repeated(op, w, v, f, n);
      SameRing(op, Repeated(Opposite(op), w, r.value, r.flags, n), Outcome(v, f))
  {
    if n > 0 {
      var p := Repeated(op, w, v, f, n - 1);
      var r := Single(op, w, p.value, p.flags);
      FirstStep(Opposite(op), w, r.value, r.flags, n);
      var back := Single(Opposite(op), w, r.value, r.flags);
      SingleUndone(op, w, p.value, p.flags, r.flags);
      SameRingKept(Opposite(op), w, back, p, n - 1);
      RotateUndone(op, w, v, f, n - 1);
    }
  }
}
