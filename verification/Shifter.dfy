/** The shift instructions as they run: closed forms for SHL and SHR, bit loops for the rest. */
module ShiftUnit {
  import opened Words
  import opened Alu
  import opened Shifts

  /** The overflow flag of a rotate, from its result and carry. */
  function RotateOverflow(op: Operation, w: Width, x: nat, carry: bool): bool {
    if op in {Rol, Rcl} then (x >= Top(w)) != carry else Second(w, x) != (x >= Top(w))
  }

  lemma TurnFlags(op: Operation, w: Width, v: nat, f: Flags)
    requires Fits(w, v) && op in {Rol, Ror, Rcl, Rcr}
    ensures var r := Single(op, w, v, f);
      r.flags == f.(af := false, cf := r.flags.cf, of := RotateOverflow(op, w, r.value, r.flags.cf))
  {
  }

  /** A rotate of one step or more settles af and of from the result, and leaves zf, sf and pf. */
  lemma {:induction false} RotateFlags(op: Operation, w: Width, v: nat, f: Flags, n: nat)
    requires Fits(w, v) && op in {Rol, Ror, Rcl, Rcr} && n > 0
    ensures var r := Repeated(op, w, v, f, n);
      r.flags == f.(af := false, cf := r.flags.cf, of := RotateOverflow(op, w, r.value, r.flags.cf))
  {
    if n > 1 {
      RotateFlags(op, w, v, f, n - 1);
    }
    var p := Repeated(op, w, v, f, n - 1);
    TurnFlags(op, w, p.value, p.flags);
  }

  /** A shift of one step or more sets zf, sf and pf from the result and clears af. */
  lemma {:induction false} ShiftFlags(op: Operation, w: Width, v: nat, f: Flags, n: nat)
    requires Fits(w, v) && op in {Shl, Shr, Sar} && n > 0
    ensures var r := Repeated(op, w, v, f, n);
      r.flags == Test(Flags(r.flags.cf, r.flags.of, false, false, false, false), w, r.value)
    ensures var r := Repeated(op, w, v, f, n);
      && (op == Shl ==> r.flags.of == ((r.value >= Top(w)) != r.flags.cf))
      && (op == Shr ==> r.flags.of == (n == 1 && v >= Top(w)))
      && (op == Sar ==> !r.flags.of)
  {
    if n > 1 {
      ShiftFlags(op, w, v, f, n - 1);
      if op == Shr {
        ShrMeans(w, v, f, n);
      }
    }
  }

  lemma ShlDone(w: Width, v: nat, f: Flags, n: nat)
    requires Fits(w, v) && n > 0
    ensures var s := 2 * Top(w);
      var x, carry := v * Pow2(n) % s, v * Pow2(n) / s % 2 == 1;
      Repeated(Shl, w, v, f, n) == Outcome(x, Test(f.(af := false, cf := carry, of := (x >= Top(w)) != carry), w, x))
  {
    ShlMeans(w, v, f, n);
    ShiftFlags(Shl, w, v, f, n);
  }

  lemma ShrDone(w: Width, v: nat, f: Flags, n: nat)
    requires Fits(w, v) && n > 1
    ensures Repeated(Shr, w, v, f, n) == Outcome(v / Pow2(n),
      Test(f.(af := false, of := false, cf := v / Pow2(n - 1) % 2 == 1), w, v / Pow2(n)))
  {
    ShrMeans(w, v, f, n);
    ShiftFlags(Shr, w, v, f, n);
  }

  class Shifter {
    var flags: Flags

    /** ROL, ROR, RCL, RCR, SHL, SHR, SAR by one. */
    method One(op: Operation, w: Width, val: nat) returns (x: nat)
      requires Fits(w, val)
      modifies this
      ensures Outcome(x, flags) == Single(op, w, val, old(flags))
    {
      if op in {Rol, Ror, Rcl, Rcr} {
        var carry;
        x, carry := Turn(op, w, val, flags.cf, flags);
        flags := flags.(af := false, cf := carry, of := RotateOverflow(op, w, x, carry));
      } else {
        x := ShiftOne(op, w, val);
      }
    }

    method ShiftOne(op: Operation, w: Width, val: nat) returns (x: nat)
      requires Fits(w, val) && op in {Shl, Shr, Sar}
      modifies this
      ensures Outcome(x, flags) == Single(op, w, val, old(flags))
    {
      var high, odd := val >= Top(w), val % 2 == 1;
      match op {
        case Shl =>
          x := Double(w, val);
          flags := flags.(af := false, cf := high, of := (x >= Top(w)) != high);
        case Shr =>
          x := val / 2;
          flags := flags.(af := false, cf := odd, of := high);
        case Sar =>
          x := Halve(w, val, flags);
          flags := flags.(af := false, cf := odd, of := false);
      }
      flags := Test(flags, w, x);
    }

    /** (val >> 1) | (val & top) */
    method Halve(w: Width, val: nat, ghost f: Flags) returns (x: nat)
      requires Fits(w, val)
      ensures x == Single(Sar, w, val, f).value
    {
      x := val / 2 + (if val >= Top(w) then Top(w) else 0);
    }

    method ByCount(op: Operation, w: Width, val: nat, count: byte) returns (x: nat)
      requires Fits(w, val)
      modifies this
      ensures Outcome(x, flags) == Counted(op, w, val, old(flags), count % 32)
    {
      var n := count % 32;
      if n == 0 {
        return val;
      }
      if n == 1 {
        assert Repeated(op, w, val, flags, 0) == Outcome(val, flags);
        x := One(op, w, val);
        return;
      }
      match op {
        case Rol | Ror | Rcl | Rcr => x := Rotate(op, w, val, n);
        case Shl => x := Left(w, val, n);
        case Shr => x := Right(w, val, n);
        case Sar => x := RightSigned(w, val, n);
      }
    }

    method Rotate(op: Operation, w: Width, val: nat, n: nat) returns (x: nat)
      requires Fits(w, val) && n > 0 && op in {Rol, Ror, Rcl, Rcr}
      modifies this
      ensures Outcome(x, flags) == Repeated(op, w, val, old(flags), n)
    {
      x := val;
      flags := flags.(af := false, of := false);
      var left, carry := n, flags.cf;
      while left > 0
        invariant left <= n && flags == old(flags).(af := false, of := false)
        invariant var r := Repeated(op, w, val, old(flags), n - left); x == r.value && carry == r.flags.cf
      {
        x, carry := Turn(op, w, x, carry, Repeated(op, w, val, old(flags), n - left).flags);
        left := left - 1;
      }
      flags := flags.(cf := carry, of := RotateOverflow(op, w, x, carry));
      RotateFlags(op, w, val, old(flags), n);
    }

    /** One turn of a rotate loop: the value and the carry only. */
    method Turn(op: Operation, w: Width, x: nat, carry: bool, ghost f: Flags) returns (y: nat, out: bool)
      requires Fits(w, x) && op in {Rol, Ror, Rcl, Rcr} && f.cf == carry
      ensures var r := Single(op, w, x, f); y == r.value && out == r.flags.cf
    {
      if op in {Rol, Rcl} {
        out := x >= Top(w);
        y := Double(w, x) + Bit(if op == Rol then out else carry);
      } else {
        out := x % 2 == 1;
        y := x / 2 + Bit(if op == Ror then out else carry) * Top(w);
      }
    }

    method Left(w: Width, val: nat, n: nat) returns (x: nat)
      requires Fits(w, val) && n > 0
      modifies this
      ensures Outcome(x, flags) == Repeated(Shl, w, val, old(flags), n)
    {
      var carry;
      if n > Bits(w) {
        x, carry := 0, false;
        ShiftedOutLeft(w, val, n);
      } else {
        carry := val / Pow2(Bits(w) - n) % 2 == 1;
        x := val * Pow2(n) % (2 * Top(w));
        LastBitOut(w, val, n);
      }
      ShlDone(w, val, flags, n);
      flags := Test(flags.(af := false, cf := carry, of := (x >= Top(w)) != carry), w, x);
    }

    method Right(w: Width, val: nat, n: nat) returns (x: nat)
      requires Fits(w, val) && n > 1
      modifies this
      ensures Outcome(x, flags) == Repeated(Shr, w, val, old(flags), n)
    {
      var carry;
      x, carry := ShiftOut(w, val, n);
      ShrDone(w, val, flags, n);
      flags := Test(flags.(af := false, of := false, cf := carry), w, x);
    }

    method ShiftOut(w: Width, val: nat, n: nat) returns (x: nat, carry: bool)
      requires Fits(w, val) && n > 0
      ensures x == val / Pow2(n) && carry == (val / Pow2(n - 1) % 2 == 1)
    {
      hide Pow2, Fits;
      if n > Bits(w) {
        x, carry := 0, false;
        ShiftedOutRight(w, val, n);
      } else {
        carry := val / Pow2(n - 1) % 2 == 1;
        x := val / Pow2(n);
      }
    }

    method HalveBy(w: Width, val: nat, n: nat, ghost f: Flags) returns (x: nat)
      requires Fits(w, val)
      ensures x == Repeated(Sar, w, val, f, n).value
    {
      x := val;
      var left := n;
      ghost var done: nat := 0;
      while left > 0
        invariant done + left == n && x == Repeated(Sar, w, val, f, done).value
      {
        x := Halve(w, x, Repeated(Sar, w, val, f, done).flags);
        left, done := left - 1, done + 1;
      }
    }

    method RightSigned(w: Width, val: nat, n: nat) returns (x: nat)
      requires Fits(w, val) && n > 1
      modifies this
      ensures Outcome(x, flags) == Counted(Sar, w, val, old(flags), n)
    {
      flags := flags.(af := false, of := false, cf := SarCarry(val, n));
      x := HalveBy(w, val, n, old(flags));
      ShiftFlags(Sar, w, val, old(flags), n);
      flags := Test(flags, w, x);
    }
  }
}
