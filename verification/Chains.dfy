/** Multi-word carry chains: ADC and SBB on words, SBB then DAS on packed decimal bytes. */
module Chains {
  import opened Words
  import opened Alu

  const BASE := 0x1_0000

  // ---- what one instruction means ----

  function Carry(c: bool, weight: int): int {
    if c then weight else 0
  }

  /** d + s + carry: carry out, signed overflow, and carry out of the low four bits. */
  function Adc(d: word, s: word, f: Flags): Outcome {
    var c := Carry(f.cf, 1);
    var out := d + s + c >= BASE;
    var x := d + s + c - Carry(out, BASE);
    Outcome(x, Test(Flags(out, !(-0x8000 <= Signed(Word, d) + Signed(Word, s) + c < 0x8000),
                          d % 16 + s % 16 + c >= 16, false, false, false), Word, x))
  }

  /** d - s - borrow, at either width. */
  function Sbb(w: Width, d: nat, s: nat, f: Flags): Outcome
    requires d < 2 * Top(w) && s < 2 * Top(w)
  {
    var c, top := Carry(f.cf, 1), Top(w);
    var out := d < s + c;
    var x := d - s - c + Carry(out, 2 * top);
    Outcome(x, Test(Flags(out, !(-top <= Signed(w, d) - Signed(w, s) - c < top),
                          d % 16 < s % 16 + c, false, false, false), w, x))
  }

  /** Decimal adjust of AL after a subtraction. */
  function Das(al: byte, f: Flags): Outcome {
    var low := f.af || al % 16 > 9;
    var high := f.cf || al > 0x99;
    var t := al - Carry(low, 6) - Carry(high, 0x60);
    var x := t + Carry(t < 0, 0x100);
    Outcome(x, Test(f.(af := low, cf := high || (low && al < 6)), Byte, x))
  }

  /** The low byte of a difference of bytes. */
  function Low8(x: int): (r: byte)
    requires -0x100 <= x < 0x100
    ensures r == x + Carry(x < 0, 0x100)
  {
    x % 0x100
  }

  /** Bit of weight p in x. */
  predicate BitAt(x: nat, p: int)
    requires p > 0
  {
    x / p % 2 == 1
  }

  // ---- the instructions, with the flags from exclusive-ors of bits ----

  class Adder {
    var flags: Flags

    method AdcWord(dest: word, src: word) returns (x: word)
      modifies this
      ensures Outcome(x, flags) == Adc(dest, src, old(flags))
    {
      var tmp: nat := dest + src + Carry(flags.cf, 1);
      var of := BitAt(tmp, 0x8000) != BitAt(src, 0x8000) && BitAt(tmp, 0x8000) != BitAt(dest, 0x8000);
      var af := (BitAt(tmp, 0x10) != BitAt(src, 0x10)) != BitAt(dest, 0x10);
      AdcOverflow(dest, src, flags.cf);
      SumCarry(dest, src, flags.cf);
      x := tmp % BASE;
      flags := Test(flags.(cf := tmp / BASE == 1, of := of, af := af), Word, x);
    }

    method SbbWord(dest: word, src: word) returns (x: word)
      modifies this
      ensures Outcome(x, flags) == Sbb(Word, dest, src, old(flags))
    {
      var tmp: nat := (dest - src - Carry(flags.cf, 1)) % 0x1_0000_0000;
      SbbBits(Word, dest, src, flags.cf, tmp);
      SbbHalf(dest, src, flags.cf, tmp);
      SbbValue(Word, dest, src, flags.cf, tmp);
      var of := BitAt(dest, 0x8000) != BitAt(src, 0x8000) && BitAt(dest, 0x8000) != BitAt(tmp, 0x8000);
      var af := (BitAt(tmp, 0x10) != BitAt(src, 0x10)) != BitAt(dest, 0x10);
      x := tmp % BASE;
      flags := Test(flags.(cf := BitAt(tmp, BASE), of := of, af := af), Word, x);
    }

    method SbbByte(dest: byte, src: byte) returns (x: byte)
      modifies this
      ensures Outcome(x, flags) == Sbb(Byte, dest, src, old(flags))
    {
      var tmp: nat := (dest - src - Carry(flags.cf, 1)) % 0x1_0000_0000;
      SbbBits(Byte, dest, src, flags.cf, tmp);
      SbbHalf(dest, src, flags.cf, tmp);
      SbbValue(Byte, dest, src, flags.cf, tmp);
      var of := BitAt(dest, 0x80) != BitAt(src, 0x80) && BitAt(dest, 0x80) != BitAt(tmp, 0x80);
      var af := (BitAt(tmp, 0x10) != BitAt(src, 0x10)) != BitAt(dest, 0x10);
      x := tmp % 0x100;
      flags := Test(flags.(cf := BitAt(tmp, 0x100), of := of, af := af), Byte, x);
    }

    method DasAl(al: byte) returns (x: byte)
      modifies this
      ensures Outcome(x, flags) == Das(al, old(flags))
    {
      var carry, half;
      x, carry, half := Adjust(al, flags.cf, flags.af);
      flags := Test(flags.(cf := carry, af := half), Byte, x);
    }

    method Adjust(al: byte, carried: bool, half: bool) returns (x: byte, carry: bool, low: bool)
      ensures low <==> half || al % 16 > 9
      ensures carry <==> carried || al > 0x99 || (low && al < 6)
      ensures var t := al - Carry(low, 6) - Carry(carried || al > 0x99, 0x60); x == t + Carry(t < 0, 0x100)
    {
      x, carry := al, false;
      if half || al % 16 > 9 {
        x := Low8(x - 6);
        carry := carried || al < 6;
        low := true;
      } else {
        low := false;
      }
      if carried || al > 0x99 {
        x := Low8(x - 0x60);
        carry := true;
      }
    }
  }

  const NO_FLAGS := Flags(false, false, false, false, false, false)

  /** CMP, whose byte form works on a 16-bit difference: the flags of a subtraction without borrow. */
  method Compare(w: Width, dest: nat, src: nat) returns (f: Flags)
    requires dest < 2 * Top(w) && src < 2 * Top(w)
    ensures f == Sbb(w, dest, src, NO_FLAGS).flags
  {
    var wide: nat := (dest - src) % 0x1_0000_0000;
    SbbBits(w, dest, src, false, wide);
    SbbHalf(dest, src, false, wide);
    SbbValue(w, dest, src, false, wide);
    Truncated(wide);
    var tmp: nat := if w == Byte then wide % BASE else wide;
    var of := BitAt(dest, Top(w)) != BitAt(src, Top(w)) && BitAt(dest, Top(w)) != BitAt(tmp, Top(w));
    var af := (BitAt(tmp, 0x10) != BitAt(src, 0x10)) != BitAt(dest, 0x10);
    f := Test(Flags(BitAt(tmp, 2 * Top(w)), of, af, false, false, false), w, tmp % (2 * Top(w)));
  }

  /** The low half keeps the bits a byte comparison tests. */
  lemma Truncated(x: nat)
    ensures BitAt(x % BASE, 0x10) == BitAt(x, 0x10) && BitAt(x % BASE, 0x80) == BitAt(x, 0x80)
    ensures BitAt(x % BASE, 0x100) == BitAt(x, 0x100) && x % BASE % 0x100 == x % 0x100
  {
    hide BitAt;
    LowHalfBit(x, 0x1000, 0x10);
    LowHalfBit(x, 0x200, 0x80);
    LowHalfBit(x, 0x100, 0x100);
    QuotientUnique(x, 0x100, x / BASE * 0x100 + x % BASE / 0x100, x % BASE % 0x100);
  }

  lemma LowHalfBit(x: nat, q: int, p: int)
    requires p > 0 && q % 2 == 0 && q * p == BASE
    ensures BitAt(x % BASE, p) == BitAt(x, p)
  {
    HighPart(x % BASE, x / BASE, q, p);
  }

  lemma AdcOverflow(d: word, s: word, c: bool)
    ensures var tmp := d + s + Carry(c, 1);
      (BitAt(tmp, 0x8000) != BitAt(s, 0x8000) && BitAt(tmp, 0x8000) != BitAt(d, 0x8000))
      <==> !(-0x8000 <= Signed(Word, d) + Signed(Word, s) + Carry(c, 1) < 0x8000)
  {
  }

  /** The exclusive-or of bit 4 of both operands and the result is the carry out of the low four bits. */
  lemma SumCarry(d: nat, s: nat, c: bool)
    ensures var tmp := d + s + Carry(c, 1);
      (BitAt(tmp, 0x10) != BitAt(s, 0x10)) != BitAt(d, 0x10) <==> d % 16 + s % 16 + Carry(c, 1) >= 16
  {
    var low := d % 16 + s % 16 + Carry(c, 1);
    var out := if low >= 16 then 1 else 0;
    QuotientUnique(d + s + Carry(c, 1), 16, d / 16 + s / 16 + out, low - 16 * out);
  }

  lemma DifferenceBorrow(d: nat, s: nat, c: bool)
    ensures var x := d - s - Carry(c, 1);
      (x / 16 % 2 + s / 16 % 2 + d / 16 % 2) % 2 == 1 <==> d % 16 < s % 16 + Carry(c, 1)
  {
    var low := d % 16 - s % 16 - Carry(c, 1);
    assert (d - s - Carry(c, 1)) / 16 == d / 16 - s / 16 + low / 16;
  }

  /** Splitting off a multiple of p. */
  lemma HighPart(x: int, h: int, q: int, p: int)
    requires p > 0 && q % 2 == 0
    ensures (x + h * (q * p)) / p % 2 == x / p % 2
  {
    assert x + h * (q * p) == (x / p + h * q) * p + x % p;
    QuotientUnique(x + h * (q * p), p, x / p + h * q, x % p);
    assert h * q == 2 * (h * (q / 2));
  }

  /** A bit test on the 32-bit difference is one on the exact difference. */
  lemma WrappedBit(x: int, p: int)
    requires p in {0x10, 0x80, 0x100, 0x8000, BASE}
    ensures x % 0x1_0000_0000 / p % 2 == x / p % 2
  {
    var y, h := x % 0x1_0000_0000, x / 0x1_0000_0000;
    assert x == y + h * 0x1_0000_0000;
    HighPart(y, h, 0x1000_0000, 0x10);
    HighPart(y, h, 0x200_0000, 0x80);
    HighPart(y, h, 0x100_0000, 0x100);
    HighPart(y, h, 0x2_0000, 0x8000);
    HighPart(y, h, 0x1_0000, BASE);
  }

  /** The code's 32-bit difference gives the borrow and the overflow of the exact one. */
  lemma SbbBits(w: Width, d: nat, s: nat, c: bool, tmp: nat)
    requires d < 2 * Top(w) && s < 2 * Top(w) && tmp == (d - s - Carry(c, 1)) % 0x1_0000_0000
    ensures BitAt(tmp, 2 * Top(w)) <==> d < s + Carry(c, 1)
    ensures (BitAt(d, Top(w)) != BitAt(s, Top(w)) && BitAt(d, Top(w)) != BitAt(tmp, Top(w)))
       <==> !(-Top(w) <= Signed(w, d) - Signed(w, s) - Carry(c, 1) < Top(w))
  {
    var x := d - s - Carry(c, 1);
    WrappedBit(x, Top(w));
    WrappedBit(x, 2 * Top(w));
    BorrowBit(x, 2 * Top(w));
    SignBit(w, d);
    SignBit(w, s);
    DifferenceSign(w, x);
  }

  lemma BorrowBit(x: int, p: int)
    requires -p <= x < p
    ensures x / p % 2 == Carry(x < 0, 1)
  {
    QuotientUnique(x, p, -Carry(x < 0, 1), x + Carry(x < 0, p));
  }

  lemma SignBit(w: Width, d: nat)
    requires d < 2 * Top(w)
    ensures BitAt(d, Top(w)) <==> d >= Top(w)
  {
    QuotientUnique(d, Top(w), Carry(d >= Top(w), 1), d - Carry(d >= Top(w), Top(w)));
  }

  lemma DifferenceSign(w: Width, x: int)
    requires -2 * Top(w) <= x < 2 * Top(w)
    ensures x / Top(w) % 2 == 1 <==> x >= Top(w) || -Top(w) <= x < 0
  {
    var t := Top(w);
    var q := if x >= t then 1 else if x >= 0 then 0 else if x >= -t then -1 else -2;
    QuotientUnique(x, t, q, x - q * t);
  }

  lemma SbbHalf(d: nat, s: nat, c: bool, tmp: nat)
    requires tmp == (d - s - Carry(c, 1)) % 0x1_0000_0000
    ensures (BitAt(tmp, 0x10) != BitAt(s, 0x10)) != BitAt(d, 0x10) <==> d % 16 < s % 16 + Carry(c, 1)
  {
    WrappedBit(d - s - Carry(c, 1), 0x10);
    DifferenceBorrow(d, s, c);
  }

  lemma SbbValue(w: Width, d: nat, s: nat, c: bool, tmp: nat)
    requires d < 2 * Top(w) && s < 2 * Top(w) && tmp == (d - s - Carry(c, 1)) % 0x1_0000_0000
    ensures tmp % (2 * Top(w)) == d - s - Carry(c, 1) + Carry(d < s + Carry(c, 1), 2 * Top(w))
  {
  }

  // ---- chains of any length, low end first ----

  function Value(s: seq<word>): nat {
    if s == [] then 0 else (var low: nat := s[0]; low + BASE * Value(s[1..]))
  }

  function Power(n: nat): (p: int)
    ensures p > 0
  {
    if n == 0 then 1 else BASE * Power(n - 1)
  }

  /** The words as one two's-complement integer. */
  function SignedValue(s: seq<word>): int
    requires s != []
  {
    if |s| == 1 then Signed(Word, s[0]) else (var low: int := s[0]; low + BASE * SignedValue(s[1..]))
  }

  datatype Chain = Chain(words: seq<word>, flags: Flags)

  function AdcChain(a: seq<word>, b: seq<word>, f: Flags): (r: Chain)
    requires |a| == |b|
    ensures |r.words| == |a|
    decreases |a|
  {
    if a == [] then Chain([], f) else
      var low := Adc(a[0], b[0], f);
      var rest := AdcChain(a[1..], b[1..], low.flags);
      Chain([low.value] + rest.words, rest.flags)
  }

  function SbbChain(a: seq<word>, b: seq<word>, f: Flags): (r: Chain)
    requires |a| == |b|
    ensures |r.words| == |a|
    decreases |a|
  {
    if a == [] then Chain([], f) else
      var low := Sbb(Word, a[0], b[0], f);
      var rest := SbbChain(a[1..], b[1..], low.flags);
      Chain([low.value] + rest.words, rest.flags)
  }

  lemma ConsValue(x: word, rest: seq<word>)
    ensures Value([x] + rest) == x + BASE * Value(rest)
    ensures rest != [] ==> SignedValue([x] + rest) == x + BASE * SignedValue(rest)
  {
    assert ([x] + rest)[1..] == rest;
  }

  /** A chain of ADC adds the whole numbers: nothing is lost but the final carry. */
  lemma {:induction false} AdcChainSum(a: seq<word>, b: seq<word>, f: Flags)
    requires |a| == |b|
    ensures var r := AdcChain(a, b, f);
      Value(r.words) + Carry(r.flags.cf, Power(|a|)) == Value(a) + Value(b) + Carry(f.cf, 1)
    decreases |a|
  {
    if a != [] {
      var low := Adc(a[0], b[0], f);
      var rest := AdcChain(a[1..], b[1..], low.flags);
      AdcChainSum(a[1..], b[1..], low.flags);
      ConsValue(low.value, rest.words);
    }
  }

  /** A chain of SBB subtracts the whole numbers, modulo 2^(16n) with the final carry as the borrow. */
  lemma {:induction false} SbbChainDifference(a: seq<word>, b: seq<word>, f: Flags)
    requires |a| == |b|
    ensures var r := SbbChain(a, b, f);
      Value(r.words) == Value(a) - Value(b) - Carry(f.cf, 1) + Carry(r.flags.cf, Power(|a|))
    decreases |a|
  {
    if a != [] {
      var low := Sbb(Word, a[0], b[0], f);
      var rest := SbbChain(a[1..], b[1..], low.flags);
      SbbChainDifference(a[1..], b[1..], low.flags);
      ConsValue(low.value, rest.words);
    }
  }

  lemma {:induction false} ValueRange(s: seq<word>)
    ensures Value(s) < Power(|s|)
  {
    if s != [] {
      ValueRange(s[1..]);
    }
  }

  /** So the final carry of a subtraction is the unsigned comparison of the whole numbers. */
  lemma SbbChainCompares(a: seq<word>, b: seq<word>, f: Flags)
    requires |a| == |b|
    ensures SbbChain(a, b, f).flags.cf <==> Value(a) < Value(b) + Carry(f.cf, 1)
  {
    SbbChainDifference(a, b, f);
    ValueRange(SbbChain(a, b, f).words);
    ValueRange(a);
    ValueRange(b);
  }

  /** What a flag pair says of an exact signed result d in n words. */
  predicate SignsTell(f: Flags, d: int, n: nat) {
    && (f.of <==> !(-Power(n) <= 2 * d < Power(n)))
    && (f.sf != f.of <==> d < 0)
  }

  lemma OneWord(w: word, v: word, f: Flags)
    ensures SignsTell(Adc(w, v, f).flags, Signed(Word, w) + Signed(Word, v) + Carry(f.cf, 1), 1)
    ensures SignsTell(Sbb(Word, w, v, f).flags, Signed(Word, w) - Signed(Word, v) - Carry(f.cf, 1), 1)
  {
    assert Power(1) == BASE;
  }

  lemma MoreWords(f: Flags, high: int, low: word, n: nat, whole: int)
    requires n > 0 && SignsTell(f, high, n) && whole == low + BASE * high
    ensures SignsTell(f, whole, n + 1)
  {
    ScaledSign(high, low, Power(n), BASE / 2 * Power(n - 1), whole);
  }

  /** The final overflow flag of a chain of ADC is signed overflow of the whole sum, and sign and
      overflow together give the sign of the exact sum. */
  lemma {:induction false} AdcChainSigned(a: seq<word>, b: seq<word>, f: Flags)
    requires |a| == |b| > 0
    ensures SignsTell(AdcChain(a, b, f).flags, SignedValue(a) + SignedValue(b) + Carry(f.cf, 1), |a|)
    decreases |a|
  {
    var low := Adc(a[0], b[0], f);
    if |a| == 1 {
      OneWord(a[0], b[0], f);
      assert AdcChain(a, b, f).flags == low.flags;
    } else {
      AdcChainSigned(a[1..], b[1..], low.flags);
      MoreWords(AdcChain(a, b, f).flags, SignedValue(a[1..]) + SignedValue(b[1..]) + Carry(low.flags.cf, 1),
                low.value, |a| - 1, SignedValue(a) + SignedValue(b) + Carry(f.cf, 1));
    }
  }

  lemma {:induction false} SbbChainSigned(a: seq<word>, b: seq<word>, f: Flags)
    requires |a| == |b| > 0
    ensures SignsTell(SbbChain(a, b, f).flags, SignedValue(a) - SignedValue(b) - Carry(f.cf, 1), |a|)
    decreases |a|
  {
    var low := Sbb(Word, a[0], b[0], f);
    if |a| == 1 {
      OneWord(a[0], b[0], f);
      assert SbbChain(a, b, f).flags == low.flags;
    } else {
      SbbChainSigned(a[1..], b[1..], low.flags);
      MoreWords(SbbChain(a, b, f).flags, SignedValue(a[1..]) - SignedValue(b[1..]) - Carry(low.flags.cf, 1),
                low.value, |a| - 1, SignedValue(a) - SignedValue(b) - Carry(f.cf, 1));
    }
  }

  /** A number and its high part are negative together, and in range together. */
  lemma ScaledSign(high: int, low: word, p: int, half: int, whole: int)
    requires whole == low + BASE * high && p == 2 * half
    ensures whole < 0 <==> high < 0
    ensures -(BASE * p) <= 2 * whole < BASE * p <==> -p <= 2 * high < p
  {
  }

  // ---- packed decimal ----

  /** Two decimal digits in a byte. */
  predicate Packed(b: int) {
    0 <= b < 0x100 && b % 16 <= 9 && b / 16 <= 9
  }

  function Decimal(b: int): int {
    b / 16 * 10 + b % 16
  }

  /** SBB then DAS on packed bytes: the two-digit difference, and the decimal borrow in the carry. */
  lemma DecimalStep(a: byte, b: byte, f: Flags)
    requires Packed(a) && Packed(b)
    ensures var t := Sbb(Byte, a, b, f);
      var r := Das(t.value, t.flags);
      Packed(r.value) && Decimal(r.value) == Decimal(a) - Decimal(b) - Carry(f.cf, 1) + Carry(r.flags.cf, 100)
  {
    var t := Sbb(Byte, a, b, f);
    DecimalCore(a, b, f.cf, t.value, t.flags.af || t.value % 16 > 9, t.flags.cf || t.value > 0x99);
  }

  lemma DecimalCore(a: byte, b: byte, c: bool, t: byte, low: bool, high: bool)
    requires Packed(a) && Packed(b)
    requires t == a - b - Carry(c, 1) + Carry(a < b + Carry(c, 1), 0x100)
    requires low <==> a % 16 < b % 16 + Carry(c, 1) || t % 16 > 9
    requires high <==> a < b + Carry(c, 1) || t > 0x99
    ensures var x := t - Carry(low, 6) - Carry(high, 0x60);
      && x >= 0 && Packed(x) && (low && t < 6 ==> high)
      && Decimal(x) == Decimal(a) - Decimal(b) - Carry(c, 1) + Carry(high, 100)
  {
    DecimalDigits(a / 16, a % 16, b / 16, b % 16, c, t);
    DasDigits(t, low, high);
  }

  /** Correcting a digit that borrowed, by 6, leaves the other digit alone. */
  lemma DasDigits(t: byte, low: bool, high: bool)
    requires (low ==> t % 16 >= 6) && (high ==> t / 16 >= 6)
    ensures var x := t - Carry(low, 6) - Carry(high, 0x60);
      0 <= x && x % 16 == t % 16 - Carry(low, 6) && x / 16 == t / 16 - Carry(high, 6)
  {
    var x := t - Carry(low, 6) - Carry(high, 0x60);
    QuotientUnique(x, 16, t / 16 - Carry(high, 6), t % 16 - Carry(low, 6));
  }

  /** The same, digit by digit: t is the binary difference, corrected where a digit borrowed. */
  lemma DecimalDigits(ah: nat, al: nat, bh: nat, bl: nat, c: bool, t: nat)
    requires ah <= 9 && al <= 9 && bh <= 9 && bl <= 9 && t < 0x100
    requires var d := 16 * (ah - bh) + al - bl - Carry(c, 1); t == d + Carry(d < 0, 0x100)
    ensures var borrowed := al < bl + Carry(c, 1);
      var high := ah - bh - Carry(borrowed, 1);
      && t / 16 == high + Carry(high < 0, 16)
      && t % 16 == al - bl - Carry(c, 1) + Carry(borrowed, 16)
      && (t > 0x99 && high >= 0 ==> high == 9 && borrowed)
  {
    var borrowed := al < bl + Carry(c, 1);
    var low, high := al - bl - Carry(c, 1) + Carry(borrowed, 16), ah - bh - Carry(borrowed, 1);
    assert t == 16 * (high + Carry(high < 0, 16)) + low;
  }

  datatype DecimalChain = DecimalChain(bytes: seq<byte>, flags: Flags)

  function DasChain(a: seq<byte>, b: seq<byte>, f: Flags): (r: DecimalChain)
    requires |a| == |b|
    ensures |r.bytes| == |a|
    decreases |a|
  {
    if a == [] then DecimalChain([], f) else
      var t := Sbb(Byte, a[0], b[0], f);
      var low := Das(t.value, t.flags);
      var rest := DasChain(a[1..], b[1..], low.flags);
      DecimalChain([low.value] + rest.bytes, rest.flags)
  }

  function Digits(s: seq<byte>): int {
    if s == [] then 0 else Decimal(s[0]) + 100 * Digits(s[1..])
  }

  function Hundreds(n: nat): (p: int)
    ensures p > 0
  {
    if n == 0 then 1 else 100 * Hundreds(n - 1)
  }

  ghost predicate AllPacked(s: seq<byte>) {
    forall i :: 0 <= i < |s| ==> Packed(s[i])
  }

  /** A chain of SBB and DAS computes the exact decimal difference modulo 100^k, in packed digits,
      with the final carry as the borrow. */
  lemma {:induction false} DasChainDifference(a: seq<byte>, b: seq<byte>, f: Flags)
    requires |a| == |b| && AllPacked(a) && AllPacked(b)
    ensures var r := DasChain(a, b, f);
      AllPacked(r.bytes) && Digits(r.bytes) == Digits(a) - Digits(b) - Carry(f.cf, 1) + Carry(r.flags.cf, Hundreds(|a|))
    decreases |a|
  {
    if a != [] {
      var t := Sbb(Byte, a[0], b[0], f);
      var low := Das(t.value, t.flags);
      var rest := DasChain(a[1..], b[1..], low.flags);
      DecimalStep(a[0], b[0], f);
      DasChainDifference(a[1..], b[1..], low.flags);
      assert ([low.value] + rest.bytes)[1..] == rest.bytes;
    }
  }

  lemma {:induction false} DigitsRange(s: seq<byte>)
    requires AllPacked(s)
    ensures 0 <= Digits(s) < Hundreds(|s|)
  {
    if s != [] {
      DigitsRange(s[1..]);
    }
  }

  /** The final carry is set exactly when b and the borrow in exceed a. */
  lemma DasChainBorrows(a: seq<byte>, b: seq<byte>, f: Flags)
    requires |a| == |b| && AllPacked(a) && AllPacked(b)
    ensures DasChain(a, b, f).flags.cf <==> Digits(a) < Digits(b) + Carry(f.cf, 1)
  {
    DasChainDifference(a, b, f);
    DigitsRange(DasChain(a, b, f).bytes);
    DigitsRange(a);
    DigitsRange(b);
  }
}
