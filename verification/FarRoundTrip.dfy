/** A call through a gate to an inner level, undone by the matching far return. */
module FarRoundTrip {
  import opened Words
  import opened Wrappers
  import opened FarTransfer
  import opened FarPrivilege

  // ---- memory words ----

  lemma ModStep(a: int, i: int)
    requires 0 <= i < SIZE32
    ensures (a + i) % SIZE32 == if a % SIZE32 + i < SIZE32 then a % SIZE32 + i else a % SIZE32 + i - SIZE32
  {
  }

  lemma ModApart(a: int, b: int)
    requires 0 < a - b < SIZE32
    ensures a % SIZE32 != b % SIZE32
  {
  }

  lemma ReadBack16(m: seq<byte>, a: int, v: word)
    requires |m| == SIZE32
    ensures Read16(Write16(m, a, v), a) == v
  {
    ModApart(a + 1, a);
  }

  lemma ByteAfterWrite16(m: seq<byte>, a: int, v: word, b: int)
    requires |m| == SIZE32 && (1 < b - a < SIZE32 || 0 < a - b < SIZE32 - 1)
    ensures ByteAt(Write16(m, a, v), b) == ByteAt(m, b)
  {
    if b > a {
      ModApart(b, a);
      ModApart(b, a + 1);
    } else {
      ModApart(a, b);
      ModApart(a + 1, b);
    }
  }

  lemma ReadBack32(m: seq<byte>, a: int, v: dword)
    requires |m| == SIZE32
    ensures Read32(Write32(m, a, v), a) == v
  {
    var low: int, high: int := v % 0x1_0000, v / 0x1_0000;
    var m1 := Write16(m, a, low);
    var m2 := Write16(m1, a + 2, high);
    ReadBack16(m, a, low);
    ReadBack16(m1, a + 2, high);
    ByteAfterWrite16(m1, a + 2, high, a);
    ByteAfterWrite16(m1, a + 2, high, a + 1);
  }

  lemma ByteAfterWrite32(m: seq<byte>, a: int, v: dword, b: int)
    requires |m| == SIZE32 && 3 < b - a < SIZE32
    ensures ByteAt(Write32(m, a, v), b) == ByteAt(m, b)
  {
    ByteAfterWrite16(m, a, v % 0x1_0000, b);
    ByteAfterWrite16(Write16(m, a, v % 0x1_0000), a + 2, v / 0x1_0000, b);
  }

  lemma SameDword(m: seq<byte>, m': seq<byte>, b: int)
    requires |m| == SIZE32 == |m'| && forall x :: b <= x < b + 4 ==> ByteAt(m, x) == ByteAt(m', x)
    ensures Read32(m, b) == Read32(m', b) && Read16(m, b) == Read16(m', b)
  {
  }

  /** A dword address matters only modulo 4 GB. */
  lemma SameAddress(m: seq<byte>, a: int, b: int, v: dword)
    requires |m| == SIZE32 && a % SIZE32 == b % SIZE32
    ensures Read32(m, a) == Read32(m, b) && Read16(m, a) == Read16(m, b) && Write32(m, a, v) == Write32(m, b, v)
  {
    ModStep(a, 1);
    ModStep(b, 1);
    ModStep(a, 2);
    ModStep(b, 2);
    ModStep(a, 3);
    ModStep(b, 3);
    ModStep(a + 2, 1);
    ModStep(b + 2, 1);
  }

  // ---- stack units: dwords, or the words of a 16-bit link ----

  function Wide(is32: bool): nat {
    if is32 then 4 else 2
  }

  /** Bytes in n units. */
  function Bytes(is32: bool, n: nat): nat {
    if is32 then 4 * n else 2 * n
  }

  predicate Fits(is32: bool, v: dword) {
    is32 || v < 0x1_0000
  }

  ghost predicate AllFit(is32: bool, vs: seq<dword>) {
    forall k :: 0 <= k < |vs| ==> Fits(is32, vs[k])
  }

  function ReadUnit(m: seq<byte>, is32: bool, a: int): dword
    requires |m| == SIZE32
  {
    if is32 then Read32(m, a) else Read16(m, a)
  }

  function WriteUnit(m: seq<byte>, is32: bool, a: int, v: dword): (m': seq<byte>)
    requires |m| == SIZE32
    ensures |m'| == SIZE32
  {
    if is32 then Write32(m, a, v) else Write16(m, a, v % 0x1_0000)
  }

  lemma ReadBack(m: seq<byte>, is32: bool, a: int, v: dword)
    requires |m| == SIZE32 && Fits(is32, v)
    ensures ReadUnit(WriteUnit(m, is32, a, v), is32, a) == v
  {
    hide Read16, Read32, Write16, Write32;
    if is32 {
      ReadBack32(m, a, v);
    } else {
      QuotientUnique(v, 0x1_0000, 0, v);
      ReadBack16(m, a, v);
    }
  }

  lemma ReadOther(m: seq<byte>, is32: bool, a: int, v: dword, b: int)
    requires |m| == SIZE32 && Wide(is32) <= b - a <= SIZE32 - 4
    ensures ReadUnit(WriteUnit(m, is32, a, v), is32, b) == ReadUnit(m, is32, b)
  {
    hide Read16, Read32, Write16, Write32, ByteAt;
    forall x | b <= x < b + 4 ensures ByteAt(WriteUnit(m, is32, a, v), x) == ByteAt(m, x) {
      if is32 {
        ByteAfterWrite32(m, a, v, x);
      } else {
        ByteAfterWrite16(m, a, v % 0x1_0000, x);
      }
    }
    SameDword(WriteUnit(m, is32, a, v), m, b);
  }

  lemma SameUnit(m: seq<byte>, is32: bool, a: int, b: int, v: dword)
    requires |m| == SIZE32 && a % SIZE32 == b % SIZE32
    ensures ReadUnit(m, is32, a) == ReadUnit(m, is32, b) && WriteUnit(m, is32, a, v) == WriteUnit(m, is32, b, v)
  {
    hide Read16, Read32, Write32, ByteAt;
    SameAddress(m, a, b, v);
    ModStep(a, 1);
    ModStep(b, 1);
  }

  // ---- what a sequence of pushes leaves on the stack ----

  /** Below linear address top lie the units vs, the first one highest. */
  ghost predicate Below(m: seq<byte>, is32: bool, top: int, vs: seq<dword>)
    requires |m| == SIZE32
  {
    forall k: nat :: k < |vs| ==> Slot(m, is32, top, k) == vs[k]
  }

  function Slot(m: seq<byte>, is32: bool, top: int, k: nat): dword
    requires |m| == SIZE32
  {
    ReadUnit(m, is32, top - Bytes(is32, k + 1))
  }

  /** The stack pointer stands at linear address a, with room for n more bytes before a 16-bit
      stack pointer wraps. */
  ghost predicate Stands(s: State, a: int, n: nat) {
    && |s.mem| == SIZE32
    && (Base(s.ss.desc) + Sp(s)) % SIZE32 == a % SIZE32
    && (Big(s.ss.desc) || n <= Sp(s))
  }

  /** From s, the stack has become t with units vs below top and room for n more bytes. */
  ghost predicate Left(s: State, t: State, is32: bool, top: int, vs: seq<dword>, n: nat) {
    && |s.mem| == SIZE32 && SameRegs(s, t)
    && Stands(t, top - Bytes(is32, |vs|), n) && Below(t.mem, is32, top, vs)
  }

  lemma PushLeft(s0: State, s: State, is32: bool, v: dword, top: int, vs: seq<dword>, n: nat)
    requires Left(s0, s, is32, top, vs, n + Wide(is32)) && |vs| < 1000 && Fits(is32, v)
    ensures Left(s0, Push(s, is32, v), is32, top, vs + [v], n)
  {
    hide Push, WriteUnit, ReadUnit, Below;
    var t := Push(s, is32, v);
    var a := top - Bytes(is32, |vs| + 1);
    PushStands(s, is32, v, a, n);
    SameUnit(s.mem, is32, Base(s.ss.desc) + Sp(t), a, v);
    WriteBelow(s.mem, is32, v, top, vs);
  }

  lemma WriteBelow(m: seq<byte>, is32: bool, v: dword, top: int, vs: seq<dword>)
    requires |m| == SIZE32 && Below(m, is32, top, vs) && |vs| < 1000 && Fits(is32, v)
    ensures Below(WriteUnit(m, is32, top - Bytes(is32, |vs| + 1), v), is32, top, vs + [v])
  {
    hide WriteUnit, ReadUnit;
    var a := top - Bytes(is32, |vs| + 1);
    ReadBack(m, is32, a, v);
    forall k: nat | k < |vs + [v]| ensures Slot(WriteUnit(m, is32, a, v), is32, top, k) == (vs + [v])[k] {
      if k < |vs| {
        assert Slot(m, is32, top, k) == vs[k];
        ReadOther(m, is32, a, v, top - Bytes(is32, k + 1));
      }
    }
  }

  lemma LowHalf(esp: dword, x: nat)
    requires x < 0x1_0000
    ensures (esp / 0x1_0000 * 0x1_0000 + x) % 0x1_0000 == x && esp / 0x1_0000 * 0x1_0000 + x < SIZE32
  {
  }

  /** Where a stack pointer of that segment wraps. */
  function Modulus(d: Descriptor): (m: nat)
    ensures m > 0
  {
    if Big(d) then SIZE32 else 0x1_0000
  }

  /** A push lowers the pointer by a unit, modulo 64 KB or 4 GB. */
  lemma PushSp(s: State, is32: bool, v: dword)
    requires |s.mem| == SIZE32
    ensures var t := Push(s, is32, v);
      && Sp(t) == (Sp(s) - Wide(is32)) % Modulus(s.ss.desc)
      && SameRegs(s, t) && t.mem == WriteUnit(s.mem, is32, Base(s.ss.desc) + Sp(t), v)
  {
    hide Write16, Write32;
    if !Big(s.ss.desc) {
      LowHalf(s.esp, (Sp(s) - Wide(is32)) % 0x1_0000);
    }
  }

  lemma ModShift(base: dword, sp: dword, w: nat, a: int)
    requires (base + sp) % SIZE32 == (a + w) % SIZE32 && w < 0x1000
    ensures (base + (sp - w) % SIZE32) % SIZE32 == a % SIZE32
  {
    ModStep(a, w);
    ModStep(sp - w, w);
    ModStep(base + sp - w, w);
    var y := (sp - w) % SIZE32;
    assert y == sp - w || y == sp - w + SIZE32 by {
      QuotientUnique(sp - w, SIZE32, if sp < w then -1 else 0, if sp < w then sp - w + SIZE32 else sp - w);
    }
    ModEither(base + y, base + sp - w);
  }

  lemma PushStands(s: State, is32: bool, v: dword, a: int, n: nat)
    requires Stands(s, a + Wide(is32), n + Wide(is32))
    ensures var t := Push(s, is32, v);
      Stands(t, a, n) && SameRegs(s, t) && t.mem == WriteUnit(s.mem, is32, Base(s.ss.desc) + Sp(t), v)
  {
    hide WriteUnit, Push;
    var w := Wide(is32);
    PushSp(s, is32, v);
    ModShift(Base(s.ss.desc), Sp(s), w, a);
    if !Big(s.ss.desc) {
      QuotientUnique(Sp(s) - w, 0x1_0000, 0, Sp(s) - w);
      QuotientUnique(Sp(s) - w, SIZE32, 0, Sp(s) - w);
    }
  }

  function Reversed(ps: seq<dword>): seq<dword> {
    if ps == [] then [] else [ps[|ps| - 1]] + Reversed(ps[..|ps| - 1])
  }

  lemma {:induction false} ReversedLength(ps: seq<dword>)
    ensures |Reversed(ps)| == |ps|
    decreases |ps|
  {
    if ps != [] {
      ReversedLength(ps[..|ps| - 1]);
    }
  }

  lemma BytesSucc(is32: bool, n: nat)
    ensures Bytes(is32, n + 1) == Bytes(is32, n) + Wide(is32)
  {
  }

  lemma LastReversed(vs: seq<dword>, ps: seq<dword>)
    requires ps != []
    ensures vs + Reversed(ps) == vs + [ps[|ps| - 1]] + Reversed(ps[..|ps| - 1])
  {
    assert Reversed(ps) == [ps[|ps| - 1]] + Reversed(ps[..|ps| - 1]);
    Regroup(vs, [ps[|ps| - 1]], Reversed(ps[..|ps| - 1]));
  }

  lemma Regroup(a: seq<dword>, b: seq<dword>, c: seq<dword>)
    ensures a + (b + c) == a + b + c
  {
  }

  lemma {:induction false} PushAllLeft(s0: State, s: State, is32: bool, ps: seq<dword>, top: int, vs: seq<dword>, n: nat)
    requires |s.mem| == SIZE32 && Left(s0, s, is32, top, vs, n + Bytes(is32, |ps|)) && |vs| + |ps| < 1000 && AllFit(is32, ps)
    ensures Left(s0, PushAll(s, is32, ps), is32, top, vs + Reversed(ps), n)
    decreases |ps|
  {
    hide Left, Push, Reversed;
    if ps == [] {
      NoneReversed(vs);
    } else {
      var v, rest := ps[|ps| - 1], ps[..|ps| - 1];
      BytesSucc(is32, |rest|);
      PushLeft(s0, s, is32, v, top, vs, n + Bytes(is32, |rest|));
      PushAllLeft(s0, Push(s, is32, v), is32, rest, top, vs + [v], n);
      LastReversed(vs, ps);
    }
  }

  lemma NoneReversed(vs: seq<dword>)
    ensures vs + Reversed([]) == vs
  {
  }

  lemma TwoLeft(s0: State, s: State, is32: bool, v: dword, w: dword, top: int, vs: seq<dword>, n: nat)
    requires |s.mem| == SIZE32 && Left(s0, s, is32, top, vs, n + Bytes(is32, 2)) && |vs| < 999 && Fits(is32, v) && Fits(is32, w)
    ensures Left(s0, Push(Push(s, is32, v), is32, w), is32, top, vs + [v, w], n)
  {
    hide Left, Push;
    PushLeft(s0, s, is32, v, top, vs, n + Wide(is32));
    PushLeft(s0, Push(s, is32, v), is32, w, top, vs + [v], n);
    assert vs + [v] + [w] == vs + [v, w];
  }

  // ---- reading the stack upward ----

  /** The n units from the stack pointer upward. */
  function Frame(s: State, is32: bool, n: nat): (f: seq<dword>)
    requires |s.mem| == SIZE32
    ensures |f| == n
  {
    Upward(s.mem, is32, Base(s.ss.desc) + Sp(s), n)
  }

  function Upward(m: seq<byte>, is32: bool, a: int, n: nat): (r: seq<dword>)
    requires |m| == SIZE32
    ensures |r| == n
    decreases n
  {
    if n == 0 then [] else [ReadUnit(m, is32, a)] + Upward(m, is32, a + Wide(is32), n - 1)
  }

  lemma {:induction false} UpwardAt(m: seq<byte>, is32: bool, a: int, n: nat, k: nat)
    requires |m| == SIZE32 && k < n
    ensures Upward(m, is32, a, n)[k] == ReadUnit(m, is32, a + Bytes(is32, k))
    decreases n
  {
    hide ReadUnit;
    if k > 0 {
      assert a + Wide(is32) + Bytes(is32, k - 1) == a + Bytes(is32, k);
      UpwardAt(m, is32, a + Wide(is32), n - 1, k - 1);
    } else if n > 1 {
      UpwardAt(m, is32, a + Wide(is32), n - 1, 0);
    }
  }

  lemma {:induction false} UpwardMod(m: seq<byte>, is32: bool, a: int, b: int, n: nat)
    requires |m| == SIZE32 && a % SIZE32 == b % SIZE32
    ensures Upward(m, is32, a, n) == Upward(m, is32, b, n)
    decreases n
  {
    hide ReadUnit, WriteUnit;
    if n > 0 {
      SameUnit(m, is32, a, b, 0);
      ModPlus(a, b, Wide(is32));
      UpwardMod(m, is32, a + Wide(is32), b + Wide(is32), n - 1);
    }
  }

  /** Read upward, what was pushed comes back last pushed first. */
  lemma {:induction false} UpwardReversed(m: seq<byte>, is32: bool, top: int, vs: seq<dword>)
    requires |m| == SIZE32 && Below(m, is32, top, vs)
    ensures Upward(m, is32, top - Bytes(is32, |vs|), |vs|) == Reversed(vs)
    decreases |vs|
  {
    hide ReadUnit, Below, Bytes, Wide;
    if vs != [] {
      var front := vs[..|vs| - 1];
      BelowFront(m, is32, top, vs);
      UpwardReversed(m, is32, top, front);
      BytesSucc(is32, |front|);
      assert top - Bytes(is32, |vs|) + Wide(is32) == top - Bytes(is32, |front|);
    }
  }

  lemma BelowFront(m: seq<byte>, is32: bool, top: int, vs: seq<dword>)
    requires |m| == SIZE32 && Below(m, is32, top, vs) && vs != []
    ensures Below(m, is32, top, vs[..|vs| - 1]) && ReadUnit(m, is32, top - Bytes(is32, |vs|)) == vs[|vs| - 1]
  {
    assert Slot(m, is32, top, |vs| - 1) == vs[|vs| - 1];
  }

  lemma FrameRead(t: State, is32: bool, top: int, vs: seq<dword>)
    requires Stands(t, top - Bytes(is32, |vs|), 0) && Below(t.mem, is32, top, vs)
    ensures Frame(t, is32, |vs|) == Reversed(vs)
  {
    hide ReadUnit, Below, Upward, Reversed;
    UpwardMod(t.mem, is32, Base(t.ss.desc) + Sp(t), top - Bytes(is32, |vs|), |vs|);
    UpwardReversed(t.mem, is32, top, vs);
  }

  lemma LowWord(m: seq<byte>, a: int)
    requires |m| == SIZE32
    ensures Read16(m, a) == Read32(m, a) % 0x1_0000
  {
  }

  lemma ModPlus(a: int, b: int, i: nat)
    requires a % SIZE32 == b % SIZE32 && i < SIZE32
    ensures (a + i) % SIZE32 == (b + i) % SIZE32
  {
    ModStep(a, i);
    ModStep(b, i);
  }

  lemma {:induction false} ReversedConcat(a: seq<dword>, b: seq<dword>)
    ensures Reversed(a + b) == Reversed(b) + Reversed(a)
    decreases |b|
  {
    if b == [] {
      assert a + b == a;
    } else {
      var c := b[..|b| - 1];
      assert (a + b)[..|a + b| - 1] == a + c;
      ReversedConcat(a, c);
    }
  }

  lemma {:induction false} ReversedTwice(ps: seq<dword>)
    ensures Reversed(Reversed(ps)) == ps
    decreases |ps|
  {
    if ps != [] {
      var v, c := ps[|ps| - 1], ps[..|ps| - 1];
      ReversedTwice(c);
      ReversedConcat([v], Reversed(c));
      assert Reversed([v]) == [v] + Reversed([v][..0]);
      assert ps == c + [v];
    }
  }

  lemma ReversedFrame(ss: dword, esp: dword, ps: seq<dword>, cs: dword, eip: dword)
    ensures Reversed([ss, esp] + Reversed(ps) + [cs, eip]) == [eip, cs] + ps + [esp, ss]
  {
    ReversedConcat([ss, esp] + Reversed(ps), [cs, eip]);
    ReversedConcat([ss, esp], Reversed(ps));
    ReversedTwice(ps);
    ReversedPair(ss, esp);
    ReversedPair(cs, eip);
  }

  lemma ReversedPair(v: dword, w: dword)
    ensures Reversed([v, w]) == [w, v]
  {
    assert [v, w][..1] == [v];
    assert Reversed([v]) == [v] + Reversed([v][..0]);
  }

  // ---- the inner stack after the call ----

  /** The instruction pointer and the stack pointer as a link of that width keeps them. */
  function LinkEip(s: State, is32: bool): dword {
    if is32 then s.eip else s.eip % 0x1_0000
  }

  function LinkSp(s: State, is32: bool): dword {
    if is32 then Sp(s) else Sp(s) % 0x1_0000
  }

  function FrameOf(s: State, g: Descriptor): seq<dword>
    requires g.CallGate? && |s.mem| == SIZE32
  {
    [s.ss.selector as dword, LinkSp(s, g.is32)] + Reversed(Parameters(s, g.is32, g.count))
    + [s.cs.selector as dword, LinkEip(s, g.is32)]
  }

  lemma SwitchedFrame(s: State, g: Descriptor, d: Descriptor, newSs: word, sd: Descriptor, newEsp: dword, top: int)
    requires g.CallGate? && g.count < 32 && d.Segment? && |s.mem| == SIZE32
    requires Stands(OnInnerStack(s, g, d, newSs, sd, newEsp), top, Bytes(g.is32, g.count + 4))
    ensures Left(OnInnerStack(s, g, d, newSs, sd, newEsp), Switched(s, g, d, newSs, sd, newEsp), g.is32, top, FrameOf(s, g), 0)
  {
    hide Left, Push, PushAll, OnInnerStack, Stands;
    var t0 := OnInnerStack(s, g, d, newSs, sd, newEsp);
    var ps := Parameters(s, g.is32, g.count);
    var ss, cs: dword := s.ss.selector, s.cs.selector;
    ReversedLength(ps);
    PushesLow(s, g.is32);
    SwitchedPushes(s, g, d, newSs, sd, newEsp, ss, cs);
    FramePushed(t0, g.is32, ss, LinkSp(s, g.is32), ps, cs, LinkEip(s, g.is32), top);
  }

  /** The switch in terms of the values a link keeps. */
  lemma SwitchedPushes(s: State, g: Descriptor, d: Descriptor, newSs: word, sd: Descriptor, newEsp: dword, ss: dword, cs: dword)
    requires g.CallGate? && d.Segment? && |s.mem| == SIZE32 && ss == s.ss.selector && cs == s.cs.selector
    ensures var t0, ps := OnInnerStack(s, g, d, newSs, sd, newEsp), Parameters(s, g.is32, g.count);
      var b := Push(Push(t0, g.is32, ss), g.is32, LinkSp(s, g.is32));
      Switched(s, g, d, newSs, sd, newEsp) == Push(Push(PushAll(b, g.is32, ps), g.is32, cs), g.is32, LinkEip(s, g.is32))
  {
    hide PushAll, OnInnerStack, Push16, Push32;
    if !g.is32 {
      QuotientUnique(LinkSp(s, false), 0x1_0000, 0, LinkSp(s, false));
      QuotientUnique(LinkEip(s, false), 0x1_0000, 0, LinkEip(s, false));
    }
  }

  lemma PushesLow(s: State, is32: bool)
    ensures Fits(is32, LinkSp(s, is32)) && Fits(is32, LinkEip(s, is32))
  {
  }

  lemma FramePushed(t0: State, is32: bool, ss: dword, sp: dword, ps: seq<dword>, cs: dword, eip: dword, top: int)
    requires Stands(t0, top, Bytes(is32, |ps| + 4)) && |ps| < 900 && AllFit(is32, ps)
    requires ss < 0x1_0000 && cs < 0x1_0000 && Fits(is32, sp) && Fits(is32, eip)
    ensures Left(t0, Push(Push(PushAll(Push(Push(t0, is32, ss), is32, sp), is32, ps), is32, cs), is32, eip), is32, top,
                 [ss, sp] + Reversed(ps) + [cs, eip], 0)
  {
    var b := Push(Push(t0, is32, ss), is32, sp);
    StartLeft(t0, is32, top, Bytes(is32, |ps| + 2) + Bytes(is32, 2));
    hide Left, Push;
    TwoLeft(t0, t0, is32, ss, sp, top, [], Bytes(is32, |ps| + 2));
    assert [] + [ss, sp] == [ss, sp];
    assert Bytes(is32, |ps| + 2) == Bytes(is32, 2) + Bytes(is32, |ps|);
    PushAllLeft(t0, b, is32, ps, top, [ss, sp], Bytes(is32, 2));
    ReversedLength(ps);
    TwoLeft(t0, PushAll(b, is32, ps), is32, cs, eip, top, [ss, sp] + Reversed(ps), 0);
  }

  lemma StartLeft(s: State, is32: bool, top: int, n: nat)
    requires Stands(s, top, n)
    ensures Left(s, s, is32, top, [], n)
  {
  }

  // ---- call and return ----

  /** The call enters an inner level through gate g to code d, on stack sd at newEsp; a 16-bit inner
      stack is deep enough for the frame. */
  ghost predicate EntersInner(c: Config, s: State, sel: word, g: Descriptor, d: Descriptor, newSs: word, sd: Descriptor, newEsp: dword) {
    && Lookup(c, sel) == Some(g) && g.CallGate? && g.count < 32
    && Lookup(c, g.selector) == Some(d) && d.Segment? && d.code && !d.ec && d.dpl < s.cpl
    && c.tss(d.dpl) == Some((newSs, newEsp)) && Lookup(c, newSs) == Some(sd) && sd.Segment?
    && (sd.big || Bytes(g.is32, g.count + 4) <= newEsp % 0x1_0000)
  }

  /** The caller's code and stack selectors may be returned to. */
  ghost predicate Returnable(c: Config, s: State) {
    && Lookup(c, s.cs.selector) == Some(s.cs.desc) && s.cs.desc.Segment? && s.cs.desc.code && s.cs.desc.present
    && (s.cs.desc.ec || s.cs.desc.dpl <= s.cpl)
    && Rpl(s.cs.selector) == s.cpl && s.eip <= s.cs.desc.limit
    && Lookup(c, s.ss.selector) == Some(s.ss.desc) && WritableData(s.ss.desc) && s.ss.desc.present
    && Rpl(s.ss.selector) == s.cpl == s.ss.desc.dpl
  }

  /** The callee has come back to its frame of n units: same stack segment and pointer, same
      level, frame intact. */
  ghost predicate FrameIntact(s1: State, s2: State, is32: bool, n: nat) {
    && |s1.mem| == SIZE32 == |s2.mem|
    && s2.ss == s1.ss && Sp(s2) == Sp(s1) && s2.cpl == s1.cpl
    && Frame(s2, is32, n) == Frame(s1, is32, n)
  }

  /** The stack limit lets the return read a frame with n parameters. */
  ghost predicate FrameWithinLimit(c: Config, s: State, is32: bool, n: nat) {
    && c.popRoom(s.ss.desc, Sp(s), Bytes(is32, n) + 2 * Wide(is32))
    && c.popRoom(s.ss.desc, Sp(s), Bytes(is32, n) + 4 * Wide(is32))
  }

  lemma InnerStands(s: State, g: Descriptor, d: Descriptor, newSs: word, sd: Descriptor, newEsp: dword)
    requires g.CallGate? && d.Segment? && sd.Segment? && |s.mem| == SIZE32
    requires sd.big || Bytes(g.is32, g.count + 4) <= newEsp % 0x1_0000
    ensures var t0 := OnInnerStack(s, g, d, newSs, sd, newEsp);
      Stands(t0, sd.base + Sp(t0), Bytes(g.is32, g.count + 4)) && t0.ss.desc == sd && (d.dpl < 4 ==> t0.cpl == d.dpl)
  {
    LowHalf(s.esp, newEsp % 0x1_0000);
  }

  /** The frame a caller in state s with parameters ps should be found under. */
  function LinkFrame(s: State, is32: bool, ps: seq<dword>): seq<dword> {
    [LinkEip(s, is32), s.cs.selector as dword] + ps + [LinkSp(s, is32), s.ss.selector as dword]
  }

  /** The callee finds, from the stack pointer up, its return address, every parameter in the
      caller's order, and the caller's stack pointer. */
  lemma CalleeFrame(s: State, g: Descriptor, d: Descriptor, newSs: word, sd: Descriptor, newEsp: dword)
    requires g.CallGate? && g.count < 32 && d.Segment? && d.dpl < 4 && sd.Segment? && |s.mem| == SIZE32
    requires sd.big || Bytes(g.is32, g.count + 4) <= newEsp % 0x1_0000
    ensures var t := Switched(s, g, d, newSs, sd, newEsp);
      && |t.mem| == SIZE32 && t.cpl == d.dpl
      && Frame(t, g.is32, g.count + 4) == LinkFrame(s, g.is32, Parameters(s, g.is32, g.count))
  {
    hide Switched, OnInnerStack, Parameters, Reversed, Frame, Below;
    var ps, is32 := Parameters(s, g.is32, g.count), g.is32;
    var t, top := Switched(s, g, d, newSs, sd, newEsp), sd.base + Sp(OnInnerStack(s, g, d, newSs, sd, newEsp));
    InnerStands(s, g, d, newSs, sd, newEsp);
    SwitchedFrame(s, g, d, newSs, sd, newEsp, top);
    FrameRead(t, is32, top, FrameOf(s, g));
    ReversedLength(ps);
    ParametersLength(s, is32, g.count);
    ReversedFrame(s.ss.selector, LinkSp(s, is32), ps, s.cs.selector, LinkEip(s, is32));
  }

  lemma ParametersLength(s: State, is32: bool, n: nat)
    requires |s.mem| == SIZE32
    ensures |Parameters(s, is32, n)| == n
  {
  }

  lemma InnerDone(c: Config, s: State, sel: word, g: Descriptor, d: Descriptor, newSs: word, sd: Descriptor, newEsp: dword)
    requires Wf(s) && EntersInner(c, s, sel, g, d, newSs, sd, newEsp) && CallThroughGate(c, s, sel, g).Done?
    ensures CallThroughGate(c, s, sel, g) == Done(Switched(s, g, d, newSs, sd, newEsp))
  {
    hide Switched, Linked;
    assert CallThroughGate(c, s, sel, g) == CallInner(c, s, g, d);
  }

  /** A call through a gate of either width to an inner level and the far return of that width that
      releases its parameters restore CS, EIP, SS, CPL and the stack pointer as far as the width
      carries them, the stack pointer with the parameters removed: all of them, exactly when the gate
      is 32-bit or the two pointers fit 16 bits. */
  lemma GateCallReturns(c: Config, s: State, op32: bool, sel: word, ip: dword, g: Descriptor, d: Descriptor,
                        newSs: word, sd: Descriptor, newEsp: dword, s1: State, s2: State)
    requires Wf(s) && EntersInner(c, s, sel, g, d, newSs, sd, newEsp) && Returnable(c, s)
    requires CallFar(c, s, op32, sel, ip) == Done(s1) && FrameIntact(s1, s2, g.is32, g.count + 4)
    requires FrameWithinLimit(c, s2, g.is32, g.count)
    ensures s1.cpl == d.dpl < s.cpl
    ensures Frame(s1, g.is32, g.count + 4) == LinkFrame(s, g.is32, Parameters(s, g.is32, g.count))
    ensures var nbytes := Bytes(g.is32, g.count);
      var r := RetFar(c, s2, g.is32, nbytes);
      && RestoredBy(s, r, LinkEip(s, g.is32), LinkSp(s, g.is32), nbytes)
      && (RestoredBy(s, r, s.eip, Sp(s), nbytes) <==> g.is32 || (s.eip < 0x1_0000 && Sp(s) < 0x1_0000))
  {
    hide CallFar, RetFar, Parameters, Returnable, Frame;
    var ps := CallEntry(c, s, op32, sel, ip, g, d, newSs, sd, newEsp, s1);
    ReturnFromFrame(c, s, s1, s2, g.is32, ps, g.count);
    RestoredFully(s, RetFar(c, s2, g.is32, Bytes(g.is32, g.count)), g.is32, Bytes(g.is32, g.count));
  }

  lemma CallEntry(c: Config, s: State, op32: bool, sel: word, ip: dword, g: Descriptor, d: Descriptor,
                  newSs: word, sd: Descriptor, newEsp: dword, s1: State) returns (ps: seq<dword>)
    requires Wf(s) && EntersInner(c, s, sel, g, d, newSs, sd, newEsp) && CallFar(c, s, op32, sel, ip) == Done(s1)
    ensures |s1.mem| == SIZE32 && s1.cpl == d.dpl < s.cpl && ps == Parameters(s, g.is32, g.count) && |ps| == g.count
    ensures Frame(s1, g.is32, g.count + 4) == LinkFrame(s, g.is32, ps)
  {
    hide CallFar, CallThroughGate, Switched, Parameters, Frame;
    ps := Parameters(s, g.is32, g.count);
    ParametersLength(s, g.is32, g.count);
    GateOnly(c, s, op32, sel, ip, g);
    InnerDone(c, s, sel, g, d, newSs, sd, newEsp);
    CalleeFrame(s, g, d, newSs, sd, newEsp);
  }

  lemma GateOnly(c: Config, s: State, op32: bool, sel: word, ip: dword, g: Descriptor)
    requires |s.mem| == SIZE32 && Lookup(c, sel) == Some(g) && g.CallGate?
    ensures CallFar(c, s, op32, sel, ip) == CallThroughGate(c, s, sel, g)
  {
  }

  lemma ReturnFromFrame(c: Config, s: State, s1: State, s2: State, is32: bool, ps: seq<dword>, n: nat)
    requires Wf(s) && Returnable(c, s) && s1.cpl < s.cpl && n == |ps| && FrameIntact(s1, s2, is32, n + 4)
    requires Frame(s1, is32, n + 4) == LinkFrame(s, is32, ps)
    requires FrameWithinLimit(c, s2, is32, n)
    ensures RestoredBy(s, RetFar(c, s2, is32, Bytes(is32, n)), LinkEip(s, is32), LinkSp(s, is32), Bytes(is32, n))
  {
    OuterReturn(c, s, s2, is32, ps);
  }

  /** The return succeeded and gave the caller back its code and stack segments and its level, with
      that instruction pointer and, nbytes released, that stack pointer. */
  ghost predicate RestoredBy(s: State, r: Outcome, eip: dword, sp: dword, nbytes: nat) {
    && r.Done?
    && r.s.cs == s.cs && r.s.eip == eip && r.s.ss == s.ss && r.s.cpl == s.cpl
    && Sp(r.s) == (sp + nbytes) % Modulus(s.ss.desc)
  }

  lemma RestoredFully(s: State, r: Outcome, is32: bool, nbytes: nat)
    requires RestoredBy(s, r, LinkEip(s, is32), LinkSp(s, is32), nbytes)
    ensures RestoredBy(s, r, s.eip, Sp(s), nbytes) <==> is32 || (s.eip < 0x1_0000 && Sp(s) < 0x1_0000)
  {
    if !is32 && Big(s.ss.desc) && Sp(s) >= 0x1_0000 {
      ModApart(Sp(s) + nbytes, LinkSp(s, is32) + nbytes);
    } else if !is32 && !Big(s.ss.desc) {
      QuotientUnique(Sp(s), 0x1_0000, 0, Sp(s));
    }
  }

  lemma OuterReturn(c: Config, s: State, s2: State, is32: bool, ps: seq<dword>)
    requires Wf(s) && Returnable(c, s) && s2.cpl < s.cpl && |s2.mem| == SIZE32
    requires Frame(s2, is32, |ps| + 4) == LinkFrame(s, is32, ps) && FrameWithinLimit(c, s2, is32, |ps|)
    ensures RestoredBy(s, RetFar(c, s2, is32, Bytes(is32, |ps|)), LinkEip(s, is32), LinkSp(s, is32), Bytes(is32, |ps|))
  {
    hide RetFar, RetOuter, Frame, LinkFrame, Returnable, RestoredBy, Stack16, Stack32;
    var nbytes := Bytes(is32, |ps|);
    FrameLow(s, s2, is32, ps);
    FrameHigh(s, s2, is32, ps, nbytes);
    Unwound(c, s, s2, is32, nbytes);
    OuterDone(c, s, s2, is32, nbytes);
  }

  lemma FrameLow(s: State, s2: State, is32: bool, ps: seq<dword>)
    requires |s2.mem| == SIZE32 && Frame(s2, is32, |ps| + 4) == LinkFrame(s, is32, ps)
    ensures Pop(s2, is32, 0) == LinkEip(s, is32) && Stack16(s2, Sp(s2) + Wide(is32)) == s.cs.selector
  {
    hide Pop, Stack16, Stack32, Frame;
    LinkFrameEnds(s, is32, ps);
    StackUnit(s2, is32, |ps| + 4, 0, 0);
    StackUnit(s2, is32, |ps| + 4, 1, Wide(is32));
    QuotientUnique(s.cs.selector, 0x1_0000, 0, s.cs.selector);
  }

  lemma FrameHigh(s: State, s2: State, is32: bool, ps: seq<dword>, nbytes: nat)
    requires |s2.mem| == SIZE32 && Frame(s2, is32, |ps| + 4) == LinkFrame(s, is32, ps) && nbytes == Bytes(is32, |ps|)
    ensures Pop(s2, is32, 2 * Wide(is32) + nbytes) == LinkSp(s, is32)
    ensures Stack16(s2, Sp(s2) + 2 * Wide(is32) + nbytes + Wide(is32)) == s.ss.selector
  {
    hide Pop, Stack16, Stack32, Frame;
    LinkFrameEnds(s, is32, ps);
    StackUnit(s2, is32, |ps| + 4, |ps| + 2, 2 * Wide(is32) + nbytes);
    StackUnit(s2, is32, |ps| + 4, |ps| + 3, 2 * Wide(is32) + nbytes + Wide(is32));
    assert Sp(s2) + (2 * Wide(is32) + nbytes + Wide(is32)) == Sp(s2) + 2 * Wide(is32) + nbytes + Wide(is32);
    QuotientUnique(s.ss.selector, 0x1_0000, 0, s.ss.selector);
  }

  lemma StackUnit(s: State, is32: bool, n: nat, k: nat, off: nat)
    requires |s.mem| == SIZE32 && k < n && off == Bytes(is32, k)
    ensures Pop(s, is32, off) == Frame(s, is32, n)[k] && Stack16(s, Sp(s) + off) == Frame(s, is32, n)[k] % 0x1_0000
  {
    hide Read16, Read32, Upward;
    var a := Base(s.ss.desc) + Sp(s);
    UpwardAt(s.mem, is32, a, n, k);
    LowWord(s.mem, a + off);
    assert a + off == Base(s.ss.desc) + (Sp(s) + off);
    var v: int := Read16(s.mem, a + off);
    QuotientUnique(v, 0x1_0000, 0, v);
  }

  lemma LinkFrameEnds(s: State, is32: bool, ps: seq<dword>)
    ensures var f := LinkFrame(s, is32, ps);
      && |f| == |ps| + 4 && f[0] == LinkEip(s, is32) && f[1] == s.cs.selector
      && f[|ps| + 2] == LinkSp(s, is32) && f[|ps| + 3] == s.ss.selector
  {
  }

  lemma Unwound(c: Config, s: State, s2: State, is32: bool, nbytes: nat)
    requires Wf(s) && Returnable(c, s) && s2.cpl < s.cpl && |s2.mem| == SIZE32
    requires Pop(s2, is32, 0) == LinkEip(s, is32) && Stack16(s2, Sp(s2) + Wide(is32)) == s.cs.selector
    requires c.popRoom(s2.ss.desc, Sp(s2), nbytes + 2 * Wide(is32))
    ensures RetFar(c, s2, is32, nbytes) == RetOuter(c, s2, is32, nbytes, s.cs.selector, s.cs.desc, LinkEip(s, is32))
  {
    hide RetOuter, Pop, Stack16;
    RplOf(s.cs.selector, s.cpl);
  }

  lemma OuterDone(c: Config, s: State, s2: State, is32: bool, nbytes: nat)
    requires Wf(s) && Returnable(c, s) && |s2.mem| == SIZE32 && c.popRoom(s2.ss.desc, Sp(s2), nbytes + 4 * Wide(is32))
    requires Pop(s2, is32, 2 * Wide(is32) + nbytes) == LinkSp(s, is32)
    requires Stack16(s2, Sp(s2) + 2 * Wide(is32) + nbytes + Wide(is32)) == s.ss.selector
    ensures RestoredBy(s, RetOuter(c, s2, is32, nbytes, s.cs.selector, s.cs.desc, LinkEip(s, is32)),
                       LinkEip(s, is32), LinkSp(s, is32), nbytes)
  {
    hide RetOuterTo, Pop, Stack16, RestoredBy;
    OuterToDone(c, s, s2, LinkEip(s, is32), LinkSp(s, is32), nbytes);
  }

  lemma OuterToDone(c: Config, s: State, s2: State, eip: dword, sp: dword, nbytes: nat)
    requires Wf(s) && Returnable(c, s) && eip <= s.eip
    ensures RestoredBy(s, RetOuterTo(c, s2, nbytes, s.cs.selector, s.cs.desc, eip, sp, s.ss.selector), eip, sp, nbytes)
  {
    hide MapRegs;
    RplOf(s.cs.selector, s.cpl);
    RplOf(s.ss.selector, s.cpl);
    LowHalf(s2.esp, (sp + nbytes) % 0x1_0000);
  }

  // ---- calls that stay at their level ----

  /** Width of the return address the call pushes: the gate's, or the operand size. */
  predicate LinkWidth(c: Config, op32: bool, sel: word) {
    match Lookup(c, sel)
    case Some(CallGate(is32, _, _, _, _, _)) => is32
    case _ => op32
  }

  /** The stack holds a return address for s, just above its pointer. */
  ghost predicate LinkFor(s: State, t: State, is32: bool) {
    && |t.mem| == SIZE32 && t.ss == s.ss && t.cpl == s.cpl
    && Pop(t, is32, 0) == LinkEip(s, is32)
    && Stack16(t, Sp(t) + Wide(is32)) == s.cs.selector
    && (Sp(t) + 2 * Wide(is32)) % Modulus(s.ss.desc) == Sp(s)
  }

  /** The callee has come back to its return address: same stack segment, pointer and level, and
      the two values unharmed. */
  ghost predicate LinkIntact(s1: State, s2: State, is32: bool) {
    && |s1.mem| == SIZE32 == |s2.mem| && s2.ss == s1.ss && Sp(s2) == Sp(s1) && s2.cpl == s1.cpl
    && Pop(s2, is32, 0) == Pop(s1, is32, 0)
    && Stack16(s2, Sp(s2) + Wide(is32)) == Stack16(s1, Sp(s1) + Wide(is32))
  }

  /** A far call that succeeds without leaving its level, to a code segment or through a gate of
      either width, undone by a far return of the same width, gives back CS, EIP as far as the width
      carries it, SS, CPL and the stack pointer with nbytes released. */
  lemma SameLevelReturns(c: Config, s: State, op32: bool, sel: word, ip: dword, s1: State, s2: State, nbytes: nat)
    requires Wf(s) && Returnable(c, s)
    requires CallFar(c, s, op32, sel, ip) == Done(s1) && s1.cpl == s.cpl
    requires var is32 := LinkWidth(c, op32, sel);
      && (Big(s.ss.desc) || 2 * Wide(is32) <= Sp(s))
      && LinkIntact(s1, s2, is32)
      && c.popRoom(s2.ss.desc, Sp(s2), nbytes + 2 * Wide(is32))
    ensures var is32 := LinkWidth(c, op32, sel);
      LinkFor(s, s1, is32) && RestoredBy(s, RetFar(c, s2, is32, nbytes), LinkEip(s, is32), Sp(s), nbytes)
  {
    hide CallFar, RetFar, Linked, Returnable, Pop, Stack16;
    var is32, csSel, d, to := CallLinks(c, s, op32, sel, ip, s1);
    LinkLeft(s, is32, csSel, d, to);
    SameLevelDone(c, s, s2, is32, nbytes);
  }

  /** A call that stays at its level has pushed the return address and jumped. */
  lemma CallLinks(c: Config, s: State, op32: bool, sel: word, ip: dword, s1: State)
      returns (is32: bool, csSel: word, d: Descriptor, to: dword)
    requires Wf(s) && CallFar(c, s, op32, sel, ip) == Done(s1) && s1.cpl == s.cpl
    ensures is32 == LinkWidth(c, op32, sel) && s1 == Linked(s, is32, csSel, d, to)
  {
    hide Linked, Switched;
    is32, csSel, d, to := op32, sel, Lookup(c, sel).value, ip;
    if d.CallGate? {
      var g := d;
      is32, csSel, d, to := g.is32, g.selector, Lookup(c, g.selector).value, g.offset;
      if !d.ec && d.dpl < s.cpl {
        var (newSs, newEsp) := c.tss(d.dpl).value;
        SwitchedRegs(s, g, d, newSs, Lookup(c, newSs).value, newEsp);
      }
    }
  }

  lemma LinkLeft(s: State, is32: bool, sel: word, d: Descriptor, ip: dword)
    requires Wf(s) && (Big(s.ss.desc) || 2 * Wide(is32) <= Sp(s))
    ensures LinkFor(s, Linked(s, is32, sel, d, ip), is32)
  {
    hide Push, Stack16, Pop, Frame;
    var cs: dword, eip := s.cs.selector, LinkEip(s, is32);
    var u, t := Push(Push(s, is32, cs), is32, eip), Linked(s, is32, sel, d, ip);
    LinkedPushes(s, is32, sel, d, ip, cs);
    SameStack(u, t, is32);
    PushesLow(s, is32);
    TwoFrame(s, is32, cs, eip);
    StackUnit(u, is32, 2, 0, 0);
    StackUnit(u, is32, 2, 1, Wide(is32));
    QuotientUnique(cs, 0x1_0000, 0, cs);
    RplOf(sel, s.cpl);
  }

  lemma LinkedPushes(s: State, is32: bool, sel: word, d: Descriptor, ip: dword, cs: dword)
    requires Wf(s) && cs == s.cs.selector
    ensures Linked(s, is32, sel, d, ip) == LoadCs(Push(Push(s, is32, cs), is32, LinkEip(s, is32)), sel, d, s.cpl).(eip := ip)
    ensures SameRegs(s, Push(Push(s, is32, cs), is32, LinkEip(s, is32)))
  {
    PushSp(s, is32, cs);
    PushSp(Push(s, is32, cs), is32, LinkEip(s, is32));
    hide Write16, Write32, Sp, WithSp;
    if !is32 {
      QuotientUnique(LinkEip(s, false), 0x1_0000, 0, LinkEip(s, false));
    }
  }

  lemma SameStack(u: State, t: State, is32: bool)
    requires |u.mem| == SIZE32 && t.mem == u.mem && t.esp == u.esp && t.ss == u.ss
    ensures Sp(t) == Sp(u) && Pop(t, is32, 0) == Pop(u, is32, 0)
    ensures Stack16(t, Sp(t) + Wide(is32)) == Stack16(u, Sp(u) + Wide(is32))
  {
    hide Read16, Read32;
  }

  lemma TwoFrame(s: State, is32: bool, v: dword, w: dword)
    requires Wf(s) && (Big(s.ss.desc) || 2 * Wide(is32) <= Sp(s)) && Fits(is32, v) && Fits(is32, w)
    ensures var u := Push(Push(s, is32, v), is32, w);
      SameRegs(s, u) && (Sp(u) + 2 * Wide(is32)) % Modulus(s.ss.desc) == Sp(s) && Frame(u, is32, 2) == [w, v]
  {
    hide Push, Frame, Reversed, Below;
    var top := Base(s.ss.desc) + Sp(s);
    var a := Push(s, is32, v);
    StartLeft(s, is32, top, Bytes(is32, 2));
    TwoLeft(s, s, is32, v, w, top, [], 0);
    assert [] + [v, w] == [v, w];
    FrameRead(Push(a, is32, w), is32, top, [v, w]);
    ReversedPair(v, w);
    PushSp(s, is32, v);
    PushSp(a, is32, w);
    LowerTwice(Sp(s), Wide(is32), Modulus(s.ss.desc));
  }

  lemma LowerTwice(x: dword, n: nat, m: nat)
    requires n < 0x1000 && m in {0x1_0000, SIZE32} && x < m
    ensures (((x - n) % m - n) % m + 2 * n) % m == x
  {
    var y := (x - n) % m;
    var q := if x < n then -1 else 0;
    QuotientUnique(x - n, m, q, x - n - q * m);
    var r := if y < n then -1 else 0;
    QuotientUnique(y - n, m, r, y - n - r * m);
    QuotientUnique(x - q * m - r * m, m, -q - r, x);
  }

  lemma SameLevelDone(c: Config, s: State, s2: State, is32: bool, nbytes: nat)
    requires Wf(s) && Returnable(c, s) && LinkFor(s, s2, is32)
    requires c.popRoom(s2.ss.desc, Sp(s2), nbytes + 2 * Wide(is32))
    ensures RestoredBy(s, RetFar(c, s2, is32, nbytes), LinkEip(s, is32), Sp(s), nbytes)
  {
    hide Stack16, Pop;
    RplOf(s.cs.selector, s.cpl);
    Higher(s, s2, 2 * Wide(is32), nbytes);
  }

  lemma Higher(s: State, s2: State, n: nat, nbytes: nat)
    requires s2.ss == s.ss && (Sp(s2) + n) % Modulus(s.ss.desc) == Sp(s)
    ensures Sp(WithSp(s2, Sp(s2) + nbytes + n)) == (Sp(s) + nbytes) % Modulus(s.ss.desc)
  {
    var m, x := Modulus(s.ss.desc), Sp(s2) + n;
    var q := (Sp(s) + nbytes) / m;
    QuotientUnique(x + nbytes, m, x / m + q, (Sp(s) + nbytes) % m);
    if !Big(s.ss.desc) {
      LowHalf(s2.esp, (Sp(s2) + nbytes + n) % 0x1_0000);
    }
  }

  lemma ModEither(x: int, y: int)
    requires x == y || x == y + SIZE32
    ensures x % SIZE32 == y % SIZE32
  {
    QuotientUnique(x, SIZE32, y / SIZE32 + (if x == y then 0 else 1), y % SIZE32);
  }
}
