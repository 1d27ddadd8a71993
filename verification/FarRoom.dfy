/** The room a call to an inner level checks for, and the room its pushes take. */
module FarRoom {
  import opened Words
  import opened Wrappers
  import opened FarTransfer
  import opened FarPrivilege
  import opened FarRoundTrip
  import opened FarLevels

  /** SS:ESP, the parameters and CS:EIP, all of the gate's width. */
  function PushedSize(g: Descriptor): nat
    requires g.CallGate?
  {
    Bytes(g.is32, g.count + 4)
  }

  lemma LowerBy(x: int, a: nat, b: nat, m: nat)
    requires m > 0
    ensures ((x - a) % m - b) % m == (x - a - b) % m
  {
    var y := (x - a) % m;
    QuotientUnique(x - a - b, m, (x - a) / m + (y - b) / m, (y - b) % m);
  }

  lemma {:induction false} PushAllSp(s: State, is32: bool, ps: seq<dword>)
    requires |s.mem| == SIZE32
    ensures var t := PushAll(s, is32, ps);
      SameRegs(s, t) && Sp(t) == (Sp(s) - Bytes(is32, |ps|)) % Modulus(s.ss.desc)
    decreases |ps|
  {
    hide Push, Sp, Modulus;
    if ps == [] {
      PointerReduced(s);
    } else {
      var v, rest := ps[|ps| - 1], ps[..|ps| - 1];
      PushSp(s, is32, v);
      PushAllSp(Push(s, is32, v), is32, rest);
      LowerBy(Sp(s), Wide(is32), Bytes(is32, |rest|), Modulus(s.ss.desc));
    }
  }

  lemma PointerReduced(s: State)
    ensures Sp(s) % Modulus(s.ss.desc) == Sp(s)
  {
    QuotientUnique(Sp(s), Modulus(s.ss.desc), 0, Sp(s));
  }

  /** The call leaves the inner stack pointer as many bytes lower as it pushes. */
  lemma SwitchedSp(s: State, g: Descriptor, d: Descriptor, newSs: word, sd: Descriptor, newEsp: dword)
    requires g.CallGate? && d.Segment? && |s.mem| == SIZE32
    ensures var t0, t := OnInnerStack(s, g, d, newSs, sd, newEsp), Switched(s, g, d, newSs, sd, newEsp);
      t.ss.desc == sd && Sp(t) == (Sp(t0) - PushedSize(g)) % Modulus(sd)
  {
    hide Push, PushAll, Sp, Modulus;
    var t0, ps := OnInnerStack(s, g, d, newSs, sd, newEsp), Parameters(s, g.is32, g.count);
    ParametersLength(s, g.is32, g.count);
    PushesLower(t0, g.is32, s.ss.selector, Sp(s), ps, s.cs.selector, s.eip);
    assert t0.ss.desc == sd;
  }

  lemma PushesLower(t0: State, is32: bool, ss: dword, sp: dword, ps: seq<dword>, cs: dword, eip: dword)
    requires |t0.mem| == SIZE32
    ensures var t := Push(Push(PushAll(Push(Push(t0, is32, ss), is32, sp), is32, ps), is32, cs), is32, eip);
      SameRegs(t0, t) && Sp(t) == (Sp(t0) - Bytes(is32, |ps| + 4)) % Modulus(t0.ss.desc)
  {
    hide Push, PushAll, Sp, Modulus;
    var b := Push(Push(t0, is32, ss), is32, sp);
    var e := PushAll(b, is32, ps);
    TwoLower(t0, is32, ss, sp);
    PushAllSp(b, is32, ps);
    TwoLower(e, is32, cs, eip);
    var x, m, n := Sp(t0), Modulus(t0.ss.desc), Bytes(is32, |ps|);
    LowerBy(x, 2 * Wide(is32), n, m);
    LowerBy(x - 2 * Wide(is32), n, 2 * Wide(is32), m);
  }

  lemma TwoLower(s: State, is32: bool, v: dword, w: dword)
    requires |s.mem| == SIZE32
    ensures var t := Push(Push(s, is32, v), is32, w);
      SameRegs(s, t) && Sp(t) == (Sp(s) - 2 * Wide(is32)) % Modulus(s.ss.desc)
  {
    hide Push, Sp, Modulus;
    PushSp(s, is32, v);
    PushSp(Push(s, is32, v), is32, w);
    LowerBy(Sp(s), Wide(is32), Wide(is32), Modulus(s.ss.desc));
  }

  /** The pushes take exactly the room that was checked if and only if gate and code segment have the
      same width. */
  lemma RoomExact(s: State, g: Descriptor, d: Descriptor, newSs: word, sd: Descriptor, newEsp: dword)
    requires g.CallGate? && g.count < 32 && d.Segment? && |s.mem| == SIZE32
    ensures var t0, t := OnInnerStack(s, g, d, newSs, sd, newEsp), Switched(s, g, d, newSs, sd, newEsp);
      Sp(t) == (Sp(t0) - CheckedSize(g, d)) % Modulus(sd) <==> d.big == g.is32
  {
    var t0 := OnInnerStack(s, g, d, newSs, sd, newEsp);
    SwitchedSp(s, g, d, newSs, sd, newEsp);
    hide Switched, OnInnerStack, Sp;
    if d.big != g.is32 {
      ApartBy(Sp(t0) - PushedSize(g), Sp(t0) - CheckedSize(g, d), Modulus(sd));
    }
  }

  lemma ApartBy(a: int, b: int, m: nat)
    requires m >= 0x1_0000 && (a == b + 8 || b == a + 8)
    ensures a % m != b % m
  {
    if a % m == b % m {
      var d := a / m - b / m;
      assert a - b == d * m by {
        assert a == a / m * m + a % m && b == b / m * m + b % m;
      }
      if d >= 1 { TimesAtLeast(d, m); } else if d <= -1 { TimesAtLeast(-d, m); }
    }
  }

  // ---- the check itself, and calls it is wrong about ----

  /** Room for n bytes below sp, as the emulator checks it, all arithmetic in 32 bits. */
  predicate PushRoom(d: Descriptor, sp: dword, n: nat) {
    && WritableData(d) && d.present && n > 0
    && var size := if d.big then SIZE32 else 0x1_0000;
       var top := (sp - 1) % size;
       var start := (top - (n - 1)) % size;
       if d.ec then
         d.limit == 0 || (n - 1 <= (size - 1 - d.limit) % SIZE32 && start <= top && start >= d.limit)
       else
         d.limit == size - 1 || (n - 1 <= d.limit && start <= top && top <= (d.limit + 1) % SIZE32)
  }

  const CODE_16 := Segment(true, false, true, 0, true, false, 0, 0xFFFF)
  const CODE_32 := Segment(true, false, true, 0, true, true, 0, 0xFFFF)
  const INNER_STACK := Segment(false, false, true, 0, true, true, 0, 0xFFF)

  /** A level 3 program with a gate without parameters to level 0 code, and eight bytes of inner stack. */
  function GateConfig(is32: bool, code: Descriptor): Config {
    Config(map[2 := USER_CODE, 4 := USER_STACK, 6 := CallGate(is32, 0x20, 0, 0, 3, true), 8 := code, 10 := INNER_STACK],
           level => if level == 0 then Some((0x28, 8)) else None,
           (d: Descriptor, sp: dword, n: nat) => PushRoom(d, sp, n), (_, _, _) => true, {})
  }

  function Caller(): State {
    State(SegReg(0x0B, USER_CODE), 0, SegReg(0x13, USER_STACK), 0x1000, 3, {}, NO_DATA, seq(SIZE32, _ => 0))
  }

  /** Through a 32-bit gate to 16-bit code: eight bytes are checked, sixteen are pushed, and the stack
      pointer wraps below the segment. */
  lemma RoomShort() returns (c: Config, s: State)
    ensures Proper(c, s) && CallFar(c, s, true, 0x1B, 0).Done?
    ensures var t := CallFar(c, s, true, 0x1B, 0).s;
      t.ss.desc == INNER_STACK && Sp(t) == 0xFFFF_FFF8 && !PushRoom(INNER_STACK, 8, 16)
  {
    c, s := GateConfig(true, CODE_16), Caller();
    var g := CallGate(true, 0x20, 0, 0, 3, true);
    CallerProper(true, CODE_16);
    ShortPasses(g);
    hide GateConfig, Caller, Proper, CallFar, Switched, PushRoom;
    InnerSp(s, g);
    SixteenTooMany();
  }

  lemma CallerProper(is32: bool, code: Descriptor)
    ensures Proper(GateConfig(is32, code), Caller())
  {
  }

  lemma SixteenTooMany()
    ensures PushRoom(INNER_STACK, 8, 8) && !PushRoom(INNER_STACK, 8, 16)
  {
  }

  lemma ShortPasses(g: Descriptor)
    requires g == CallGate(true, 0x20, 0, 0, 3, true)
    ensures CallFar(GateConfig(true, CODE_16), Caller(), true, 0x1B, 0) == Done(Switched(Caller(), g, CODE_16, 0x28, INNER_STACK, 8))
  {
    hide Switched;
    var c, s := GateConfig(true, CODE_16), Caller();
    GateOnly(c, s, true, 0x1B, 0, g);
    assert CallInner(c, s, g, CODE_16) == Done(Switched(s, g, CODE_16, 0x28, INNER_STACK, 8));
  }

  lemma InnerSp(s: State, g: Descriptor)
    requires |s.mem| == SIZE32 && g == CallGate(true, 0x20, 0, 0, 3, true)
    ensures var t := Switched(s, g, CODE_16, 0x28, INNER_STACK, 8);
      t.ss.desc == INNER_STACK && Sp(t) == 0xFFFF_FFF8
  {
    hide Switched, OnInnerStack, Sp;
    SwitchedSp(s, g, CODE_16, 0x28, INNER_STACK, 8);
    InnerPointer(s, g, CODE_16, 0x28, INNER_STACK, 8);
  }

  lemma InnerPointer(s: State, g: Descriptor, d: Descriptor, newSs: word, sd: Descriptor, newEsp: dword)
    requires |s.mem| == SIZE32 && g.CallGate? && d.Segment? && Big(sd)
    ensures Sp(OnInnerStack(s, g, d, newSs, sd, newEsp)) == newEsp
  {
  }

  /** Through a 16-bit gate to 32-bit code: the eight bytes pushed would fit, but sixteen are checked. */
  lemma RoomRefused() returns (c: Config, s: State)
    ensures Proper(c, s) && PushRoom(INNER_STACK, 8, 8)
    ensures CallFar(c, s, true, 0x1B, 0) == Fault(SS, 0x28)
  {
    c, s := GateConfig(false, CODE_32), Caller();
    CallerProper(false, CODE_32);
    SixteenRefused(CallGate(false, 0x20, 0, 0, 3, true));
    hide GateConfig, Caller, Proper, CallFar, PushRoom;
    SixteenTooMany();
  }

  lemma SixteenRefused(g: Descriptor)
    requires g == CallGate(false, 0x20, 0, 0, 3, true)
    ensures CallFar(GateConfig(false, CODE_32), Caller(), true, 0x1B, 0) == Fault(SS, 0x28)
  {
    SixteenTooMany();
    hide PushRoom, Switched;
    var c, s := GateConfig(false, CODE_32), Caller();
    GateOnly(c, s, true, 0x1B, 0, g);
    assert CallInner(c, s, g, CODE_32) == Fault(SS, 0x28);
  }
}
