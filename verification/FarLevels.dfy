/** Which level checks RETF and IRET leave out: the level of the code they return to, and of the
    stack an IRET returns on. */
module FarLevels {
  import opened Words
  import opened Wrappers
  import opened FarTransfer
  import opened FarPrivilege
  import opened FarRoundTrip

  /** The rule for executing code segment d at level cpl: conforming code may be more privileged,
      other code must match. */
  predicate LevelRule(d: Descriptor, cpl: nat)
    requires d.Segment?
  {
    if d.ec then d.dpl <= cpl else d.dpl == cpl
  }

  ghost predicate CodeFits(s: State) {
    s.cs.desc.Segment? && LevelRule(s.cs.desc, s.cpl)
  }

  ghost predicate StackFits(s: State) {
    s.ss.desc.Segment? && s.ss.desc.dpl == s.cpl
  }

  /** The code selector a return finds on the stack. */
  function Target(s: State, op32: bool): word
    requires |s.mem| == SIZE32
  {
    Stack16(s, Sp(s) + if op32 then 4 else 2)
  }

  /** The stack selector an IRET to an outer level finds. */
  function OuterStack(s: State, op32: bool): word
    requires |s.mem| == SIZE32
  {
    Stack16(s, Sp(s) + if op32 then 16 else 8)
  }

  // ---- the code segment after a return ----

  lemma RetSplit(c: Config, s: State, op32: bool, nbytes: nat) returns (sel: word, d: Descriptor, ip: dword)
    requires Wf(s)
    ensures RetFar(c, s, op32, nbytes).Done? ==>
      && sel == Target(s, op32) && Lookup(c, sel) == Some(d) && d.Segment? && d.code && d.present
      && s.cpl <= Rpl(sel) < 4 && (d.ec || d.dpl <= Rpl(sel))
      && if Rpl(sel) > s.cpl then RetFar(c, s, op32, nbytes) == RetOuter(c, s, op32, nbytes, sel, d, ip)
         else SameCode(s, RetFar(c, s, op32, nbytes), sel, d)
  {
    hide RetOuter;
    sel, d, ip := 0, NullDescriptor, 0;
    if RetFar(c, s, op32, nbytes).Done? {
      sel, ip := Target(s, op32), Pop(s, op32, 0);
      d := Lookup(c, sel).value;
      RplOf(sel, s.cpl);
    }
  }

  /** The return stayed at the level, on the stack segment, and entered d. */
  ghost predicate SameCode(s: State, r: Outcome, sel: word, d: Descriptor) {
    r.Done? && r.s.cs == SegReg(WithRpl(sel, s.cpl), d) && r.s.cpl == s.cpl && r.s.ss == s.ss
  }

  lemma RetOuterCode(c: Config, s: State, op32: bool, nbytes: nat, sel: word, d: Descriptor, ip: dword)
    requires Wf(s) && d.Segment?
    ensures RetOuter(c, s, op32, nbytes, sel, d, ip).Done? ==>
      var t := RetOuter(c, s, op32, nbytes, sel, d, ip).s;
      t.cs.desc == d && t.cpl == Rpl(sel) && StackFits(t)
  {
    if RetOuter(c, s, op32, nbytes, sel, d, ip).Done? {
      RplOf(sel, Rpl(sel));
    }
  }

  /** RETF enters the code segment the stack names at the level of its selector. Of the rule for that
      segment and level it checks one half, so the rule holds exactly when the other half does: for
      conforming code, that it is no less privileged; for other code, that it is no more privileged. */
  lemma RetLevelRule(c: Config, s: State, op32: bool, nbytes: nat)
    requires Wf(s)
    ensures RetFar(c, s, op32, nbytes).Done? ==>
      var t, sel := RetFar(c, s, op32, nbytes).s, Target(s, op32);
      && Lookup(c, sel).Some? && t.cs.desc == Lookup(c, sel).value && t.cpl == Rpl(sel)
      && var d := Lookup(c, sel).value;
         d.Segment? && (CodeFits(t) <==> if d.ec then d.dpl <= Rpl(sel) else Rpl(sel) <= d.dpl)
  {
    hide RetFar, RetOuter;
    if RetFar(c, s, op32, nbytes).Done? {
      var sel, d, ip := RetSplit(c, s, op32, nbytes);
      if Rpl(sel) > s.cpl {
        RetOuterCode(c, s, op32, nbytes, sel, d, ip);
      }
    }
  }

  lemma IretOuterCode(c: Config, s: State, op32: bool, sel: word, d: Descriptor, ip: dword, image: set<nat>)
    requires Wf(s) && d.Segment?
    ensures IretOuter(c, s, op32, sel, d, ip, image).Done? ==>
      var t, ss := IretOuter(c, s, op32, sel, d, ip, image).s, OuterStack(s, op32);
      && t.cs.desc == d && t.cpl == Rpl(sel)
      && Lookup(c, ss).Some? && t.ss.desc == Lookup(c, ss).value && t.ss.desc.Segment?
  {
    hide IretGuarded, MapRegs, Stack16, Pop;
    if IretOuter(c, s, op32, sel, d, ip, image).Done? {
      RplOf(sel, Rpl(sel));
      var w := if op32 then 4 else 2;
      assert Sp(s) + 4 * w == Sp(s) + if op32 then 16 else 8;
    }
  }

  lemma IretSameCode(c: Config, s: State, op32: bool, sel: word, d: Descriptor, ip: dword, image: set<nat>)
    requires Wf(s) && d.Segment?
    ensures IretSame(c, s, op32, sel, d, ip, image).Done? ==> SameCode(s, IretSame(c, s, op32, sel, d, ip, image), sel, d)
  {
  }

  /** IRET checks the level of conforming code only, so after it the rule holds exactly when the code
      is conforming or has the level of the selector. */
  lemma IretLevelRule(c: Config, s: State, op32: bool)
    requires Wf(s)
    ensures Iret(c, s, op32).Done? ==>
      var t, sel := Iret(c, s, op32).s, Target(s, op32);
      && Lookup(c, sel).Some? && t.cs.desc == Lookup(c, sel).value && t.cpl == Rpl(sel)
      && var d := Lookup(c, sel).value; d.Segment? && (CodeFits(t) <==> d.ec || d.dpl == Rpl(sel))
  {
    if Iret(c, s, op32).Done? {
      var sel, d, ip, image := IretCode(c, s, op32);
    }
  }

  lemma IretCode(c: Config, s: State, op32: bool) returns (sel: word, d: Descriptor, ip: dword, image: set<nat>)
    requires Wf(s)
    ensures Iret(c, s, op32).Done? ==>
      var t := Iret(c, s, op32).s;
      && sel == Target(s, op32) && Lookup(c, sel) == Some(d) && d.Segment? && (d.ec ==> d.dpl <= Rpl(sel))
      && s.cpl <= Rpl(sel) && t.cs.desc == d && t.cpl == Rpl(sel)
      && (Rpl(sel) > s.cpl ==>
            var ss := OuterStack(s, op32); Lookup(c, ss).Some? && t.ss.desc == Lookup(c, ss).value && t.ss.desc.Segment?)
      && (Rpl(sel) == s.cpl ==> t.ss == s.ss)
  {
    hide Iret, IretOuter, IretSame;
    sel, d, ip, image := 0, NullDescriptor, 0, {};
    if Iret(c, s, op32).Done? {
      sel, d, ip, image := IretSplit(c, s, op32);
      if Rpl(sel) > s.cpl {
        IretOuterCode(c, s, op32, sel, d, ip, image);
      } else {
        IretSameCode(c, s, op32, sel, d, ip, image);
      }
    }
  }

  // ---- what a step and a run keep ----

  /** The program executes code and uses a stack of its own level. */
  ghost predicate Fits(s: State) {
    CodeFits(s) && StackFits(s)
  }

  /** What the code leaves unchecked: after RETF, the other half of the code rule; after IRET, the
      level of non-conforming code and, to an outer level, the level of the stack segment. */
  ghost predicate Checked(c: Config, s: State, e: Event)
    requires Wf(s)
  {
    match e
    case Ret(op32, _) =>
      var d, rpl := Lookup(c, Target(s, op32)), Rpl(Target(s, op32));
      d.Some? && d.value.Segment? ==> if d.value.ec then d.value.dpl <= rpl else rpl <= d.value.dpl
    case InterruptReturn(op32) =>
      var d, rpl, sd := Lookup(c, Target(s, op32)), Rpl(Target(s, op32)), Lookup(c, OuterStack(s, op32));
      && (d.Some? && d.value.Segment? ==> d.value.ec || d.value.dpl == rpl)
      && (rpl > s.cpl && sd.Some? && sd.value.Segment? ==> sd.value.dpl == rpl)
    case _ => true
  }

  lemma JmpFits(c: Config, s: State, sel: word, ip: dword)
    requires Wf(s) && StackFits(s)
    ensures JmpFar(c, s, sel, ip).Done? ==> Fits(JmpFar(c, s, sel, ip).s)
  {
  }

  lemma LinkedFits(s: State, is32: bool, sel: word, d: Descriptor, ip: dword)
    requires Wf(s) && StackFits(s) && d.Segment? && LevelRule(d, s.cpl)
    ensures Fits(Linked(s, is32, sel, d, ip))
  {
    hide Push;
    var u := Push(s, is32, s.cs.selector);
    PushSp(s, is32, s.cs.selector);
    PushSp(u, is32, s.eip);
  }

  lemma CallFits(c: Config, s: State, op32: bool, sel: word, ip: dword)
    requires Wf(s) && StackFits(s)
    ensures CallFar(c, s, op32, sel, ip).Done? ==> Fits(CallFar(c, s, op32, sel, ip).s)
  {
    hide Linked, CallInner;
    if CallFar(c, s, op32, sel, ip).Done? {
      var g := Lookup(c, sel).value;
      if g.Segment? {
        LinkedFits(s, op32, sel, g, ip);
      } else {
        var d := Lookup(c, g.selector).value;
        if !d.ec && d.dpl < s.cpl {
          InnerFits(c, s, g, d);
        } else {
          LinkedFits(s, g.is32, g.selector, d, g.offset);
        }
      }
    }
  }

  lemma InnerFits(c: Config, s: State, g: Descriptor, d: Descriptor)
    requires Wf(s) && g.CallGate? && d.Segment? && !d.ec && d.dpl < s.cpl && CallInner(c, s, g, d).Done?
    ensures Fits(CallInner(c, s, g, d).s)
  {
    hide Switched;
    var (newSs, newEsp) := c.tss(d.dpl).value;
    SwitchedRegs(s, g, d, newSs, Lookup(c, newSs).value, newEsp);
  }

  lemma RetFits(c: Config, s: State, op32: bool, nbytes: nat)
    requires Wf(s) && StackFits(s)
    ensures RetFar(c, s, op32, nbytes).Done? ==> StackFits(RetFar(c, s, op32, nbytes).s)
  {
    hide RetFar, RetOuter;
    if RetFar(c, s, op32, nbytes).Done? {
      var sel, d, ip := RetSplit(c, s, op32, nbytes);
      if Rpl(sel) > s.cpl {
        RetOuterCode(c, s, op32, nbytes, sel, d, ip);
      }
    }
  }

  /** One instruction that succeeds keeps code and stack at the program's level if and only if what
      it leaves unchecked holds; jumps and calls leave nothing unchecked. */
  lemma StepLevels(c: Config, s: State, e: Event)
    requires Wf(s) && Fits(s)
    ensures Execute(c, s, e).Done? ==> (Fits(Step(c, s, e)) <==> Checked(c, s, e))
  {
    hide JmpFar, CallFar, RetFar, Iret;
    if Execute(c, s, e).Done? {
      match e
      case Jmp(sel, ip) => JmpFits(c, s, sel, ip);
      case Call(op32, sel, ip) => CallFits(c, s, op32, sel, ip);
      case Ret(op32, nbytes) =>
        RetLevelRule(c, s, op32, nbytes);
        RetFits(c, s, op32, nbytes);
      case InterruptReturn(op32) =>
        var sel, d, ip, image := IretCode(c, s, op32);
      case _ =>
    }
  }

  /** Event i is a return that succeeds although what it leaves unchecked does not hold. */
  ghost predicate Slips(c: Config, s: State, es: seq<Event>, i: nat)
    requires Wf(s) && SafeData(s) && LevelsMatch(s) && i < |es|
  {
    var before := Run(c, s, es[..i]);
    Fits(before) && Execute(c, before, es[i]).Done? && !Checked(c, before, es[i])
  }

  /** Over any run the program executes code and uses a stack of its own level, unless one of its
      returns slips. */
  lemma {:induction false} RunLevels(c: Config, s: State, es: seq<Event>)
    requires Wf(s) && SafeData(s) && LevelsMatch(s) && Fits(s)
    ensures Fits(Run(c, s, es)) || exists i: nat :: i < |es| && Slips(c, s, es, i)
    decreases |es|
  {
    if es != [] {
      StepPrivilege(c, s, es[0]);
      var t := Step(c, s, es[0]);
      assert es[..0] == [];
      if Execute(c, s, es[0]).Done? {
        StepLevels(c, s, es[0]);
      }
      if !Fits(t) {
        assert Slips(c, s, es, 0);
      } else {
        RunLevels(c, t, es[1..]);
        if !Fits(Run(c, s, es)) {
          var i: nat :| i < |es[1..]| && Slips(c, t, es[1..], i);
          RunCons(c, s, es, i);
          assert Slips(c, s, es, i + 1);
        }
      }
    }
  }

  // ---- returns that slip ----

  const USER_CODE := Segment(true, false, true, 3, true, true, 0, 0xFFFF_FFFF)
  const USER_STACK := Segment(false, false, true, 3, true, true, 0, 0xFFFF_FFFF)
  const KERNEL_CODE := Segment(true, false, true, 0, true, true, 0, 0xFFFF_FFFF)
  const KERNEL_STACK := Segment(false, false, true, 0, true, true, 0, 0xFFFF_FFFF)
  const NO_DATA := [NULL_SEGMENT, NULL_SEGMENT, NULL_SEGMENT, NULL_SEGMENT]

  /** A proper start: everything the run theorems ask for, and its own segments could be returned to. */
  ghost predicate Proper(c: Config, s: State) {
    Wf(s) && SafeData(s) && LevelsMatch(s) && Fits(s) && Returnable(c, s)
  }

  lemma NoBit(i: nat)
    ensures !Bit(0, i)
  {
  }

  /** A level 3 program whose far return goes on at level 3 in level 0 code. */
  lemma RetSlips() returns (c: Config, s: State)
    ensures Proper(c, s) && RetFar(c, s, true, 0).Done?
    ensures var t := RetFar(c, s, true, 0).s;
      t.cpl == 3 && t.cs.desc == KERNEL_CODE && !CodeFits(t)
  {
    c := Config(map[2 := USER_CODE, 4 := USER_STACK, 0x6C6 := KERNEL_CODE], _ => None, (_, _, _) => true, (_, _, _) => true, {});
    s := State(SegReg(0x0B, USER_CODE), 0, SegReg(0x13, USER_STACK), 0, 3, {}, NO_DATA, seq(SIZE32, _ => 0x1B));
    assert Stack16(s, Sp(s) + 4) == 0x1B1B;
  }

  /** A level 0 program whose IRET goes on at level 0 in level 3 code. */
  lemma IretSlips() returns (c: Config, s: State)
    ensures Proper(c, s) && Iret(c, s, true).Done?
    ensures var t := Iret(c, s, true).s;
      t.cpl == 0 && t.cs.desc == USER_CODE && !CodeFits(t)
  {
    c := Config(map[2 := KERNEL_CODE, 4 := KERNEL_STACK, 0x606 := USER_CODE], _ => None, (_, _, _) => true, (_, _, _) => true, {});
    s := State(SegReg(0x08, KERNEL_CODE), 0, SegReg(0x10, KERNEL_STACK), 0, 0, {}, NO_DATA, seq(SIZE32, a => if a < 8 then 0x18 else 0));
    assert Stack16(s, Sp(s) + 4) == 0x1818;
    assert Stack32(s, Sp(s) + 8) == 0;
    NoBit(17);
    hide Stack16, Stack32;
  }

  /** A level 0 program whose IRET goes on at level 3 on a stack of level 0. */
  lemma IretStackSlips() returns (c: Config, s: State)
    ensures Proper(c, s) && Iret(c, s, true).Done?
    ensures var t := Iret(c, s, true).s;
      t.cpl == 3 && CodeFits(t) && t.ss.desc == KERNEL_STACK && !StackFits(t)
  {
    c := Config(map[2 := KERNEL_CODE, 4 := KERNEL_STACK, 0x6C6 := USER_CODE, 0x8C8 := KERNEL_STACK],
                _ => None, (_, _, _) => true, (_, _, _) => true, {});
    s := State(SegReg(0x08, KERNEL_CODE), 0, SegReg(0x10, KERNEL_STACK), 0, 0, {}, NO_DATA,
               seq(SIZE32, a => if a < 8 then 0x1B else if a < 12 then 0 else 0x23));
    assert Stack16(s, Sp(s) + 4) == 0x1B1B;
    assert Stack32(s, Sp(s) + 8) == 0;
    assert Stack16(s, Sp(s) + 16) == 0x2323;
    NoBit(17);
    hide Stack16, Stack32;
  }
}
