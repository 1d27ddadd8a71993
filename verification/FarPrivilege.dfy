/** Privilege over whole runs of far transfers. */
module FarPrivilege {
  import opened Words
  import opened Wrappers
  import opened FarTransfer

  datatype Event =
    | Jmp(sel: word, ip: dword)
    | Call(op32: bool, sel: word, ip: dword)
    | Ret(op32: bool, nbytes: nat)
    | InterruptReturn(op32: bool)
    | Load(k: nat, sel: word)
    | PopFlags(op32: bool)
    | SetInterrupt(on: bool)
    | Local(eip: dword, esp: dword, mem: seq<byte>, flags: set<nat>)

  ghost predicate Wf(s: State) {
    |s.mem| == SIZE32 && |s.data| == 4 && s.cpl < 4
  }

  /** One instruction; a faulting one leaves the registers to the exception handler. */
  function Execute(c: Config, s: State, e: Event): Outcome
    requires Wf(s)
  {
    match e
    case Jmp(sel, ip) => JmpFar(c, s, sel, ip)
    case Call(op32, sel, ip) => CallFar(c, s, op32, sel, ip)
    case Ret(op32, nbytes) => RetFar(c, s, op32, nbytes)
    case InterruptReturn(op32) => Iret(c, s, op32)
    case Load(k, sel) => if k < |s.data| then LoadData(c, s, k, sel) else Done(s)
    case PopFlags(op32) => Popf(c, s, op32)
    case SetInterrupt(on) => Interruptible(s, on)
    case Local(eip, esp, mem, flags) => Done(Computed(s, eip, esp, mem, flags))
  }

  /** Any other instruction: a new instruction pointer, stack pointer, memory and condition flags. */
  function Computed(s: State, eip: dword, esp: dword, mem: seq<byte>, flags: set<nat>): State
    requires Wf(s)
  {
    s.(eip := eip, esp := esp, mem := if |mem| == SIZE32 then mem else s.mem,
       flags := s.flags - CONDITION + flags * CONDITION)
  }

  function Step(c: Config, s: State, e: Event): State
    requires Wf(s)
  {
    match Execute(c, s, e)
    case Done(t) => t
    case _ => s
  }

  /** No data register holds a segment more privileged than the program. */
  ghost predicate SafeData(s: State) {
    forall k :: 0 <= k < |s.data| ==> SafeReg(s.data[k], s.cpl)
  }

  ghost predicate SafeReg(r: SegReg, cpl: nat) {
    match r.desc
    case NullDescriptor => true
    case Segment(code, ec, _, dpl, _, _, _, _) => (code && ec) || cpl <= dpl
    case _ => false
  }

  /** The call goes through a gate to non-conforming code of level cpl. */
  ghost predicate InnerGate(c: Config, e: Event, cpl: nat) {
    && e.Call?
    && Lookup(c, e.sel).Some? && Lookup(c, e.sel).value.CallGate?
    && var g := Lookup(c, e.sel).value;
       var d := Lookup(c, g.selector);
       d.Some? && d.value.Segment? && d.value.code && !d.value.ec && d.value.dpl == cpl
  }

  ghost predicate LevelsMatch(s: State) {
    Rpl(s.cs.selector) == s.cpl
  }

  // ---- stack helpers leave everything but ESP and memory alone ----

  ghost predicate SameRegs(s: State, t: State) {
    s.cs == t.cs && s.ss == t.ss && s.cpl == t.cpl && s.data == t.data && s.eip == t.eip && |t.mem| == |s.mem|
  }

  lemma {:induction false} PushAllSame(s: State, is32: bool, ps: seq<dword>)
    requires |s.mem| == SIZE32
    ensures SameRegs(s, PushAll(s, is32, ps))
    decreases |ps|
  {
    if ps != [] {
      PushAllSame(Push(s, is32, ps[|ps| - 1]), is32, ps[..|ps| - 1]);
    }
  }

  lemma SwitchedRegs(s: State, g: Descriptor, d: Descriptor, newSs: word, sd: Descriptor, newEsp: dword)
    requires g.CallGate? && d.Segment? && |s.mem| == SIZE32
    ensures var t := Switched(s, g, d, newSs, sd, newEsp);
      && t.cpl == d.dpl % 4 && t.eip == g.offset && t.data == s.data && |t.mem| == SIZE32
      && t.cs == SegReg(WithRpl(g.selector, d.dpl), d) && t.ss == SegReg(WithRpl(newSs, DplOf(sd)), sd)
  {
    var t0 := OnInnerStack(s, g, d, newSs, sd, newEsp);
    var t1 := Push(Push(t0, g.is32, s.ss.selector), g.is32, Sp(s));
    PushAllSame(t1, g.is32, Parameters(s, g.is32, g.count));
  }

  lemma RplOf(sel: word, cpl: nat)
    requires cpl < 4
    ensures Rpl(WithRpl(sel, cpl)) == cpl && Index(WithRpl(sel, cpl)) == Index(sel)
    ensures Rpl(sel) < 4 && WithRpl(sel, Rpl(sel)) == sel
  {
  }

  // ---- one step ----

  lemma JmpLevel(c: Config, s: State, sel: word, ip: dword)
    requires Wf(s)
    ensures JmpFar(c, s, sel, ip).Done? ==>
      var t := JmpFar(c, s, sel, ip).s;
      t.cpl == s.cpl && t.data == s.data && |t.mem| == SIZE32 && LevelsMatch(t)
  {
    if JmpFar(c, s, sel, ip).Done? {
      RplOf(sel, s.cpl);
      if Lookup(c, sel).value.CallGate? {
        RplOf(Lookup(c, sel).value.selector, s.cpl);
      }
    }
  }

  lemma CallLevel(c: Config, s: State, e: Event)
    requires Wf(s) && e.Call? && CallFar(c, s, e.op32, e.sel, e.ip).Done?
    ensures var t := CallFar(c, s, e.op32, e.sel, e.ip).s;
      && t.cpl <= s.cpl && t.data == s.data && |t.mem| == SIZE32 && LevelsMatch(t)
      && (t.cpl < s.cpl ==> InnerGate(c, e, t.cpl))
  {
    var d := Lookup(c, e.sel).value;
    RplOf(e.sel, s.cpl);
    if d.CallGate? {
      RplOf(d.selector, s.cpl);
      var t := Lookup(c, d.selector).value;
      if !t.ec && t.dpl < s.cpl {
        RplOf(d.selector, t.dpl);
        var (newSs, newEsp) := c.tss(t.dpl).value;
        SwitchedRegs(s, d, t, newSs, Lookup(c, newSs).value, newEsp);
      }
    }
  }

  /** The outward return's inspection of one data register. */
  lemma SanitizedSafe(c: Config, r: SegReg, cpl: nat, level: nat)
    requires SafeReg(r, cpl)
    ensures SafeReg(Sanitized(c, r, level), level) && SafeReg(Screened(r, level), level)
  {
  }

  lemma RetOuterLevel(c: Config, s: State, op32: bool, nbytes: nat, sel: word, d: Descriptor, ip: dword)
    requires Wf(s) && SafeData(s) && d.Segment?
    ensures RetOuter(c, s, op32, nbytes, sel, d, ip).Done? ==>
      var t := RetOuter(c, s, op32, nbytes, sel, d, ip).s;
      t.cpl == Rpl(sel) && LevelsMatch(t) && Wf(t) && SafeData(t)
  {
    if RetOuter(c, s, op32, nbytes, sel, d, ip).Done? {
      RplOf(sel, Rpl(sel));
      forall k | 0 <= k < |s.data| ensures SafeReg(Sanitized(c, s.data[k], Rpl(sel)), Rpl(sel)) {
        SanitizedSafe(c, s.data[k], s.cpl, Rpl(sel));
      }
    }
  }

  lemma RetLevel(c: Config, s: State, op32: bool, nbytes: nat)
    requires Wf(s) && SafeData(s)
    ensures RetFar(c, s, op32, nbytes).Done? ==>
      var t := RetFar(c, s, op32, nbytes).s;
      && s.cpl <= t.cpl < 4 && LevelsMatch(t) && Wf(t) && SafeData(t)
  {
    if RetFar(c, s, op32, nbytes).Done? {
      var sel := Stack16(s, Sp(s) + if op32 then 4 else 2);
      var d := Lookup(c, sel).value;
      RplOf(sel, Rpl(sel));
      if Rpl(sel) == s.cpl {
        SaferInside(s, RetFar(c, s, op32, nbytes).s);
      } else {
        RetOuterLevel(c, s, op32, nbytes, sel, d, Pop(s, op32, 0));
      }
    }
  }

  lemma IretOuterLevel(c: Config, s: State, op32: bool, sel: word, d: Descriptor, ip: dword, image: set<nat>)
    requires Wf(s) && SafeData(s) && d.Segment?
    ensures IretOuter(c, s, op32, sel, d, ip, image).Done? ==>
      var t := IretOuter(c, s, op32, sel, d, ip, image).s;
      t.cpl == Rpl(sel) && LevelsMatch(t) && Wf(t) && SafeData(t)
  {
    if IretOuter(c, s, op32, sel, d, ip, image).Done? {
      RplOf(sel, Rpl(sel));
      forall k | 0 <= k < |s.data| ensures SafeReg(Screened(s.data[k], Rpl(sel)), Rpl(sel)) {
        SanitizedSafe(c, s.data[k], s.cpl, Rpl(sel));
      }
    }
  }

  lemma IretSameLevel(c: Config, s: State, op32: bool, sel: word, d: Descriptor, ip: dword, image: set<nat>)
    requires Wf(s) && SafeData(s) && d.Segment? && Rpl(sel) == s.cpl
    ensures IretSame(c, s, op32, sel, d, ip, image).Done? ==>
      var t := IretSame(c, s, op32, sel, d, ip, image).s;
      t.cpl == s.cpl && LevelsMatch(t) && Wf(t) && SafeData(t) && t.cs.desc == d && t.ss == s.ss
  {
    if IretSame(c, s, op32, sel, d, ip, image).Done? {
      RplOf(sel, s.cpl);
      SaferInside(s, IretSame(c, s, op32, sel, d, ip, image).s);
    }
  }

  /** An IRET that succeeds has read a code selector for this level or an outer one. */
  lemma IretSplit(c: Config, s: State, op32: bool) returns (sel: word, d: Descriptor, ip: dword, image: set<nat>)
    requires Wf(s)
    ensures Iret(c, s, op32).Done? ==>
      && sel == Stack16(s, Sp(s) + if op32 then 4 else 2)
      && ip == Pop(s, op32, 0) && image == Bits(Pop(s, op32, if op32 then 8 else 4))
      && Lookup(c, sel) == Some(d) && d.Segment?
      && s.cpl <= Rpl(sel) < 4 && (d.ec ==> d.dpl <= Rpl(sel))
      && VM !in s.flags && !(VM in image && s.cpl == 0)
      && Iret(c, s, op32) ==
           if Rpl(sel) > s.cpl then IretOuter(c, s, op32, sel, d, ip, image) else IretSame(c, s, op32, sel, d, ip, image)
  {
    hide IretOuter, IretSame, Bits;
    sel, d, ip, image := 0, NullDescriptor, 0, {};
    if Iret(c, s, op32).Done? {
      var w := if op32 then 4 else 2;
      sel, ip, image := Stack16(s, Sp(s) + w), Pop(s, op32, 0), Bits(Pop(s, op32, 2 * w));
      d := Lookup(c, sel).value;
    }
  }

  lemma IretLevel(c: Config, s: State, op32: bool)
    requires Wf(s) && SafeData(s)
    ensures Iret(c, s, op32).Done? ==>
      var t := Iret(c, s, op32).s;
      && s.cpl <= t.cpl < 4 && LevelsMatch(t) && Wf(t) && SafeData(t)
  {
    hide Iret, IretOuter, IretSame;
    if Iret(c, s, op32).Done? {
      var sel, d, ip, image := IretSplit(c, s, op32);
      if Rpl(sel) > s.cpl {
        IretOuterLevel(c, s, op32, sel, d, ip, image);
      } else {
        IretSameLevel(c, s, op32, sel, d, ip, image);
      }
    }
  }

  lemma SaferInside(s: State, t: State)
    requires SafeData(s) && t.data == s.data && t.cpl <= s.cpl
    ensures SafeData(t)
  {
    forall k | 0 <= k < |t.data| ensures SafeReg(t.data[k], t.cpl) {
      assert SafeReg(s.data[k], s.cpl);
    }
  }

  /** One instruction: only a call through an inner gate lowers CPL, a jump never changes it, a
      return never lowers it; and no data register ends up above the program's privilege. */
  lemma StepPrivilege(c: Config, s: State, e: Event)
    requires Wf(s) && SafeData(s) && LevelsMatch(s)
    ensures var t := Step(c, s, e);
      && Wf(t) && SafeData(t) && LevelsMatch(t)
      && (t.cpl < s.cpl ==> InnerGate(c, e, t.cpl))
      && (e.Jmp? ==> t.cpl == s.cpl)
      && (e.Ret? || e.InterruptReturn? ==> s.cpl <= t.cpl)
  {
    if Execute(c, s, e).Done? {
      var t := Step(c, s, e);
      match e
      case Jmp(sel, ip) =>
        JmpLevel(c, s, sel, ip);
        SaferInside(s, t);
      case Call(op32, sel, ip) =>
        CallLevel(c, s, e);
        SaferInside(s, t);
      case Ret(op32, nbytes) =>
        RetLevel(c, s, op32, nbytes);
      case InterruptReturn(op32) => IretLevel(c, s, op32);
      case Load(k, sel) =>
      case _ =>
        SaferInside(s, t);
    }
  }

  // ---- whole runs ----

  function Run(c: Config, s: State, es: seq<Event>): (t: State)
    requires Wf(s) && SafeData(s) && LevelsMatch(s)
    ensures Wf(t) && SafeData(t) && LevelsMatch(t)
    decreases |es|
  {
    if es == [] then s
    else
      StepPrivilege(c, s, es[0]);
      Run(c, Step(c, s, es[0]), es[1..])
  }

  /** Event i of the run takes the program from level b or above to a level below b, through a gate
      to non-conforming code of that level. */
  ghost predicate Crosses(c: Config, s: State, es: seq<Event>, i: nat, b: nat)
    requires Wf(s) && SafeData(s) && LevelsMatch(s) && i < |es|
  {
    var before := Run(c, s, es[..i]);
    var after := Step(c, before, es[i]);
    b <= before.cpl && after.cpl < b && InnerGate(c, es[i], after.cpl)
  }

  lemma RunCons(c: Config, s: State, es: seq<Event>, i: nat)
    requires Wf(s) && SafeData(s) && LevelsMatch(s) && i < |es|
    ensures Wf(Step(c, s, es[0])) && SafeData(Step(c, s, es[0])) && LevelsMatch(Step(c, s, es[0]))
    ensures Run(c, s, es[..i + 1]) == Run(c, Step(c, s, es[0]), es[1..][..i])
  {
    StepPrivilege(c, s, es[0]);
    assert es[..i + 1][1..] == es[1..][..i];
  }

  /** Over any run of far transfers, segment loads and ordinary instructions no data register ever
      holds a segment above the program's privilege, and a program that ends below level b, having
      started at b or above, has gone below it in a call through a gate to inner non-conforming code. */
  lemma {:induction false} RunPrivilege(c: Config, s: State, es: seq<Event>, b: nat)
    requires Wf(s) && SafeData(s) && LevelsMatch(s) && b <= s.cpl
    ensures Wf(Run(c, s, es)) && SafeData(Run(c, s, es)) && LevelsMatch(Run(c, s, es))
    ensures Run(c, s, es).cpl < b ==> exists i: nat :: i < |es| && Crosses(c, s, es, i, b)
    decreases |es|
  {
    if es != [] {
      StepPrivilege(c, s, es[0]);
      var t := Step(c, s, es[0]);
      if t.cpl < b {
        assert es[..0] == [];
        assert Crosses(c, s, es, 0, b);
      } else {
        RunPrivilege(c, t, es[1..], b);
        if Run(c, s, es).cpl < b {
          var i: nat :| i < |es[1..]| && Crosses(c, t, es[1..], i, b);
          RunCons(c, s, es, i);
          assert Crosses(c, s, es, i + 1, b);
        }
      }
    }
  }
}
