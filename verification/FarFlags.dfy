/** Who may change the interrupt flag and the I/O privilege level, over whole runs. */
module FarFlags {
  import opened Words
  import opened FarTransfer
  import opened FarPrivilege

  /** The same interrupt flag, I/O privilege level and mode bit. */
  ghost predicate SameGuarded(f: set<nat>, g: set<nat>) {
    forall b :: b in {IF, VM} + IOPL ==> (b in f <==> b in g)
  }

  /** From s to t the I/O privilege level changed only at level 0, and the interrupt flag only at a
      level not above it. */
  ghost predicate Guarded(s: State, t: State) {
    && VM !in t.flags
    && (s.cpl > 0 ==> IoplOf(t.flags) == IoplOf(s.flags))
    && (s.cpl > IoplOf(s.flags) ==> SameGuarded(s.flags, t.flags))
  }

  lemma LoadKeeps(c: Config, s: State, t: State, image: set<nat>, guarded: set<nat>)
    requires VM !in s.flags && VM !in image * guarded && t.flags == WithFlags(c, s, image, guarded).flags
    requires (s.cpl > 0 ==> 12 !in guarded && 13 !in guarded) && (s.cpl > IoplOf(s.flags) ==> IF !in guarded)
    ensures Guarded(s, t)
  {
  }

  /** The far transfers other than IRET carry the flags along. */
  lemma {:induction false} PushAllFlags(s: State, is32: bool, ps: seq<dword>)
    requires |s.mem| == SIZE32
    ensures PushAll(s, is32, ps).flags == s.flags
    decreases |ps|
  {
    if ps != [] {
      PushAllFlags(Push(s, is32, ps[|ps| - 1]), is32, ps[..|ps| - 1]);
    }
  }

  lemma SwitchedFlags(s: State, g: Descriptor, d: Descriptor, newSs: word, sd: Descriptor, newEsp: dword)
    requires g.CallGate? && d.Segment? && |s.mem| == SIZE32
    ensures Switched(s, g, d, newSs, sd, newEsp).flags == s.flags
  {
    var t0 := OnInnerStack(s, g, d, newSs, sd, newEsp);
    var t1 := Push(Push(t0, g.is32, s.ss.selector), g.is32, Sp(s));
    PushAllFlags(t1, g.is32, Parameters(s, g.is32, g.count));
  }

  lemma CallFlags(c: Config, s: State, op32: bool, sel: word, ip: dword)
    requires Wf(s)
    ensures CallFar(c, s, op32, sel, ip).Done? ==> CallFar(c, s, op32, sel, ip).s.flags == s.flags
  {
    if CallFar(c, s, op32, sel, ip).Done? {
      var g := Lookup(c, sel).value;
      if g.CallGate? {
        var d := Lookup(c, g.selector).value;
        if !d.ec && d.dpl < s.cpl {
          var (newSs, newEsp) := c.tss(d.dpl).value;
          SwitchedFlags(s, g, d, newSs, Lookup(c, newSs).value, newEsp);
        }
      }
    }
  }

  lemma RetFlags(c: Config, s: State, op32: bool, nbytes: nat)
    requires Wf(s)
    ensures RetFar(c, s, op32, nbytes).Done? ==> RetFar(c, s, op32, nbytes).s.flags == s.flags
  {
  }

  lemma IretMask(s: State, op32: bool)
    ensures var g := IretGuarded(s, op32);
      && (VM in g ==> s.cpl == 0) && (s.cpl > 0 ==> 12 !in g && 13 !in g) && (s.cpl > IoplOf(s.flags) ==> IF !in g)
  {
  }

  lemma IretOuterFlags(c: Config, s: State, op32: bool, sel: word, d: Descriptor, ip: dword, image: set<nat>)
    requires Wf(s) && d.Segment?
    ensures IretOuter(c, s, op32, sel, d, ip, image).Done? ==>
      IretOuter(c, s, op32, sel, d, ip, image).s.flags == WithFlags(c, s, image, IretGuarded(s, op32)).flags
  {
  }

  lemma IretFlags(c: Config, s: State, op32: bool)
    requires Wf(s)
    ensures Iret(c, s, op32).Done? ==> Guarded(s, Iret(c, s, op32).s)
  {
    hide Iret, IretOuter, IretGuarded;
    if Iret(c, s, op32).Done? {
      var sel, d, ip, image := IretSplit(c, s, op32);
      if Rpl(sel) > s.cpl {
        IretOuterFlags(c, s, op32, sel, d, ip, image);
      }
      IretMask(s, op32);
      LoadKeeps(c, s, Iret(c, s, op32).s, image, IretGuarded(s, op32));
    }
  }

  lemma PopfFlags(c: Config, s: State, op32: bool)
    requires Wf(s)
    ensures Popf(c, s, op32).Done? ==> Guarded(s, Popf(c, s, op32).s)
  {
    if Popf(c, s, op32).Done? {
      var image := Bits(Pop(s, op32, 0)) - PopfCleared(s, op32);
      LoadKeeps(c, s, Popf(c, s, op32).s, image, PopfGuarded(s, op32));
    }
  }

  /** One instruction changes the I/O privilege level only at level 0, the interrupt flag only at a
      level not above it, and never the mode bit. */
  lemma StepFlags(c: Config, s: State, e: Event)
    requires Wf(s) && VM !in s.flags
    ensures Guarded(s, Step(c, s, e))
  {
    if Execute(c, s, e).Done? {
      match e
      case Call(op32, sel, ip) => CallFlags(c, s, op32, sel, ip);
      case Ret(op32, nbytes) => RetFlags(c, s, op32, nbytes);
      case InterruptReturn(op32) => IretFlags(c, s, op32);
      case PopFlags(op32) => PopfFlags(c, s, op32);
      case _ =>
    }
  }

  /** Over any run a program above its I/O privilege level keeps that level and the interrupt flag,
      unless it calls through a gate to inner non-conforming code; this holds for every level b that
      separates the two: it is level b that has to be crossed. */
  lemma {:induction false} RunFlags(c: Config, s: State, es: seq<Event>, b: nat)
    requires Wf(s) && SafeData(s) && LevelsMatch(s) && VM !in s.flags && IoplOf(s.flags) < b <= s.cpl
    ensures SameGuarded(s.flags, Run(c, s, es).flags) || exists i: nat :: i < |es| && Crosses(c, s, es, i, b)
    decreases |es|
  {
    if es != [] {
      StepPrivilege(c, s, es[0]);
      StepFlags(c, s, es[0]);
      var t := Step(c, s, es[0]);
      if t.cpl < b {
        assert es[..0] == [];
        assert Crosses(c, s, es, 0, b);
      } else {
        RunFlags(c, t, es[1..], b);
        if !SameGuarded(t.flags, Run(c, s, es).flags) {
          var i: nat :| i < |es[1..]| && Crosses(c, t, es[1..], i, b);
          RunCons(c, s, es, i);
          assert Crosses(c, s, es, i + 1, b);
        }
      }
    }
  }
}
