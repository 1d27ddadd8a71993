/** The far transfers as the emulator runs them: register by register, with the stack in memory
    and the parameters copied in loops. */
module FarProcessor {
  import opened Words
  import opened Wrappers
  import opened FarTransfer

  /** Elsewhere: the instruction goes on as a task return or in virtual-8086 mode. */
  datatype Trap = Trap(vector: Vector, code: word) | Elsewhere

  /** The transfer happened as specified, or trapped and left the registers alone. */
  ghost predicate Follows(outcome: Outcome, trap: Option<Trap>, before: State, after: State) {
    match outcome
    case Done(t) => trap == None && after == t
    case Fault(vector, code) => trap == Some(Trap(vector, code)) && after == before
    case Leaves => trap == Some(Elsewhere) && after == before
  }

  class Processor {
    const config: Config
    const mem: array<byte>
    var cs: SegReg
    var eip: dword
    var ss: SegReg
    var esp: dword
    var cpl: nat
    var flags: set<nat>
    var data: seq<SegReg>

    ghost function View(): State
      reads this, mem
    {
      State(cs, eip, ss, esp, cpl, flags, data, mem[..])
    }

    ghost predicate Valid()
      reads this
    {
      mem.Length == SIZE32
    }

    constructor (c: Config, memory: array<byte>, s: State)
      requires memory.Length == SIZE32
      ensures Valid() && config == c && mem == memory && View() == s.(mem := memory[..])
    {
      config, mem := c, memory;
      cs, eip, ss, esp, cpl, flags, data := s.cs, s.eip, s.ss, s.esp, s.cpl, s.flags, s.data;
    }

    // ---- primitives ----

    method SetCs(sel: word, d: Descriptor, level: nat)
      modifies this`cs, this`cpl
      ensures View() == LoadCs(old(View()), sel, d, level)
    {
      cs, cpl := SegReg(WithRpl(sel, level), d), level % 4;
    }

    method SetSs(sel: word, d: Descriptor, level: nat)
      modifies this`ss
      ensures View() == LoadSs(old(View()), sel, d, level)
    {
      ss := SegReg(WithRpl(sel, level), d);
    }

    method SetSp(v: int)
      modifies this`esp
      ensures View() == WithSp(old(View()), v)
    {
      esp := if Big(ss.desc) then v % SIZE32 else esp / 0x1_0000 * 0x1_0000 + v % 0x1_0000;
    }

    method LoadFlags(image: set<nat>, guarded: set<nat>)
      modifies this`flags
      ensures View() == WithFlags(config, old(View()), image, guarded)
    {
      var m := guarded + ORDINARY - config.fixedFlags;
      flags := flags - m + image * m;
    }

    function StackPointer(): dword
      reads this
    {
      if Big(ss.desc) then esp else esp % 0x1_0000
    }

    method Store16(a: int, v: word)
      requires Valid()
      modifies mem
      ensures mem[..] == Write16(old(mem[..]), a, v)
    {
      mem[a % SIZE32] := v % 0x100;
      mem[(a + 1) % SIZE32] := v / 0x100;
    }

    function Load16(a: int): word
      requires Valid()
      reads this, mem
      ensures Load16(a) == Read16(mem[..], a)
    {
      var b0: int, b1: int := mem[a % SIZE32], mem[(a + 1) % SIZE32];
      b0 + 0x100 * b1
    }

    function Load32(a: int): dword
      requires Valid()
      reads this, mem
      ensures Load32(a) == Read32(mem[..], a)
    {
      var low: int, high: int := Load16(a), Load16(a + 2);
      low + 0x1_0000 * high
    }

    /** A word or dword off the SS base. */
    function FromStack(is32: bool, off: int): dword
      requires Valid()
      reads this, mem
      ensures FromStack(is32, off) == if is32 then Stack32(View(), off) else Stack16(View(), off)
    {
      if is32 then Load32(Base(ss.desc) + off) else Load16(Base(ss.desc) + off)
    }

    /** Operand at an offset from the stack pointer, without wrapping it. */
    function Popped(op32: bool, off: nat): dword
      requires Valid()
      reads this, mem
      ensures Popped(op32, off) == Pop(View(), op32, off)
    {
      FromStack(op32, StackPointer() + off)
    }

    function PoppedSelector(off: nat): word
      requires Valid()
      reads this, mem
      ensures PoppedSelector(off) == Stack16(View(), Sp(View()) + off)
    {
      Load16(Base(ss.desc) + StackPointer() + off)
    }

    method PushValue(is32: bool, v: dword)
      requires Valid()
      modifies this`esp, mem
      ensures View() == Push(old(View()), is32, v)
    {
      hide Write16, WithSp;
      if is32 {
        SetSp(StackPointer() - 4);
        Store16(Base(ss.desc) + StackPointer(), v % 0x1_0000);
        Store16(Base(ss.desc) + StackPointer() + 2, v / 0x1_0000);
      } else {
        SetSp(StackPointer() - 2);
        Store16(Base(ss.desc) + StackPointer(), v % 0x1_0000);
      }
    }

    // ---- JMP ----

    method Jump(sel: word, ip: dword) returns (trap: Option<Trap>)
      requires Valid()
      modifies this
      ensures Follows(JmpFar(config, old(View()), sel, ip), trap, old(View()), View())
    {
      hide JmpCode;
      var d := Lookup(config, sel);
      if d.None? {
        return Some(Trap(GP, Index(sel)));
      }
      if d.value.Segment? {
        trap := JumpToCode(sel, d.value, ip);
      } else if d.value.CallGate? {
        var g := d.value;
        if g.dpl < cpl || g.dpl < Rpl(sel) {
          return Some(Trap(GP, Index(sel)));
        }
        if !g.present {
          return Some(Trap(NP, Index(sel)));
        }
        var target := Lookup(config, g.selector);
        if target.None? || !target.value.Segment? {
          return Some(Trap(GP, Index(g.selector)));
        }
        trap := JumpToCode(g.selector, target.value, g.offset);
      } else {
        return Some(Trap(GP, Index(sel)));
      }
    }

    method JumpToCode(sel: word, d: Descriptor, ip: dword) returns (trap: Option<Trap>)
      requires Valid() && d.Segment?
      modifies this
      ensures Follows(JmpCode(old(View()), sel, d, ip), trap, old(View()), View())
    {
      if !d.code {
        return Some(Trap(GP, Index(sel)));
      }
      if !d.ec {
        if Rpl(sel) > cpl || d.dpl != cpl {
          return Some(Trap(GP, Index(sel)));
        }
      } else if d.dpl > cpl {
        return Some(Trap(GP, Index(sel)));
      }
      if !d.present {
        return Some(Trap(NP, Index(sel)));
      }
      if ip > d.limit {
        return Some(Trap(GP, 0));
      }
      SetCs(sel, d, cpl);
      eip := ip;
      return None;
    }

    // ---- CALL ----

    /** Pushes the return address and enters d at the present level. */
    method Link(is32: bool, sel: word, d: Descriptor, ip: dword)
      requires Valid()
      modifies this, mem
      ensures View() == Linked(old(View()), is32, sel, d, ip)
    {
      PushValue(is32, cs.selector);
      PushValue(is32, eip);
      SetCs(sel, d, cpl);
      eip := ip;
    }

    method CallCode(op32: bool, sel: word, d: Descriptor, ip: dword) returns (trap: Option<Trap>)
      requires Valid() && d.Segment?
      modifies this, mem
      ensures Follows(FarTransfer.CallCode(config, old(View()), op32, sel, d, ip), trap, old(View()), View())
    {
      hide Linked;
      if !d.code {
        return Some(Trap(GP, Index(sel)));
      }
      if !d.ec {
        if Rpl(sel) > cpl || d.dpl != cpl {
          return Some(Trap(GP, Index(sel)));
        }
      } else if d.dpl > cpl {
        return Some(Trap(GP, Index(sel)));
      }
      if !d.present {
        return Some(Trap(NP, Index(sel)));
      }
      if !config.pushRoom(ss.desc, StackPointer(), if op32 then 8 else 4) {
        return Some(Trap(SS, Index(ss.selector)));
      }
      if ip > d.limit {
        return Some(Trap(GP, 0));
      }
      Link(op32, sel, d, ip);
      return None;
    }

    /** Copies the parameters, switches to the inner stack and rebuilds the frame there. */
    method SwitchStacks(g: Descriptor, d: Descriptor, newSs: word, sd: Descriptor, newEsp: dword)
      requires Valid() && g.CallGate? && d.Segment?
      modifies this, mem
      ensures View() == Switched(old(View()), g, d, newSs, sd, newEsp)
    {
      ghost var s := View();
      var oldCs, oldSs, oldEip, oldEsp := cs.selector, ss.selector, eip, StackPointer();
      var params := DumpParameters(g.is32, g.count);
      SetSs(newSs, sd, DplOf(sd));
      SetSp(newEsp);
      SetCs(g.selector, d, d.dpl);
      eip := g.offset;
      PushValue(g.is32, oldSs);
      PushValue(g.is32, oldEsp);
      RestoreParameters(g.is32, params);
      PushValue(g.is32, oldCs);
      PushValue(g.is32, oldEip);
    }

    method DumpParameters(is32: bool, n: nat) returns (params: seq<dword>)
      requires Valid()
      ensures params == Parameters(View(), is32, n)
    {
      params := [];
      var i := 0;
      while i < n
        invariant i <= n && params == Parameters(View(), is32, i)
      {
        params := params + [FromStack(is32, StackPointer() + i * (if is32 then 4 else 2))];
        i := i + 1;
      }
    }

    method RestoreParameters(is32: bool, params: seq<dword>)
      requires Valid()
      modifies this`esp, mem
      ensures View() == PushAll(old(View()), is32, params)
    {
      var i := |params|;
      assert params[..i] == params;
      while i > 0
        invariant i <= |params|
        invariant PushAll(View(), is32, params[..i]) == PushAll(old(View()), is32, params)
      {
        assert params[..i][..i - 1] == params[..i - 1];
        PushValue(is32, params[i - 1]);
        i := i - 1;
      }
    }

    method CallGate(sel: word, g: Descriptor) returns (trap: Option<Trap>)
      requires Valid() && g.CallGate?
      modifies this, mem
      ensures Follows(CallThroughGate(config, old(View()), sel, g), trap, old(View()), View())
    {
      hide CallInner, Linked;
      if g.dpl < cpl || g.dpl < Rpl(sel) {
        return Some(Trap(GP, Index(sel)));
      }
      if !g.present {
        return Some(Trap(NP, Index(sel)));
      }
      var target := Lookup(config, g.selector);
      if target.None? || !target.value.Segment? || !target.value.code || target.value.dpl > cpl {
        return Some(Trap(GP, Index(g.selector)));
      }
      var d := target.value;
      if !d.present {
        return Some(Trap(NP, Index(g.selector)));
      }
      if g.offset > d.limit {
        return Some(Trap(GP, 0));
      }
      if !d.ec && d.dpl < cpl {
        trap := CallMorePrivilege(g, d);
      } else {
        if !config.pushRoom(ss.desc, StackPointer(), if g.is32 then 8 else 4) {
          return Some(Trap(SS, Index(ss.selector)));
        }
        Link(g.is32, g.selector, d, g.offset);
        trap := None;
      }
    }

    method CallMorePrivilege(g: Descriptor, d: Descriptor) returns (trap: Option<Trap>)
      requires Valid() && g.CallGate? && d.Segment?
      modifies this, mem
      ensures Follows(CallInner(config, old(View()), g, d), trap, old(View()), View())
    {
      hide Switched;
      var inner := config.tss(d.dpl);
      if inner.None? {
        return Some(Trap(TS, 0));
      }
      var (newSs, newEsp) := inner.value;
      var target := Lookup(config, newSs);
      if target.None? || Rpl(newSs) != d.dpl || !target.value.Segment? || target.value.dpl != d.dpl {
        return Some(Trap(TS, Index(newSs)));
      }
      var sd := target.value;
      if sd.code || !sd.wr {
        return Some(Trap(TS, Index(newSs)));
      }
      if !sd.present {
        return Some(Trap(SS, Index(newSs)));
      }
      var size := (if d.big then 16 else 8) + g.count * (if g.is32 then 4 else 2);
      if !config.pushRoom(sd, newEsp, size) {
        return Some(Trap(SS, Index(newSs)));
      }
      SwitchStacks(g, d, newSs, sd, newEsp);
      trap := None;
    }

    method Call(op32: bool, sel: word, ip: dword) returns (trap: Option<Trap>)
      requires Valid()
      modifies this, mem
      ensures Follows(CallFar(config, old(View()), op32, sel, ip), trap, old(View()), View())
    {
      hide FarTransfer.CallCode, CallThroughGate;
      var d := Lookup(config, sel);
      if d.None? {
        return Some(Trap(GP, Index(sel)));
      }
      if d.value.Segment? {
        trap := CallCode(op32, sel, d.value, ip);
      } else if d.value.CallGate? {
        trap := CallGate(sel, d.value);
      } else {
        trap := Some(Trap(GP, Index(sel)));
      }
    }

    // ---- RETF ----

    method Return(op32: bool, nbytes: nat) returns (trap: Option<Trap>)
      requires Valid()
      modifies this
      ensures Follows(RetFar(config, old(View()), op32, nbytes), trap, old(View()), View())
    {
      hide RetTo, Pop, Stack16;
      var w: nat := if op32 then 4 else 2;
      if !config.popRoom(ss.desc, StackPointer(), nbytes + 2 * w) {
        return Some(Trap(SS, Index(ss.selector)));
      }
      trap := ReturnTo(op32, nbytes, Popped(op32, 0), PoppedSelector(w));
    }

    method ReturnTo(op32: bool, nbytes: nat, ip: dword, sel: word) returns (trap: Option<Trap>)
      requires Valid()
      modifies this
      ensures Follows(RetTo(config, old(View()), op32, nbytes, ip, sel), trap, old(View()), View())
    {
      hide RetOuter;
      var target := Lookup(config, sel);
      if target.None? || !target.value.Segment? || !target.value.code {
        return Some(Trap(GP, Index(sel)));
      }
      var d := target.value;
      if Rpl(sel) < cpl || (!d.ec && d.dpl > Rpl(sel)) {
        return Some(Trap(GP, Index(sel)));
      }
      if !d.present {
        return Some(Trap(NP, Index(sel)));
      }
      if Rpl(sel) == cpl {
        if ip > d.limit {
          return Some(Trap(GP, 0));
        }
        SetSp(StackPointer() as int + nbytes + (if op32 then 8 else 4));
        SetCs(sel, d, cpl);
        eip := ip;
        trap := None;
      } else {
        trap := ReturnOuter(op32, nbytes, sel, d, ip);
      }
    }

    method ReturnOuter(op32: bool, nbytes: nat, sel: word, d: Descriptor, ip: dword) returns (trap: Option<Trap>)
      requires Valid() && d.Segment?
      modifies this
      ensures Follows(RetOuter(config, old(View()), op32, nbytes, sel, d, ip), trap, old(View()), View())
    {
      hide RetOuterTo, Pop, Stack16;
      var w: nat := if op32 then 4 else 2;
      if !config.popRoom(ss.desc, StackPointer(), nbytes + 4 * w) {
        return Some(Trap(SS, Index(ss.selector)));
      }
      trap := ReturnOuterTo(nbytes, sel, d, ip, Popped(op32, 2 * w + nbytes), PoppedSelector(2 * w + nbytes + w));
    }

    method ReturnOuterTo(nbytes: nat, sel: word, d: Descriptor, ip: dword, newSp: dword, newSs: word) returns (trap: Option<Trap>)
      requires Valid() && d.Segment?
      modifies this
      ensures Follows(RetOuterTo(config, old(View()), nbytes, sel, d, ip, newSp, newSs), trap, old(View()), View())
    {
      var target := Lookup(config, newSs);
      if target.None? {
        return Some(Trap(GP, Index(newSs)));
      }
      var sd := target.value;
      if !WritableData(sd) || Rpl(newSs) != Rpl(sel) || sd.dpl != Rpl(sel) {
        return Some(Trap(GP, Index(sel)));
      }
      if !sd.present {
        return Some(Trap(SS, Index(newSs)));
      }
      if ip > d.limit {
        return Some(Trap(GP, 0));
      }
      SetSs(newSs, sd, Rpl(sel));
      SetSp(newSp as int + nbytes);
      SetCs(sel, d, Rpl(sel));
      eip := ip;
      Sanitize(Rpl(sel));
      trap := None;
    }

    /** Clears the data registers the new level may not keep, one by one. */
    method Sanitize(level: nat)
      modifies this`data
      ensures data == MapRegs(r => Sanitized(config, r, level), old(data))
    {
      var k := 0;
      while k < |data|
        invariant k <= |data| == |old(data)|
        invariant forall j :: 0 <= j < k ==> data[j] == Sanitized(config, old(data)[j], level)
        invariant forall j :: k <= j < |data| ==> data[j] == old(data)[j]
      {
        var r := data[k];
        if !Survives(r.desc, level) {
          data := data[k := NULL_SEGMENT];
        } else {
          var d := Lookup(config, r.selector);
          if d.None? {
            data := data[k := NULL_SEGMENT];
          } else if !d.value.Segment? || (d.value.code && !d.value.wr) || !Survives(d.value, level) {
            data := data[k := NULL_SEGMENT];
          }
        }
        k := k + 1;
      }
    }

    // ---- flags ----

    method PopFlags(op32: bool) returns (trap: Option<Trap>)
      requires Valid()
      modifies this
      ensures Follows(Popf(config, old(View()), op32), trap, old(View()), View())
    {
      hide FlagsPopped, Pop, Bits;
      if VM in flags {
        return Some(Elsewhere);
      }
      TakeImage(op32, Bits(Popped(op32, 0)));
      trap := None;
    }

    method TakeImage(op32: bool, image: set<nat>)
      modifies this`esp, this`flags
      ensures View() == FlagsPopped(config, old(View()), op32, image)
    {
      hide WithFlags, PopfGuarded, PopfCleared;
      var guarded, cleared := PopGuarded(op32);
      SetSp(StackPointer() as int + if op32 then 4 else 2);
      LoadFlags(image - cleared, guarded);
    }

    /** The mask of POPF, and the image bits it drops. */
    method PopGuarded(op32: bool) returns (guarded: set<nat>, cleared: set<nat>)
      ensures guarded == PopfGuarded(View(), op32) && cleared == PopfCleared(View(), op32)
    {
      guarded, cleared := {}, {};
      if op32 {
        guarded, cleared := {RF}, {RF};
      }
      if cpl <= IoplOf(flags) {
        guarded := guarded + {IF};
        if op32 {
          guarded, cleared := guarded + VIRTUAL_INTERRUPT, cleared + VIRTUAL_INTERRUPT;
        }
      }
      if cpl == 0 {
        guarded := guarded + IOPL;
      }
    }

    method SetInterrupt(on: bool) returns (trap: Option<Trap>)
      modifies this`flags
      ensures Follows(Interruptible(old(View()), on), trap, old(View()), View())
    {
      if VM in flags {
        return Some(Elsewhere);
      }
      if cpl > IoplOf(flags) {
        return Some(Trap(GP, 0));
      }
      flags := if on then flags + {IF} else flags - {IF};
      trap := None;
    }

    // ---- IRET ----

    method InterruptReturn(op32: bool) returns (trap: Option<Trap>)
      requires Valid()
      modifies this
      ensures Follows(Iret(config, old(View()), op32), trap, old(View()), View())
    {
      hide IretWith, Pop, Stack16, Bits;
      var w: nat := if op32 then 4 else 2;
      if VM !in flags && NT in flags {
        return Some(Elsewhere);
      }
      if !config.popRoom(ss.desc, StackPointer(), 3 * w) {
        return Some(Trap(SS, Index(ss.selector)));
      }
      trap := InterruptReturnWith(op32, Popped(op32, 0), PoppedSelector(w), Bits(Popped(op32, 2 * w)));
    }

    method InterruptReturnWith(op32: bool, ip: dword, sel: word, image: set<nat>) returns (trap: Option<Trap>)
      requires Valid()
      modifies this
      ensures Follows(IretWith(config, old(View()), op32, ip, sel, image), trap, old(View()), View())
    {
      hide IretTo;
      if VM in flags || (VM in image && cpl == 0) {
        return Some(Elsewhere);
      }
      trap := InterruptReturnTo(op32, ip, sel, image);
    }

    method InterruptReturnTo(op32: bool, ip: dword, sel: word, image: set<nat>) returns (trap: Option<Trap>)
      requires Valid()
      modifies this
      ensures Follows(IretTo(config, old(View()), op32, ip, sel, image), trap, old(View()), View())
    {
      hide IretSame, IretOuter;
      var target := Lookup(config, sel);
      if target.None? || !target.value.Segment? || !target.value.code {
        return Some(Trap(GP, Index(sel)));
      }
      var d := target.value;
      if Rpl(sel) < cpl || (d.ec && d.dpl > Rpl(sel)) {
        return Some(Trap(GP, Index(sel)));
      }
      if !d.present {
        return Some(Trap(NP, Index(sel)));
      }
      if Rpl(sel) > cpl {
        trap := InterruptReturnOuter(op32, sel, d, ip, image);
      } else {
        trap := InterruptReturnSame(op32, sel, d, ip, image);
      }
    }

    method InterruptReturnSame(op32: bool, sel: word, d: Descriptor, ip: dword, image: set<nat>) returns (trap: Option<Trap>)
      requires Valid() && d.Segment?
      modifies this
      ensures Follows(IretSame(config, old(View()), op32, sel, d, ip, image), trap, old(View()), View())
    {
      if ip > d.limit {
        return Some(Trap(GP, 0));
      }
      var guarded := GuardedFlags(op32);
      SetCs(sel, d, cpl);
      eip := ip;
      SetSp(StackPointer() as int + if op32 then 12 else 6);
      LoadFlags(image, guarded);
      trap := None;
    }

    /** The mask of IRET, put together bit by bit. */
    method GuardedFlags(op32: bool) returns (guarded: set<nat>)
      ensures guarded == IretGuarded(View(), op32)
    {
      guarded := {};
      if op32 {
        guarded := {RF};
      }
      if cpl <= IoplOf(flags) {
        guarded := guarded + {IF};
      }
      if cpl == 0 {
        guarded := guarded + IOPL;
        if op32 {
          guarded := guarded + ({VM} + VIRTUAL_INTERRUPT);
        }
      }
    }

    method InterruptReturnOuter(op32: bool, sel: word, d: Descriptor, ip: dword, image: set<nat>) returns (trap: Option<Trap>)
      requires Valid() && d.Segment?
      modifies this
      ensures Follows(IretOuter(config, old(View()), op32, sel, d, ip, image), trap, old(View()), View())
    {
      hide IretOuterTo, Pop, Stack16;
      var w: nat := if op32 then 4 else 2;
      if !config.popRoom(ss.desc, StackPointer(), 5 * w) {
        return Some(Trap(SS, Index(ss.selector)));
      }
      trap := InterruptReturnOuterTo(op32, sel, d, ip, image, Popped(op32, 3 * w), PoppedSelector(4 * w));
    }

    method InterruptReturnOuterTo(op32: bool, sel: word, d: Descriptor, ip: dword, image: set<nat>, newSp: dword, newSs: word)
      returns (trap: Option<Trap>)
      requires Valid() && d.Segment?
      modifies this
      ensures Follows(IretOuterTo(config, old(View()), op32, sel, d, ip, image, newSp, newSs), trap, old(View()), View())
    {
      hide OnOuterStack;
      var target := Lookup(config, newSs);
      if target.None? || Rpl(newSs) != Rpl(sel) || !WritableData(target.value) {
        return Some(Trap(GP, Index(newSs)));
      }
      var sd := target.value;
      if !sd.present {
        return Some(Trap(SS, Index(newSs)));
      }
      if ip > d.limit {
        return Some(Trap(GP, 0));
      }
      EnterOuter(op32, sel, d, ip, image, newSp, newSs, sd);
      trap := None;
    }

    /** The outer code and stack segments are loaded; the flags go by the level left behind. */
    method EnterOuter(op32: bool, sel: word, d: Descriptor, ip: dword, image: set<nat>, newSp: dword, newSs: word, sd: Descriptor)
      modifies this
      ensures View() == OnOuterStack(config, old(View()), op32, sel, d, ip, image, newSp, newSs, sd)
    {
      var guarded := GuardedFlags(op32);
      SetCs(sel, d, Rpl(sel));
      eip := ip;
      SetSs(newSs, sd, Rpl(sel));
      SetSp(newSp);
      LoadFlags(image, guarded);
      Screen(Rpl(sel));
    }

    method Screen(level: nat)
      modifies this`data
      ensures data == MapRegs(r => Screened(r, level), old(data))
    {
      var k := 0;
      while k < |data|
        invariant k <= |data| == |old(data)|
        invariant forall j :: 0 <= j < k ==> data[j] == Screened(old(data)[j], level)
        invariant forall j :: k <= j < |data| ==> data[j] == old(data)[j]
      {
        if !Survives(data[k].desc, level) {
          data := data[k := NULL_SEGMENT];
        }
        k := k + 1;
      }
    }
  }
}
