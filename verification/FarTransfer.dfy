/** Protected-mode far transfers: descriptors, the stack, and what JMP, CALL, RETF and IRET do
    to the registers (Intel SDM volume 3A, section 5.8). */
module FarTransfer {
  import opened Words
  import opened Wrappers

  const SIZE32 := 0x1_0000_0000

  /** ec is "conforming" for code and "expand down" for data; wr is "readable" or "writable". */
  datatype Descriptor =
    | Segment(code: bool, ec: bool, wr: bool, dpl: nat, present: bool, big: bool, base: dword, limit: dword)
    | CallGate(is32: bool, selector: word, offset: dword, count: nat, dpl: nat, present: bool)
    | OtherSystem(dpl: nat, present: bool)
    | NullDescriptor

  datatype SegReg = SegReg(selector: word, desc: Descriptor)

  const NULL_SEGMENT := SegReg(0, NullDescriptor)

  /** What the processor consults but a far transfer does not change: the descriptor tables,
      the inner stacks of the task state segment, the stack limit checks, and the flag bits the
      configured processor never changes. */
  datatype Config = Config(
    table: map<nat, Descriptor>,
    tss: nat -> Option<(word, dword)>,
    pushRoom: (Descriptor, dword, nat) -> bool,
    popRoom: (Descriptor, dword, nat) -> bool,
    fixedFlags: set<nat>)

  /** flags is the set of bits set in EFLAGS; data holds ES, DS, FS and GS. */
  datatype State = State(cs: SegReg, eip: dword, ss: SegReg, esp: dword, cpl: nat, flags: set<nat>,
                         data: seq<SegReg>, mem: seq<byte>)

  datatype Vector = GP | NP | TS | SS

  /** Leaves: the instruction goes on as a task return or in virtual-8086 mode. */
  datatype Outcome = Done(s: State) | Fault(vector: Vector, code: word) | Leaves

  // ---- selectors ----

  function Rpl(sel: word): nat {
    sel % 4
  }

  function Index(sel: word): word {
    sel / 4 * 4
  }

  function WithRpl(sel: word, cpl: nat): word {
    Index(sel) + cpl % 4
  }

  /** Descriptor lookup; None for a null selector or one without a valid descriptor. */
  function Lookup(c: Config, sel: word): Option<Descriptor> {
    if sel < 4 || sel / 4 !in c.table then None
    else if c.table[sel / 4].NullDescriptor? then None
    else Some(c.table[sel / 4])
  }

  function LoadCs(s: State, sel: word, d: Descriptor, cpl: nat): State {
    s.(cs := SegReg(WithRpl(sel, cpl), d), cpl := cpl % 4)
  }

  function LoadSs(s: State, sel: word, d: Descriptor, cpl: nat): State {
    s.(ss := SegReg(WithRpl(sel, cpl), d))
  }

  // ---- the stack ----

  predicate Big(d: Descriptor) {
    d.Segment? && d.big
  }

  function Base(d: Descriptor): dword {
    if d.Segment? then d.base else 0
  }

  /** The stack pointer in force: ESP, or its low half on a 16-bit stack. */
  function Sp(s: State): dword {
    if Big(s.ss.desc) then s.esp else s.esp % 0x1_0000
  }

  function WithSp(s: State, v: int): State {
    if Big(s.ss.desc) then s.(esp := v % SIZE32)
    else s.(esp := s.esp / 0x1_0000 * 0x1_0000 + v % 0x1_0000)
  }

  function ByteAt(m: seq<byte>, a: int): byte
    requires |m| == SIZE32
  {
    m[a % SIZE32]
  }

  function Read16(m: seq<byte>, a: int): word
    requires |m| == SIZE32
  {
    var b0: int, b1: int := ByteAt(m, a), ByteAt(m, a + 1);
    b0 + 0x100 * b1
  }

  function Read32(m: seq<byte>, a: int): dword
    requires |m| == SIZE32
  {
    var low: int, high: int := Read16(m, a), Read16(m, a + 2);
    low + 0x1_0000 * high
  }

  function Write16(m: seq<byte>, a: int, v: word): (m': seq<byte>)
    requires |m| == SIZE32
    ensures |m'| == SIZE32
  {
    m[a % SIZE32 := v % 0x100][(a + 1) % SIZE32 := v / 0x100]
  }

  function Write32(m: seq<byte>, a: int, v: dword): (m': seq<byte>)
    requires |m| == SIZE32
    ensures |m'| == SIZE32
  {
    Write16(Write16(m, a, v % 0x1_0000), a + 2, v / 0x1_0000)
  }

  /** Stack words are addressed off the SS base without wrapping at 64 KB. */
  function Stack16(s: State, off: int): word
    requires |s.mem| == SIZE32
  {
    Read16(s.mem, Base(s.ss.desc) + off)
  }

  function Stack32(s: State, off: int): dword
    requires |s.mem| == SIZE32
  {
    Read32(s.mem, Base(s.ss.desc) + off)
  }

  function Push32(s: State, v: dword): (s': State)
    requires |s.mem| == SIZE32
    ensures |s'.mem| == SIZE32
  {
    var t := WithSp(s, Sp(s) - 4);
    t.(mem := Write32(s.mem, Base(s.ss.desc) + Sp(t), v))
  }

  function Push16(s: State, v: word): (s': State)
    requires |s.mem| == SIZE32
    ensures |s'.mem| == SIZE32
  {
    var t := WithSp(s, Sp(s) - 2);
    t.(mem := Write16(s.mem, Base(s.ss.desc) + Sp(t), v))
  }

  function Push(s: State, is32: bool, v: dword): (s': State)
    requires |s.mem| == SIZE32
    ensures |s'.mem| == SIZE32
  {
    if is32 then Push32(s, v) else Push16(s, v % 0x1_0000)
  }

  // ---- checks shared by the transfers ----

  /** Privilege check of a transfer that keeps the privilege level. */
  predicate SameLevel(d: Descriptor, rpl: nat, cpl: nat)
    requires d.Segment?
  {
    if d.ec then d.dpl <= cpl else rpl <= cpl && d.dpl == cpl
  }

  predicate WritableData(d: Descriptor) {
    d.Segment? && !d.code && d.wr
  }

  // ---- JMP ----

  function JmpFar(c: Config, s: State, sel: word, ip: dword): Outcome {
    match Lookup(c, sel)
    case None => Fault(GP, Index(sel))
    case Some(d) =>
      if d.Segment? then JmpCode(s, sel, d, ip)
      else if d.CallGate? then JmpGate(c, s, sel, d)
      else Fault(GP, Index(sel))
  }

  function JmpCode(s: State, sel: word, d: Descriptor, ip: dword): Outcome
    requires d.Segment?
  {
    if !d.code then Fault(GP, Index(sel))
    else if !SameLevel(d, Rpl(sel), s.cpl) then Fault(GP, Index(sel))
    else if !d.present then Fault(NP, Index(sel))
    else if ip > d.limit then Fault(GP, 0)
    else Done(LoadCs(s, sel, d, s.cpl).(eip := ip))
  }

  function JmpGate(c: Config, s: State, sel: word, g: Descriptor): Outcome
    requires g.CallGate?
  {
    if g.dpl < s.cpl || g.dpl < Rpl(sel) then Fault(GP, Index(sel))
    else if !g.present then Fault(NP, Index(sel))
    else match Lookup(c, g.selector)
      case None => Fault(GP, Index(g.selector))
      case Some(d) => if d.Segment? then JmpCode(s, g.selector, d, g.offset) else Fault(GP, Index(g.selector))
  }

  // ---- CALL ----

  function CallFar(c: Config, s: State, op32: bool, sel: word, ip: dword): Outcome
    requires |s.mem| == SIZE32
  {
    match Lookup(c, sel)
    case None => Fault(GP, Index(sel))
    case Some(d) =>
      if d.Segment? then CallCode(c, s, op32, sel, d, ip)
      else if d.CallGate? then CallThroughGate(c, s, sel, d)
      else Fault(GP, Index(sel))
  }

  /** Return address pushed, then the jump, at the same privilege level. */
  function Linked(s: State, is32: bool, sel: word, d: Descriptor, ip: dword): State
    requires |s.mem| == SIZE32
  {
    LoadCs(Push(Push(s, is32, s.cs.selector), is32, s.eip), sel, d, s.cpl).(eip := ip)
  }

  function CallCode(c: Config, s: State, op32: bool, sel: word, d: Descriptor, ip: dword): Outcome
    requires d.Segment? && |s.mem| == SIZE32
  {
    if !d.code then Fault(GP, Index(sel))
    else if !SameLevel(d, Rpl(sel), s.cpl) then Fault(GP, Index(sel))
    else if !d.present then Fault(NP, Index(sel))
    else if !c.pushRoom(s.ss.desc, Sp(s), if op32 then 8 else 4) then Fault(SS, Index(s.ss.selector))
    else if ip > d.limit then Fault(GP, 0)
    else Done(Linked(s, op32, sel, d, ip))
  }

  function CallThroughGate(c: Config, s: State, sel: word, g: Descriptor): Outcome
    requires g.CallGate? && |s.mem| == SIZE32
  {
    if g.dpl < s.cpl || g.dpl < Rpl(sel) then Fault(GP, Index(sel))
    else if !g.present then Fault(NP, Index(sel))
    else match Lookup(c, g.selector)
      case None => Fault(GP, Index(g.selector))
      case Some(d) =>
        if !d.Segment? || !d.code || d.dpl > s.cpl then Fault(GP, Index(g.selector))
        else if !d.present then Fault(NP, Index(g.selector))
        else if g.offset > d.limit then Fault(GP, 0)
        else if !d.ec && d.dpl < s.cpl then CallInner(c, s, g, d)
        else if !c.pushRoom(s.ss.desc, Sp(s), if g.is32 then 8 else 4) then Fault(SS, Index(s.ss.selector))
        else Done(Linked(s, g.is32, g.selector, d, g.offset))
  }

  /** Parameter i as the caller left it. */
  function Parameter(s: State, is32: bool, i: nat): dword
    requires |s.mem| == SIZE32
  {
    if is32 then Stack32(s, Sp(s) + 4 * i) else Stack16(s, Sp(s) + 2 * i)
  }

  function Parameters(s: State, is32: bool, n: nat): seq<dword>
    requires |s.mem| == SIZE32
  {
    seq(n, i requires 0 <= i < n => Parameter(s, is32, i))
  }

  /** The last parameter goes first, so the first ends on top. */
  function PushAll(s: State, is32: bool, ps: seq<dword>): (s': State)
    requires |s.mem| == SIZE32
    ensures |s'.mem| == SIZE32
    decreases |ps|
  {
    if ps == [] then s else PushAll(Push(s, is32, ps[|ps| - 1]), is32, ps[..|ps| - 1])
  }

  /** Bytes the inner stack is checked for: the width of the code segment for the links, that of the
      gate for the parameters. */
  function CheckedSize(g: Descriptor, d: Descriptor): nat
    requires g.CallGate? && d.Segment?
  {
    (if d.big then 16 else 8) + g.count * (if g.is32 then 4 else 2)
  }

  /** A call to an inner level switches to the stack the task state segment names for it. */
  function CallInner(c: Config, s: State, g: Descriptor, d: Descriptor): Outcome
    requires g.CallGate? && d.Segment? && |s.mem| == SIZE32
  {
    match c.tss(d.dpl)
    case None => Fault(TS, 0)
    case Some((newSs, newEsp)) =>
      match Lookup(c, newSs)
      case None => Fault(TS, Index(newSs))
      case Some(sd) =>
        if Rpl(newSs) != d.dpl || !sd.Segment? || sd.dpl != d.dpl || sd.code || !sd.wr then Fault(TS, Index(newSs))
        else if !sd.present then Fault(SS, Index(newSs))
        else if !c.pushRoom(sd, newEsp, CheckedSize(g, d)) then Fault(SS, Index(newSs))
        else Done(Switched(s, g, d, newSs, sd, newEsp))
  }

  /** The new stack and code segments are loaded. */
  function OnInnerStack(s: State, g: Descriptor, d: Descriptor, newSs: word, sd: Descriptor, newEsp: dword): (s': State)
    requires g.CallGate? && d.Segment? && |s.mem| == SIZE32
    ensures |s'.mem| == SIZE32
  {
    LoadCs(WithSp(LoadSs(s, newSs, sd, DplOf(sd)), newEsp), g.selector, d, d.dpl).(eip := g.offset)
  }

  function DplOf(d: Descriptor): nat {
    if d.NullDescriptor? then 0 else d.dpl
  }

  function Switched(s: State, g: Descriptor, d: Descriptor, newSs: word, sd: Descriptor, newEsp: dword): State
    requires g.CallGate? && d.Segment? && |s.mem| == SIZE32
  {
    var t0 := OnInnerStack(s, g, d, newSs, sd, newEsp);
    var t1 := Push(Push(t0, g.is32, s.ss.selector), g.is32, Sp(s));
    var t2 := PushAll(t1, g.is32, Parameters(s, g.is32, g.count));
    Push(Push(t2, g.is32, s.cs.selector), g.is32, s.eip)
  }

  // ---- RETF and IRET ----

  /** A data register survives a return to an outer level if it holds conforming code or a
      segment no more privileged than the new level. */
  predicate Survives(d: Descriptor, cpl: nat) {
    match d
    case Segment(code, ec, _, dpl, _, _, _, _) => (code && ec) || cpl <= dpl
    case NullDescriptor => cpl == 0
    case _ => cpl <= d.dpl
  }

  /** RETF's treatment of a data register: the cached descriptor and the table entry must both
      allow the new level. */
  function Sanitized(c: Config, r: SegReg, cpl: nat): SegReg {
    if !Survives(r.desc, cpl) then NULL_SEGMENT
    else match Lookup(c, r.selector)
      case None => NULL_SEGMENT
      case Some(d) =>
        if !d.Segment? || (d.code && !d.wr) || !Survives(d, cpl) then NULL_SEGMENT else r
  }

  /** IRET looks at the cached descriptor only. */
  function Screened(r: SegReg, cpl: nat): SegReg {
    if Survives(r.desc, cpl) then r else NULL_SEGMENT
  }

  function MapRegs(f: SegReg -> SegReg, rs: seq<SegReg>): seq<SegReg> {
    seq(|rs|, i requires 0 <= i < |rs| => f(rs[i]))
  }

  function Pop(s: State, op32: bool, off: nat): dword
    requires |s.mem| == SIZE32
  {
    if op32 then Stack32(s, Sp(s) + off) else Stack16(s, Sp(s) + off)
  }

  function RetFar(c: Config, s: State, op32: bool, nbytes: nat): Outcome
    requires |s.mem| == SIZE32
  {
    var w := if op32 then 4 else 2;
    if !c.popRoom(s.ss.desc, Sp(s), nbytes + 2 * w) then Fault(SS, Index(s.ss.selector))
    else RetTo(c, s, op32, nbytes, Pop(s, op32, 0), Stack16(s, Sp(s) + w))
  }

  function RetTo(c: Config, s: State, op32: bool, nbytes: nat, ip: dword, sel: word): Outcome
    requires |s.mem| == SIZE32
  {
    match Lookup(c, sel)
    case None => Fault(GP, Index(sel))
    case Some(d) =>
      if !d.Segment? || !d.code || Rpl(sel) < s.cpl || (!d.ec && d.dpl > Rpl(sel)) then Fault(GP, Index(sel))
      else if !d.present then Fault(NP, Index(sel))
      else if Rpl(sel) == s.cpl then
        if ip > d.limit then Fault(GP, 0)
        else Done(LoadCs(WithSp(s, Sp(s) + nbytes + (if op32 then 8 else 4)), sel, d, s.cpl).(eip := ip))
      else RetOuter(c, s, op32, nbytes, sel, d, ip)
  }

  function RetOuter(c: Config, s: State, op32: bool, nbytes: nat, sel: word, d: Descriptor, ip: dword): Outcome
    requires |s.mem| == SIZE32 && d.Segment?
  {
    var w := if op32 then 4 else 2;
    if !c.popRoom(s.ss.desc, Sp(s), nbytes + 4 * w) then Fault(SS, Index(s.ss.selector))
    else RetOuterTo(c, s, nbytes, sel, d, ip, Pop(s, op32, 2 * w + nbytes), Stack16(s, Sp(s) + 2 * w + nbytes + w))
  }

  function RetOuterTo(c: Config, s: State, nbytes: nat, sel: word, d: Descriptor, ip: dword, newSp: dword, newSs: word): Outcome
    requires d.Segment?
  {
    match Lookup(c, newSs)
    case None => Fault(GP, Index(newSs))
    case Some(sd) =>
      if !WritableData(sd) || Rpl(newSs) != Rpl(sel) || sd.dpl != Rpl(sel) then Fault(GP, Index(sel))
      else if !sd.present then Fault(SS, Index(newSs))
      else if ip > d.limit then Fault(GP, 0)
      else
        var t := LoadCs(WithSp(LoadSs(s, newSs, sd, Rpl(sel)), newSp + nbytes), sel, d, Rpl(sel)).(eip := ip);
        Done(t.(data := MapRegs(r => Sanitized(c, r, Rpl(sel)), s.data)))
  }

  // ---- flags ----

  const IF: nat := 9
  const NT: nat := 14
  const RF: nat := 16
  const VM: nat := 17
  const IOPL: set<nat> := {12, 13}
  const VIRTUAL_INTERRUPT: set<nat> := {19, 20}

  /** The bits IRET and POPF may always change: status, trap, direction, nested task, alignment, id. */
  const ORDINARY: set<nat> := {0, 2, 4, 6, 7, 8, 10, 11, 14, 18, 21}

  /** The bits other instructions compute or set: condition flags and direction. */
  const CONDITION: set<nat> := {0, 2, 4, 6, 7, 10, 11}

  predicate Bit(v: nat, i: nat) {
    if i == 0 then v % 2 == 1 else Bit(v / 2, i - 1)
  }

  function Bits(v: dword): set<nat> {
    set i: nat | i < 32 && Bit(v, i)
  }

  function IoplOf(flags: set<nat>): nat {
    (if 12 in flags then 1 else 0) + (if 13 in flags then 2 else 0)
  }

  /** Loads the ordinary bits of an image and those of the guarded bits it is allowed to. */
  function WithFlags(c: Config, s: State, image: set<nat>, guarded: set<nat>): State {
    var m := guarded + ORDINARY - c.fixedFlags;
    s.(flags := s.flags - m + image * m)
  }

  /** The guarded bits an IRET at this level may load. */
  function IretGuarded(s: State, op32: bool): set<nat> {
    (if op32 then {RF} else {})
    + (if s.cpl <= IoplOf(s.flags) then {IF} else {})
    + (if s.cpl != 0 then {} else if op32 then IOPL + {VM} + VIRTUAL_INTERRUPT else IOPL)
  }

  /** The guarded bits a POPF at this level may load. */
  function PopfGuarded(s: State, op32: bool): set<nat> {
    (if op32 then {RF} else {})
    + (if s.cpl > IoplOf(s.flags) then {} else if op32 then {IF} + VIRTUAL_INTERRUPT else {IF})
    + (if s.cpl == 0 then IOPL else {})
  }

  /** The bits the 32-bit form clears in the image. */
  function PopfCleared(s: State, op32: bool): set<nat> {
    if !op32 then {} else if s.cpl > IoplOf(s.flags) then {RF} else {RF} + VIRTUAL_INTERRUPT
  }

  /** POPF and POPFD. */
  function Popf(c: Config, s: State, op32: bool): Outcome
    requires |s.mem| == SIZE32
  {
    if VM in s.flags then Leaves else Done(FlagsPopped(c, s, op32, Bits(Pop(s, op32, 0))))
  }

  function FlagsPopped(c: Config, s: State, op32: bool, image: set<nat>): State {
    WithFlags(c, WithSp(s, Sp(s) + if op32 then 4 else 2), image - PopfCleared(s, op32), PopfGuarded(s, op32))
  }

  /** CLI and STI. */
  function Interruptible(s: State, on: bool): Outcome {
    if VM in s.flags then Leaves
    else if s.cpl > IoplOf(s.flags) then Fault(GP, 0)
    else Done(s.(flags := if on then s.flags + {IF} else s.flags - {IF}))
  }

  // ---- IRET ----

  function Iret(c: Config, s: State, op32: bool): Outcome
    requires |s.mem| == SIZE32
  {
    var w := if op32 then 4 else 2;
    if NT in s.flags && VM !in s.flags then Leaves
    else if !c.popRoom(s.ss.desc, Sp(s), 3 * w) then Fault(SS, Index(s.ss.selector))
    else IretWith(c, s, op32, Pop(s, op32, 0), Stack16(s, Sp(s) + w), Bits(Pop(s, op32, 2 * w)))
  }

  function IretWith(c: Config, s: State, op32: bool, ip: dword, sel: word, image: set<nat>): Outcome
    requires |s.mem| == SIZE32
  {
    if VM in s.flags || (VM in image && s.cpl == 0) then Leaves else IretTo(c, s, op32, ip, sel, image)
  }

  function IretTo(c: Config, s: State, op32: bool, ip: dword, sel: word, image: set<nat>): Outcome
    requires |s.mem| == SIZE32
  {
    match Lookup(c, sel)
    case None => Fault(GP, Index(sel))
    case Some(d) =>
      if !d.Segment? || !d.code || Rpl(sel) < s.cpl || (d.ec && d.dpl > Rpl(sel)) then Fault(GP, Index(sel))
      else if !d.present then Fault(NP, Index(sel))
      else if Rpl(sel) > s.cpl then IretOuter(c, s, op32, sel, d, ip, image)
      else IretSame(c, s, op32, sel, d, ip, image)
  }

  function IretSame(c: Config, s: State, op32: bool, sel: word, d: Descriptor, ip: dword, image: set<nat>): Outcome
    requires d.Segment?
  {
    if ip > d.limit then Fault(GP, 0)
    else
      var t := WithSp(LoadCs(s, sel, d, s.cpl).(eip := ip), Sp(s) + (if op32 then 12 else 6));
      Done(WithFlags(c, t, image, IretGuarded(s, op32)))
  }

  function IretOuter(c: Config, s: State, op32: bool, sel: word, d: Descriptor, ip: dword, image: set<nat>): Outcome
    requires |s.mem| == SIZE32 && d.Segment?
  {
    var w := if op32 then 4 else 2;
    if !c.popRoom(s.ss.desc, Sp(s), 5 * w) then Fault(SS, Index(s.ss.selector))
    else IretOuterTo(c, s, op32, sel, d, ip, image, Pop(s, op32, 3 * w), Stack16(s, Sp(s) + 4 * w))
  }

  function IretOuterTo(c: Config, s: State, op32: bool, sel: word, d: Descriptor, ip: dword, image: set<nat>,
                       newSp: dword, newSs: word): Outcome
    requires d.Segment?
  {
    match Lookup(c, newSs)
    case None => Fault(GP, Index(newSs))
    case Some(sd) =>
      if Rpl(newSs) != Rpl(sel) || !WritableData(sd) then Fault(GP, Index(newSs))
      else if !sd.present then Fault(SS, Index(newSs))
      else if ip > d.limit then Fault(GP, 0)
      else Done(OnOuterStack(c, s, op32, sel, d, ip, image, newSp, newSs, sd))
  }

  /** The outer segments are loaded; which flags may change is decided by the level left behind. */
  function OnOuterStack(c: Config, s: State, op32: bool, sel: word, d: Descriptor, ip: dword, image: set<nat>,
                        newSp: dword, newSs: word, sd: Descriptor): State {
    var t := WithSp(LoadSs(LoadCs(s, sel, d, Rpl(sel)).(eip := ip), newSs, sd, Rpl(sel)), newSp);
    var u := WithFlags(c, t, image, IretGuarded(s, op32));
    u.(data := MapRegs(r => Screened(r, Rpl(sel)), s.data))
  }

  /** Loading ES, DS, FS or GS. */
  function LoadData(c: Config, s: State, k: nat, sel: word): Outcome
    requires k < |s.data|
  {
    match Lookup(c, sel)
    case None => if sel < 4 then Done(s.(data := s.data[k := SegReg(sel, NullDescriptor)])) else Fault(GP, Index(sel))
    case Some(d) =>
      if !d.Segment? || (d.code && !d.wr) then Fault(GP, Index(sel))
      else if (!d.code || !d.ec) && (Rpl(sel) > d.dpl || s.cpl > d.dpl) then Fault(GP, Index(sel))
      else if !d.present then Fault(NP, Index(sel))
      else Done(s.(data := s.data[k := SegReg(sel, d)]))
  }
}
