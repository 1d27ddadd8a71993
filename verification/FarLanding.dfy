/** Where each far transfer lands: the registers it leaves, read off the selector, the descriptor
    tables and the stack. */
module FarLanding {
  import opened Words
  import opened Wrappers
  import opened FarTransfer
  import opened FarFlags
  import opened FarPrivilege
  import opened FarRoundTrip

  lemma {:induction false} BitMeans(v: nat, i: nat)
    ensures Bit(v, i) <==> Digit(v, i)
  {
    if i > 0 {
      BitMeans(v / 2, i - 1);
      HalfFirst(v, i - 1);
    }
  }

  // ---- IRET ----

  /** The five units an IRET may read; selectors are the low words of theirs. */
  datatype Popped = Popped(eip: dword, cs: word, image: dword, sp: dword, ss: word)

  function FrameAt(s: State, op32: bool): Popped
    requires |s.mem| == SIZE32
  {
    var f := Frame(s, op32, 5);
    Popped(f[0], f[1] % 0x1_0000, f[2], f[3], f[4] % 0x1_0000)
  }

  lemma IretUnits(s: State, op32: bool)
    requires |s.mem| == SIZE32
    ensures var f := FrameAt(s, op32);
      var w := if op32 then 4 else 2;
      && Pop(s, op32, 0) == f.eip && Stack16(s, Sp(s) + w) == f.cs && Pop(s, op32, 2 * w) == f.image
      && Pop(s, op32, 3 * w) == f.sp && Stack16(s, Sp(s) + 4 * w) == f.ss
  {
    hide Pop, Stack16, Frame;
    StackUnit(s, op32, 5, 0, 0);
    StackUnit(s, op32, 5, 1, Wide(op32));
    StackUnit(s, op32, 5, 2, 2 * Wide(op32));
    StackUnit(s, op32, 5, 3, 3 * Wide(op32));
    StackUnit(s, op32, 5, 4, 4 * Wide(op32));
  }

  /** IRET at the level of s loads flag bit b: status, trap, direction, nested task, alignment and
      identification always, the others as the level and the width allow, none the processor fixes. */
  predicate IretLoads(c: Config, s: State, op32: bool, b: nat) {
    var iopl := (if 12 in s.flags then 1 else 0) + (if 13 in s.flags then 2 else 0);
    && b !in c.fixedFlags
    && (|| b in {0, 2, 4, 6, 7, 8, 10, 11, 14, 18, 21}
        || (b == 9 && s.cpl <= iopl)
        || (b == 16 && op32)
        || (b in {12, 13} && s.cpl == 0)
        || (b in {17, 19, 20} && s.cpl == 0 && op32))
  }

  /** Each flag bit of t is the bit of the image if it may be loaded, and that of s otherwise. */
  ghost predicate FlagsLoaded(c: Config, s: State, t: State, op32: bool, image: dword) {
    forall b: nat :: b in t.flags <==> if IretLoads(c, s, op32, b) then Digit(image, b) else b in s.flags
  }

  lemma FlagsLand(c: Config, s: State, u: State, op32: bool, image: dword)
    requires u.flags == s.flags
    ensures FlagsLoaded(c, s, WithFlags(c, u, Bits(image), IretGuarded(s, op32)), op32, image)
  {
    forall b: nat
      ensures b in WithFlags(c, u, Bits(image), IretGuarded(s, op32)).flags
         <==> if IretLoads(c, s, op32, b) then Digit(image, b) else b in s.flags
    {
      BitMeans(image, b);
      hide Bit;
    }
  }

  /** A stack pointer as wide as the segment: 32 bits, or 16. */
  function Wrapped(d: Descriptor, v: int): nat {
    v % (if Big(d) then 0x1_0000_0000 else 0x1_0000)
  }

  /** The data registers of t are those of s with the unusable ones cleared, as IRET goes about it. */
  ghost predicate AllScreened(s: State, t: State) {
    |t.data| == |s.data| && forall k :: 0 <= k < |s.data| ==> t.data[k] == Screened(s.data[k], t.cpl)
  }

  /** And as a far return goes about it. */
  ghost predicate AllSanitized(c: Config, s: State, t: State) {
    |t.data| == |s.data| && forall k :: 0 <= k < |s.data| ==> t.data[k] == Sanitized(c, s.data[k], t.cpl)
  }

  /** An IRET that succeeds has popped its frame. CS, EIP and the loadable flags are what stood there.
      At the same level the stack pointer has moved up by three units and nothing else has changed; to
      an outer level SS and the stack pointer too are what stood there. */
  lemma IretLands(c: Config, s: State, op32: bool)
    requires Wf(s)
    ensures Iret(c, s, op32).Done? ==>
      var t, f := Iret(c, s, op32).s, FrameAt(s, op32);
      && t.eip == f.eip && t.cs.selector == f.cs && Lookup(c, f.cs) == Some(t.cs.desc)
      && t.cpl == Rpl(f.cs) >= s.cpl && FlagsLoaded(c, s, t, op32, f.image) && t.mem == s.mem
      && if t.cpl == s.cpl then
           t.ss == s.ss && t.data == s.data && Sp(t) == Wrapped(s.ss.desc, Sp(s) + 3 * Wide(op32))
         else
           && t.ss.selector == f.ss && Lookup(c, f.ss) == Some(t.ss.desc) && Sp(t) == Wrapped(t.ss.desc, f.sp)
           && AllScreened(s, t)
  {
    if Iret(c, s, op32).Done? {
      var sel, d, ip, image := IretSplit(c, s, op32);
      IretUnits(s, op32);
      hide Iret, IretSame, IretOuter, IretOuterTo, AllScreened, Bits, FrameAt, Pop, Stack16, FlagsLoaded, Lookup, WithRpl, Sp, Wrapped;
      var f := FrameAt(s, op32);
      if Rpl(sel) > s.cpl {
        OuterReads(c, s, op32, sel, d, ip, image);
        OuterLands(c, s, op32, sel, d, ip, f.image, f.sp, f.ss);
      } else {
        SameLands(c, s, op32, sel, d, ip, f.image);
      }
    }
  }

  lemma SpSet(s: State, v: int)
    ensures Sp(WithSp(s, v)) == Wrapped(s.ss.desc, v)
  {
    if !Big(s.ss.desc) {
      LowHalf(s.esp, v % 0x1_0000);
    }
  }

  lemma SameLands(c: Config, s: State, op32: bool, sel: word, d: Descriptor, ip: dword, image: dword)
    requires Wf(s) && d.Segment? && Rpl(sel) == s.cpl
    ensures IretSame(c, s, op32, sel, d, ip, Bits(image)).Done? ==>
      var t := IretSame(c, s, op32, sel, d, ip, Bits(image)).s;
      && t.eip == ip && t.cs == SegReg(sel, d) && t.cpl == s.cpl && FlagsLoaded(c, s, t, op32, image) && t.mem == s.mem
      && t.ss == s.ss && t.data == s.data && Sp(t) == Wrapped(s.ss.desc, Sp(s) + 3 * Wide(op32))
  {
    var u := WithSp(LoadCs(s, sel, d, s.cpl).(eip := ip), Sp(s) + (if op32 then 12 else 6));
    SpSet(LoadCs(s, sel, d, s.cpl).(eip := ip), Sp(s) + (if op32 then 12 else 6));
    FlagsLand(c, s, u, op32, image);
    hide FlagsLoaded, Bits, IretGuarded;
    RplOf(sel, s.cpl);
  }

  lemma OuterLands(c: Config, s: State, op32: bool, sel: word, d: Descriptor, ip: dword, image: dword,
                   newSp: dword, newSs: word)
    requires Wf(s) && d.Segment?
    ensures var r := IretOuterTo(c, s, op32, sel, d, ip, Bits(image), newSp, newSs);
      r.Done? ==>
        && r.s.eip == ip && r.s.cs == SegReg(sel, d) && r.s.cpl == Rpl(sel)
        && FlagsLoaded(c, s, r.s, op32, image) && r.s.mem == s.mem
        && r.s.ss.selector == newSs && Lookup(c, newSs) == Some(r.s.ss.desc) && Sp(r.s) == Wrapped(r.s.ss.desc, newSp)
        && AllScreened(s, r.s)
  {
    if IretOuterTo(c, s, op32, sel, d, ip, Bits(image), newSp, newSs).Done? {
      var sd := Lookup(c, newSs).value;
      var u := LoadSs(LoadCs(s, sel, d, Rpl(sel)).(eip := ip), newSs, sd, Rpl(sel));
      SpSet(u, newSp);
      FlagsLand(c, s, WithSp(u, newSp), op32, image);
      hide FlagsLoaded, Bits, IretGuarded;
      RplOf(sel, Rpl(sel));
      RplOf(newSs, Rpl(newSs));
    }
  }

  lemma OuterReads(c: Config, s: State, op32: bool, sel: word, d: Descriptor, ip: dword, image: set<nat>)
    requires Wf(s) && d.Segment?
    ensures var f, w := FrameAt(s, op32), if op32 then 4 else 2;
      IretOuter(c, s, op32, sel, d, ip, image)
      == if c.popRoom(s.ss.desc, Sp(s), 5 * w) then IretOuterTo(c, s, op32, sel, d, ip, image, f.sp, f.ss)
         else Fault(SS, Index(s.ss.selector))
  {
    IretUnits(s, op32);
    hide FrameAt, Pop, Stack16, IretOuterTo;
  }

  /** The code segment may be returned to with that selector and offset by an IRET. */
  predicate IretTarget(c: Config, cpl: nat, sel: word, ip: dword) {
    var d := Lookup(c, sel);
    && d.Some? && d.value.Segment? && d.value.code && d.value.present && ip <= d.value.limit
    && cpl <= Rpl(sel) && (d.value.ec ==> d.value.dpl <= Rpl(sel))
  }

  predicate IretStack(c: Config, level: nat, sel: word) {
    var d := Lookup(c, sel);
    d.Some? && WritableData(d.value) && d.value.present && Rpl(sel) == level
  }

  /** When an IRET succeeds: outside nested tasks and virtual-8086 mode, with the frame in the stack
      segment, and with targets that its one-sided rules admit. */
  lemma IretSucceeds(c: Config, s: State, op32: bool)
    requires Wf(s)
    ensures var f, w := FrameAt(s, op32), if op32 then 4 else 2;
      Iret(c, s, op32).Done? <==>
        && NT !in s.flags && VM !in s.flags && !(s.cpl == 0 && Digit(f.image, VM))
        && c.popRoom(s.ss.desc, Sp(s), 3 * w)
        && IretTarget(c, s.cpl, f.cs, f.eip)
        && (Rpl(f.cs) > s.cpl ==> c.popRoom(s.ss.desc, Sp(s), 5 * w) && IretStack(c, Rpl(f.cs), f.ss))
  {
    hide Iret, FrameAt, Bit, Digit, IretTo, IretTarget, IretStack, Sp;
    var f := FrameAt(s, op32);
    IretReads(c, s, op32);
    BitMeans(f.image, VM);
    ToSucceeds(c, s, op32, f.eip, f.cs, Bits(f.image));
  }

  lemma IretReads(c: Config, s: State, op32: bool)
    requires Wf(s)
    ensures var f := FrameAt(s, op32);
      Iret(c, s, op32)
      == if NT in s.flags && VM !in s.flags then Leaves
         else if !c.popRoom(s.ss.desc, Sp(s), 3 * (if op32 then 4 else 2)) then Fault(SS, Index(s.ss.selector))
         else IretWith(c, s, op32, f.eip, f.cs, Bits(f.image))
  {
    hide FrameAt, Pop, Stack16, Bits, Sp, IretWith;
    IretUnits(s, op32);
  }

  lemma ToSucceeds(c: Config, s: State, op32: bool, ip: dword, sel: word, image: set<nat>)
    requires Wf(s)
    ensures var f, w := FrameAt(s, op32), if op32 then 4 else 2;
      IretTo(c, s, op32, ip, sel, image).Done? <==>
        IretTarget(c, s.cpl, sel, ip)
        && (Rpl(sel) > s.cpl ==> c.popRoom(s.ss.desc, Sp(s), 5 * w) && IretStack(c, Rpl(sel), f.ss))
  {
    hide FrameAt, IretOuter, Lookup, OnOuterStack, WithFlags, LoadCs, WithSp, Rpl, Sp;
    if d :| Lookup(c, sel) == Some(d) && d.Segment? {
      OuterReads(c, s, op32, sel, d, ip, image);
    }
  }

  // ---- RETF ----

  /** What a far return that releases nbytes may read. */
  datatype Link = Link(eip: dword, cs: word, sp: dword, ss: word)

  /** Return address at the stack pointer, outer stack behind nbytes more. */
  function LinkAt(s: State, op32: bool, nbytes: nat): Link
    requires |s.mem| == SIZE32
  {
    var a, w := Base(s.ss.desc) + Sp(s), Wide(op32);
    Link(ReadUnit(s.mem, op32, a), ReadUnit(s.mem, op32, a + w) % 0x1_0000,
         ReadUnit(s.mem, op32, a + 2 * w + nbytes), ReadUnit(s.mem, op32, a + 3 * w + nbytes) % 0x1_0000)
  }

  lemma UnitPopped(s: State, op32: bool, off: nat)
    requires |s.mem| == SIZE32
    ensures var v := ReadUnit(s.mem, op32, Base(s.ss.desc) + Sp(s) + off);
      Pop(s, op32, off) == v && Stack16(s, Sp(s) + off) == v % 0x1_0000
  {
    var a := Base(s.ss.desc) + Sp(s) + off;
    assert Base(s.ss.desc) + (Sp(s) + off) == a;
    LowWord(s.mem, a);
    var v: int := Read16(s.mem, a);
    QuotientUnique(v, 0x1_0000, 0, v);
  }

  lemma LinkUnits(s: State, op32: bool, nbytes: nat)
    requires |s.mem| == SIZE32
    ensures var l := LinkAt(s, op32, nbytes);
      var w := if op32 then 4 else 2;
      && Pop(s, op32, 0) == l.eip && Stack16(s, Sp(s) + w) == l.cs
      && Pop(s, op32, 2 * w + nbytes) == l.sp && Stack16(s, Sp(s) + 2 * w + nbytes + w) == l.ss
  {
    hide Pop, Stack16, ReadUnit;
    var w := if op32 then 4 else 2;
    UnitPopped(s, op32, 0);
    UnitPopped(s, op32, w);
    UnitPopped(s, op32, 2 * w + nbytes);
    UnitPopped(s, op32, 3 * w + nbytes);
    assert Sp(s) + 2 * w + nbytes + w == Sp(s) + (3 * w + nbytes);
  }

  /** A far return that succeeds has taken EIP and CS from the stack; nbytes more are released. To an
      outer level, SS and the stack pointer are what stood behind those bytes, and again nbytes are
      released there. Flags and memory stay. */
  lemma RetLands(c: Config, s: State, op32: bool, nbytes: nat)
    requires Wf(s)
    ensures RetFar(c, s, op32, nbytes).Done? ==>
      var t, l := RetFar(c, s, op32, nbytes).s, LinkAt(s, op32, nbytes);
      && t.eip == l.eip && t.cs.selector == l.cs && Lookup(c, l.cs) == Some(t.cs.desc)
      && t.cpl == Rpl(l.cs) >= s.cpl && t.flags == s.flags && t.mem == s.mem
      && if t.cpl == s.cpl then
           t.ss == s.ss && t.data == s.data && Sp(t) == Wrapped(s.ss.desc, Sp(s) + nbytes + 2 * Wide(op32))
         else
           && t.ss.selector == l.ss && Lookup(c, l.ss) == Some(t.ss.desc) && Sp(t) == Wrapped(t.ss.desc, l.sp + nbytes)
           && AllSanitized(c, s, t)
  {
    if RetFar(c, s, op32, nbytes).Done? {
      var sel, d, ip := RetSplit(c, s, op32, nbytes);
      hide RetFar, RetSame, RetOuter, LinkAt, AllSanitized, Sp, Lookup, Wrapped, Wide, WithRpl, Rpl;
      if Rpl(sel) == s.cpl {
        RetSameLands(s, op32, nbytes, sel, d, ip);
      } else {
        RetOuterLinked(c, s, op32, nbytes, sel, d, ip);
      }
    }
  }

  lemma RetOuterLinked(c: Config, s: State, op32: bool, nbytes: nat, sel: word, d: Descriptor, ip: dword)
    requires Wf(s) && d.Segment?
    ensures var r, l := RetOuter(c, s, op32, nbytes, sel, d, ip), LinkAt(s, op32, nbytes);
      r.Done? ==>
        && r.s.eip == ip && r.s.cs == SegReg(sel, d) && r.s.cpl == Rpl(sel) && r.s.flags == s.flags && r.s.mem == s.mem
        && r.s.ss.selector == l.ss && Lookup(c, l.ss) == Some(r.s.ss.desc) && Sp(r.s) == Wrapped(r.s.ss.desc, l.sp + nbytes)
        && AllSanitized(c, s, r.s)
  {
    hide RetOuter, RetOuterTo, LinkAt, AllSanitized, Sp, Lookup, Wrapped, Wide, Rpl;
    var l := LinkAt(s, op32, nbytes);
    RetOuterReads(c, s, op32, nbytes, sel, d, ip);
    RetOuterLands(c, s, nbytes, sel, d, ip, l.sp, l.ss);
  }

  /** The state after a far return that stays at its level. */
  function RetSame(s: State, op32: bool, nbytes: nat, sel: word, d: Descriptor, ip: dword): State {
    LoadCs(WithSp(s, Sp(s) + nbytes + (if op32 then 8 else 4)), sel, d, s.cpl).(eip := ip)
  }

  lemma RetSplit(c: Config, s: State, op32: bool, nbytes: nat) returns (sel: word, d: Descriptor, ip: dword)
    requires Wf(s)
    ensures sel == LinkAt(s, op32, nbytes).cs && ip == LinkAt(s, op32, nbytes).eip
    ensures RetFar(c, s, op32, nbytes).Done? ==>
      && Lookup(c, sel) == Some(d) && d.Segment? && s.cpl <= Rpl(sel)
      && RetFar(c, s, op32, nbytes) ==
           if Rpl(sel) == s.cpl then Done(RetSame(s, op32, nbytes, sel, d, ip))
           else RetOuter(c, s, op32, nbytes, sel, d, ip)
  {
    hide RetFar, LinkAt, Sp, WithSp, RetOuter, LoadCs, Rpl;
    RetReads(c, s, op32, nbytes);
    sel, d, ip := LinkAt(s, op32, nbytes).cs, NullDescriptor, LinkAt(s, op32, nbytes).eip;
    if RetFar(c, s, op32, nbytes).Done? {
      d := Lookup(c, sel).value;
    }
  }

  lemma RetReads(c: Config, s: State, op32: bool, nbytes: nat)
    requires Wf(s)
    ensures var l := LinkAt(s, op32, nbytes);
      RetFar(c, s, op32, nbytes)
      == if !c.popRoom(s.ss.desc, Sp(s), nbytes + 2 * Wide(op32)) then Fault(SS, Index(s.ss.selector))
         else RetTo(c, s, op32, nbytes, l.eip, l.cs)
  {
    hide LinkAt, Pop, Stack16, Sp, RetTo;
    LinkUnits(s, op32, nbytes);
  }

  lemma RetSameLands(s: State, op32: bool, nbytes: nat, sel: word, d: Descriptor, ip: dword)
    requires Wf(s) && Rpl(sel) == s.cpl
    ensures var t := RetSame(s, op32, nbytes, sel, d, ip);
      && t.cs == SegReg(sel, d) && t.eip == ip && t.cpl == s.cpl
      && t.ss == s.ss && t.data == s.data && t.mem == s.mem && t.flags == s.flags
      && Sp(t) == Wrapped(s.ss.desc, Sp(s) + nbytes + 2 * Wide(op32))
  {
    RplOf(sel, s.cpl);
    SpSet(s, Sp(s) + nbytes + (if op32 then 8 else 4));
  }

  lemma RetOuterReads(c: Config, s: State, op32: bool, nbytes: nat, sel: word, d: Descriptor, ip: dword)
    requires Wf(s) && d.Segment?
    ensures var l := LinkAt(s, op32, nbytes);
      RetOuter(c, s, op32, nbytes, sel, d, ip)
      == if c.popRoom(s.ss.desc, Sp(s), nbytes + 4 * Wide(op32)) then RetOuterTo(c, s, nbytes, sel, d, ip, l.sp, l.ss)
         else Fault(SS, Index(s.ss.selector))
  {
    LinkUnits(s, op32, nbytes);
    hide LinkAt, Pop, Stack16, RetOuterTo;
  }

  lemma RetOuterLands(c: Config, s: State, nbytes: nat, sel: word, d: Descriptor, ip: dword, newSp: dword, newSs: word)
    requires Wf(s) && d.Segment?
    ensures var r := RetOuterTo(c, s, nbytes, sel, d, ip, newSp, newSs);
      r.Done? ==>
        && r.s.eip == ip && r.s.cs == SegReg(sel, d) && r.s.cpl == Rpl(sel) && r.s.flags == s.flags && r.s.mem == s.mem
        && r.s.ss.selector == newSs && Lookup(c, newSs) == Some(r.s.ss.desc)
        && Sp(r.s) == Wrapped(r.s.ss.desc, newSp + nbytes) && AllSanitized(c, s, r.s)
  {
    if RetOuterTo(c, s, nbytes, sel, d, ip, newSp, newSs).Done? {
      SpSet(LoadSs(s, newSs, Lookup(c, newSs).value, Rpl(sel)), newSp + nbytes);
      hide Sanitized;
      RplOf(sel, Rpl(sel));
      RplOf(newSs, Rpl(newSs));
    }
  }

  /** The code segment may be returned to with that selector and offset by a far return. */
  predicate RetTarget(c: Config, cpl: nat, sel: word, ip: dword) {
    var d := Lookup(c, sel);
    && d.Some? && d.value.Segment? && d.value.code && d.value.present && ip <= d.value.limit
    && cpl <= Rpl(sel) && (d.value.ec || d.value.dpl <= Rpl(sel))
  }

  predicate RetStack(c: Config, level: nat, sel: word) {
    var d := Lookup(c, sel);
    d.Some? && WritableData(d.value) && d.value.present && Rpl(sel) == level == d.value.dpl
  }

  /** When a far return succeeds. */
  lemma RetSucceeds(c: Config, s: State, op32: bool, nbytes: nat)
    requires Wf(s)
    ensures var l, w := LinkAt(s, op32, nbytes), Wide(op32);
      RetFar(c, s, op32, nbytes).Done? <==>
        && c.popRoom(s.ss.desc, Sp(s), nbytes + 2 * w) && RetTarget(c, s.cpl, l.cs, l.eip)
        && (Rpl(l.cs) > s.cpl ==> c.popRoom(s.ss.desc, Sp(s), nbytes + 4 * w) && RetStack(c, Rpl(l.cs), l.ss))
  {
    hide RetFar, LinkAt, Sp, RetTo, RetTarget, RetStack, Rpl;
    RetReads(c, s, op32, nbytes);
    RetToSucceeds(c, s, op32, nbytes, LinkAt(s, op32, nbytes).eip, LinkAt(s, op32, nbytes).cs);
  }

  lemma RetToSucceeds(c: Config, s: State, op32: bool, nbytes: nat, ip: dword, sel: word)
    requires Wf(s)
    ensures var l, w := LinkAt(s, op32, nbytes), Wide(op32);
      RetTo(c, s, op32, nbytes, ip, sel).Done? <==>
        && RetTarget(c, s.cpl, sel, ip)
        && (Rpl(sel) > s.cpl ==> c.popRoom(s.ss.desc, Sp(s), nbytes + 4 * w) && RetStack(c, Rpl(sel), l.ss))
  {
    hide LinkAt, Sp, Lookup, Rpl, RetOuter, LoadCs, LoadSs, WithSp, MapRegs;
    if d :| Lookup(c, sel) == Some(d) && d.Segment? {
      RetOuterReads(c, s, op32, nbytes, sel, d, ip);
    }
  }

  // ---- JMP and CALL ----

  /** A selector names the descriptor at its index, whatever its two low bits; index 0 names none. */
  lemma LookupMeans(c: Config, i: nat, rpl: nat)
    requires i < 0x4000 && rpl < 4
    ensures Lookup(c, 4 * i + rpl)
         == if i == 0 || i !in c.table || c.table[i].NullDescriptor? then None else Some(c.table[i])
  {
    QuotientUnique(4 * i + rpl, 4, i, rpl);
  }

  /** The parameters of a call are the units from the caller's stack pointer up. */
  lemma ParametersFrame(s: State, is32: bool, n: nat)
    requires |s.mem| == SIZE32
    ensures Parameters(s, is32, n) == Frame(s, is32, n)
  {
    hide Read16, Read32, Upward;
    var ps := Parameters(s, is32, n);
    forall k: nat | k < n ensures ps[k] == Frame(s, is32, n)[k] {
      UpwardAt(s.mem, is32, Base(s.ss.desc) + Sp(s), n, k);
      assert Base(s.ss.desc) + (Sp(s) + Bytes(is32, k)) == Base(s.ss.desc) + Sp(s) + Bytes(is32, k);
    }
  }

  /** Where a selector leads: the code segment itself, or through a gate to the gate's entry point. */
  datatype Goal = Goal(selector: word, desc: Descriptor, offset: dword, gate: Option<Descriptor>)

  function GoalOf(c: Config, sel: word, ip: dword): Option<Goal> {
    var d := Lookup(c, sel);
    if d.None? then None
    else if d.value.Segment? then Some(Goal(sel, d.value, ip, None))
    else if d.value.CallGate? && Lookup(c, d.value.selector).Some? then
      Some(Goal(d.value.selector, Lookup(c, d.value.selector).value, d.value.offset, Some(d.value)))
    else None
  }

  /** The goal is present code, its gate, if any, may be used, and the entry point lies in the segment. */
  predicate Enterable(s: State, sel: word, g: Goal) {
    && g.desc.Segment? && g.desc.code && g.desc.present && g.offset <= g.desc.limit
    && (g.gate.Some? ==>
          && g.gate.value.CallGate? && g.gate.value.present
          && s.cpl <= g.gate.value.dpl && Rpl(sel) <= g.gate.value.dpl)
  }

  /** The level rule of a transfer that keeps its level. */
  predicate StaysIn(s: State, g: Goal)
    requires g.desc.Segment?
  {
    if g.desc.ec then g.desc.dpl <= s.cpl else g.desc.dpl == s.cpl && Rpl(g.selector) <= s.cpl
  }

  /** A far jump succeeds if and only if its goal may be entered at the present level; it loads CS and
      EIP from the goal, the selector with the present level, and changes nothing else. */
  lemma JmpLands(c: Config, s: State, sel: word, ip: dword)
    requires Wf(s)
    ensures var g := GoalOf(c, sel, ip);
      if g.Some? && Enterable(s, sel, g.value) && StaysIn(s, g.value) then
        JmpFar(c, s, sel, ip)
        == Done(s.(cs := SegReg(g.value.selector / 4 * 4 + s.cpl, g.value.desc), eip := g.value.offset))
      else JmpFar(c, s, sel, ip).Fault?
  {
    hide Lookup;
  }

  /** The inner stack of a call to level dpl: its selector, descriptor and top. */
  predicate InnerStack(c: Config, g: Descriptor, d: Descriptor)
    requires g.CallGate? && d.Segment?
  {
    c.tss(d.dpl).Some? &&
    var (newSs, newEsp) := c.tss(d.dpl).value;
    var sd := Lookup(c, newSs);
    && sd.Some? && WritableData(sd.value) && sd.value.present && sd.value.dpl == d.dpl == Rpl(newSs)
    && c.pushRoom(sd.value, newEsp, CheckedSize(g, d))
  }

  /** The call goes to an inner level. */
  predicate GoesInside(s: State, g: Goal)
    requires g.desc.Segment?
  {
    g.gate.Some? && !g.desc.ec && g.desc.dpl < s.cpl
  }

  /** When a far call succeeds: straight to code by the rule of a jump; through a gate to code that is
      not less privileged; with room for the return address, or an inner stack to switch to. */
  predicate Callable(c: Config, s: State, op32: bool, sel: word, g: Goal) {
    && Enterable(s, sel, g)
    && (if g.gate.None? then StaysIn(s, g) else g.desc.dpl <= s.cpl)
    && if GoesInside(s, g) then g.gate.value.CallGate? && InnerStack(c, g.gate.value, g.desc)
       else c.pushRoom(s.ss.desc, Sp(s), 2 * Wide(LinkWidth(c, op32, sel)))
  }

  lemma CallSucceeds(c: Config, s: State, op32: bool, sel: word, ip: dword)
    requires Wf(s)
    ensures var g := GoalOf(c, sel, ip);
      CallFar(c, s, op32, sel, ip).Done? <==> g.Some? && Callable(c, s, op32, sel, g.value)
  {
    hide Lookup, Linked, Switched, Sp, CheckedSize, Rpl;
  }

  /** A call that succeeds lands on its goal: CS and EIP are loaded from it, the level is that of the
      goal when it is an inner one and the present one otherwise; data registers and flags stay. */
  lemma CallLands(c: Config, s: State, op32: bool, sel: word, ip: dword)
    requires Wf(s)
    ensures CallFar(c, s, op32, sel, ip).Done? ==>
      var t, g := CallFar(c, s, op32, sel, ip).s, GoalOf(c, sel, ip);
      && g.Some? && g.value.desc.Segment?
      && t.cs.desc == g.value.desc && Index(t.cs.selector) == Index(g.value.selector) && t.eip == g.value.offset
      && t.cpl == Rpl(t.cs.selector) == (if GoesInside(s, g.value) then g.value.desc.dpl else s.cpl)
      && t.data == s.data && t.flags == s.flags
  {
    if CallFar(c, s, op32, sel, ip).Done? {
      hide Linked, Switched;
      var d := Lookup(c, sel).value;
      if d.Segment? {
        LinkedRegs(s, op32, sel, d, ip);
      } else {
        var e := Lookup(c, d.selector).value;
        if GoesInside(s, GoalOf(c, sel, ip).value) {
          var (newSs, newEsp) := c.tss(e.dpl).value;
          SwitchedRegs(s, d, e, newSs, Lookup(c, newSs).value, newEsp);
          SwitchedFlags(s, d, e, newSs, Lookup(c, newSs).value, newEsp);
          RplOf(d.selector, e.dpl);
        } else {
          LinkedRegs(s, d.is32, d.selector, e, d.offset);
        }
      }
    }
  }

  lemma LinkedRegs(s: State, is32: bool, sel: word, d: Descriptor, ip: dword)
    requires Wf(s)
    ensures var t := Linked(s, is32, sel, d, ip);
      && t.cs.desc == d && Index(t.cs.selector) == Index(sel) && t.eip == ip
      && t.cpl == Rpl(t.cs.selector) == s.cpl && t.data == s.data && t.flags == s.flags
  {
    hide Write16, Write32, Sp;
    RplOf(sel, s.cpl);
  }

  // ---- POPF, the data registers, memory order ----

  /** POPF at the level of s loads flag bit b. */
  predicate PopfLoads(c: Config, s: State, b: nat) {
    var iopl := (if 12 in s.flags then 1 else 0) + (if 13 in s.flags then 2 else 0);
    && b !in c.fixedFlags
    && (b in {0, 2, 4, 6, 7, 8, 10, 11, 14, 18, 21} || (b == 9 && s.cpl <= iopl) || (b in {12, 13} && s.cpl == 0))
  }

  /** The 32-bit form clears RF, and the virtual interrupt flags at a level not above IOPL. */
  predicate PopfClears(c: Config, s: State, b: nat) {
    var iopl := (if 12 in s.flags then 1 else 0) + (if 13 in s.flags then 2 else 0);
    b !in c.fixedFlags && (b == 16 || (b in {19, 20} && s.cpl <= iopl))
  }

  lemma PopfBit(c: Config, s: State, op32: bool, image: set<nat>, b: nat)
    ensures b in FlagsPopped(c, s, op32, image).flags
       <==> if PopfLoads(c, s, b) then b in image else b in s.flags && !(op32 && PopfClears(c, s, b))
  {
    hide Sp, IoplOf;
    var low := s.cpl <= IoplOf(s.flags);
    assert PopfLoads(c, s, b)
      <==> b !in c.fixedFlags && (b in ORDINARY || (b == IF && low) || (b in IOPL && s.cpl == 0)) by {
      IoplWeights(s.flags);
    }
    assert PopfClears(c, s, b) <==> b !in c.fixedFlags && (b == RF || (b in VIRTUAL_INTERRUPT && low)) by {
      IoplWeights(s.flags);
    }
    hide PopfLoads, PopfClears;
    assert b in PopfGuarded(s, op32) <==>
      (op32 && b == RF) || (low && b == IF) || (low && op32 && b in VIRTUAL_INTERRUPT) || (s.cpl == 0 && b in IOPL);
    assert b in PopfCleared(s, op32) <==> op32 && (b == RF || (low && b in VIRTUAL_INTERRUPT));
  }

  lemma IoplWeights(flags: set<nat>)
    ensures IoplOf(flags) == (if 12 in flags then 1 else 0) + (if 13 in flags then 2 else 0)
  {
  }

  /** POPF pops one unit and takes the bits it may load from there; everything else stays. */
  lemma PopfLands(c: Config, s: State, op32: bool)
    requires Wf(s) && VM !in s.flags
    ensures var image := FrameAt(s, op32).eip;
      Popf(c, s, op32).Done? &&
      var t := Popf(c, s, op32).s;
      && t == s.(esp := t.esp, flags := t.flags) && Sp(t) == Wrapped(s.ss.desc, Sp(s) + Wide(op32))
      && forall b: nat :: b in t.flags
           <==> if PopfLoads(c, s, b) then Digit(image, b) else b in s.flags && !(op32 && PopfClears(c, s, b))
  {
    hide FrameAt, Pop, Wrapped, Bit, Digit, PopfLoads, PopfClears, PopfGuarded, PopfCleared;
    IretUnits(s, op32);
    var image := FrameAt(s, op32).eip;
    SpSet(s, Sp(s) + if op32 then 4 else 2);
    var t := FlagsPopped(c, s, op32, Bits(image));
    forall b: nat
      ensures b in t.flags
         <==> if PopfLoads(c, s, b) then Digit(image, b) else b in s.flags && !(op32 && PopfClears(c, s, b))
    {
      PopfBit(c, s, op32, Bits(image), b);
      BitMeans(image, b);
      LoadsBelow(c, s, b);
    }
  }

  lemma LoadsBelow(c: Config, s: State, b: nat)
    ensures PopfLoads(c, s, b) ==> b < 32
  {
  }

  /** CLI and STI settle the interrupt flag and nothing else, at a level not above IOPL; above it they fault. */
  lemma InterruptLands(s: State, on: bool)
    requires Wf(s) && VM !in s.flags
    ensures var iopl := (if 12 in s.flags then 1 else 0) + (if 13 in s.flags then 2 else 0);
      var r := Interruptible(s, on);
      if s.cpl > iopl then r == Fault(GP, 0)
      else r.Done? && r.s == s.(flags := r.s.flags) && forall b: nat :: b in r.s.flags <==> if b == 9 then on else b in s.flags
  {
  }

  lemma WordDigits(v: word, b: nat)
    requires b in {18, 21}
    ensures !Digit(v, b)
  {
    assert Pow2(8) == 0x100;
    assert Pow2(16) == 0x1_0000 by {
      assert Pow2(12) == 0x1000;
    }
    assert Pow2(b) > v by {
      assert Pow2(18) == 4 * Pow2(16) && Pow2(21) == 8 * Pow2(18);
    }
    QuotientUnique(v, Pow2(b), 0, v);
  }

  /** The 16-bit forms of POPF and IRET clear the alignment and identification flags, bits 18 and 21, which
      their images do not reach; the manual has them unchanged (Intel SDM volume 2, POPF and IRET). */
  lemma WordFormClears(c: Config, s: State, b: nat)
    requires Wf(s) && b in {18, 21} && b !in c.fixedFlags
    ensures VM !in s.flags ==> Popf(c, s, false).Done? && b !in Popf(c, s, false).s.flags
    ensures Iret(c, s, false).Done? ==> b !in Iret(c, s, false).s.flags
  {
    IretUnits(s, false);
    var f := FrameAt(s, false);
    assert f.eip < 0x1_0000 && f.image < 0x1_0000;
    WordDigits(f.eip, b);
    WordDigits(f.image, b);
    IretLands(c, s, false);
    hide FrameAt, Pop, Stack16, Popf, Iret, Digit;
    if VM !in s.flags {
      PopfLands(c, s, false);
    }
  }

  /** A data register with a segment keeps it, on an outward IRET, if and only if it is usable at the new
      level; on an outward far return its selector must still name such a segment, too, one that can be read. */
  lemma KeptExactly(c: Config, r: SegReg, level: nat)
    requires r.desc.Segment?
    ensures Screened(r, level) == if SafeReg(r, level) then r else NULL_SEGMENT
    ensures var e := Lookup(c, r.selector);
      Sanitized(c, r, level)
      == if && SafeReg(r, level) && e.Some? && e.value.Segment? && (e.value.code ==> e.value.wr)
            && SafeReg(SegReg(r.selector, e.value), level)
         then r else NULL_SEGMENT
  {
    hide Lookup;
  }

  /** Byte k of a stored dword is its k-th digit to base 256, from the least significant one. */
  lemma LittleEndian(m: seq<byte>, a: int, v: dword, k: nat)
    requires |m| == SIZE32 && k < 4
    ensures ByteAt(Write32(m, a, v), a + k) == v / [0x1, 0x100, 0x1_0000, 0x100_0000][k] % 0x100
  {
    var low: int, high: int := v % 0x1_0000, v / 0x1_0000;
    var m1 := Write16(m, a, low);
    hide Write16, ByteAt;
    if k < 2 {
      ByteAfterWrite16(m1, a + 2, high, a + k);
      WordBytes(m, a, low);
      LowBytes(v);
    } else {
      WordBytes(m1, a + 2, high);
      HighBytes(v);
    }
  }

  lemma LowBytes(v: dword)
    ensures v % 0x1_0000 % 0x100 == v % 0x100 && v % 0x1_0000 / 0x100 == v / 0x100 % 0x100
  {
    var low := v % 0x1_0000;
    QuotientUnique(v, 0x100, v / 0x1_0000 * 0x100 + low / 0x100, low % 0x100);
    QuotientUnique(v / 0x100, 0x100, v / 0x1_0000, low / 0x100);
  }

  lemma HighBytes(v: dword)
    ensures v / 0x1_0000 / 0x100 == v / 0x100_0000 % 0x100
  {
    var high := v / 0x1_0000;
    QuotientUnique(v, 0x100_0000, high / 0x100, high % 0x100 * 0x1_0000 + v % 0x1_0000);
  }

  lemma WordBytes(m: seq<byte>, a: int, v: word)
    requires |m| == SIZE32
    ensures ByteAt(Write16(m, a, v), a) == v % 0x100 && ByteAt(Write16(m, a, v), a + 1) == v / 0x100
  {
    ModApart(a + 1, a);
  }
}
