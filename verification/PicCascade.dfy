/** What ends the service of the cascade line, and what happens while nothing does. */
module PicCascade {
  import opened Wrappers
  import opened Pic
  import opened PicRuns
  import opened PicCases

  // ---- the specific end of interrupt of a slave line ----

  /** Whatever happens, the slave's in-service register holds at most line 2, the master's line. */
  lemma SlaveServiceStep(p: Pair, e: Event)
    requires p.slave.isr <= {CASCADE}
    ensures After(p, e).slave.isr <= {CASCADE}
  {
    match e
    case PortWrite(port, v) =>
    case _ =>
  }

  lemma {:induction false} SlaveServiceRun(p: Pair, es: seq<Event>)
    requires p.slave.isr <= {CASCADE}
    ensures Run(p, es).slave.isr <= {CASCADE}
    decreases |es|
  {
    if es != [] {
      SlaveServiceStep(p, es[0]);
      SlaveServiceRun(After(p, es[0]), es[1..]);
    }
  }

  /** The end of interrupt of slave line n leaves the cascade line free if and only if it was free, or
      the slave had nothing else in service. */
  lemma EoiExact(p: Pair, n: nat)
    requires n < 8
    ensures CASCADE !in Eoi(p, 8 + n).master.isr <==> CASCADE !in p.master.isr || p.slave.isr <= {n}
  {
    assert EoiChip(p.slave, n).isr == p.slave.isr - {n};
  }

  /** The delivery of slave line n puts the cascade line into service. Its end of interrupt frees the
      cascade line if and only if n is 2, or the slave retires by itself and had nothing in service. */
  lemma SlaveEndExact(p: Pair, n: nat)
    requires p.slave.isr <= {CASCADE} && !p.master.autoEoi && n < 8 && Delivered(p, Poll) == Some(8 + n)
    ensures CASCADE in Handle(p).master.isr
    ensures CASCADE !in Eoi(Handle(p), 8 + n).master.isr <==> n == 2 || (p.slave.autoEoi && p.slave.isr == {})
  {
    Accepted(p, n);
    hide Handle, Delivered;
    EoiExact(Handle(p), n);
  }

  lemma Accepted(p: Pair, n: nat)
    requires p.slave.isr <= {CASCADE} && !p.master.autoEoi && n < 8 && Delivered(p, Poll) == Some(8 + n)
    ensures CASCADE in Handle(p).master.isr
    ensures Handle(p).slave.isr == if p.slave.autoEoi then p.slave.isr else {CASCADE}
  {
    PicksBelow(p);
    hide Scan, SlavePick, MasterPick;
    CascadeKeepsBases(p);
  }

  lemma PicksBelow(p: Pair)
    ensures (MasterPick(p).Some? ==> MasterPick(p).value < 8) && (SlavePick(p).Some? ==> SlavePick(p).value < 8)
  {
    ScanFound(p.slave, p.slave.imr, false, 0);
    ScanFound(Cascaded(p).master, p.slave.imr, p.master.specialNest, 0);
  }

  // ---- the end of interrupt the BIOS gives ----

  /** What the BIOS entry of interrupt inum tells the controllers. */
  function BiosEoi(p: Pair, inum: nat): Pair {
    if 0x08 <= inum <= 0x0f then Eoi(p, inum - 0x08)
    else if 0x70 <= inum <= 0x78 then Eoi(p, inum - 0x70)
    else p
  }

  method BiosEnd(c: Controllers, inum: nat)
    modifies c
    ensures c.Both() == BiosEoi(old(c.Both()), inum)
  {
    if 0x08 <= inum <= 0x0f {
      c.EndOfInterrupt(inum - 0x08);
    } else if 0x70 <= inum <= 0x78 {
      c.EndOfInterrupt(inum - 0x70);
    }
  }

  /** With the bases the controllers start with, the BIOS ends exactly the line that was delivered when
      it was a line of the master; for slave line n it ends line n of the master instead, so the cascade
      line is freed if and only if n is 2. */
  lemma BiosEndExact(p: Pair, base: nat, line: nat)
    requires !p.master.autoEoi && line < 8 && Raised(p) == Some(Vector(if base == 0x08 then 0x08 else 0x70, line))
    requires base in {0x08, 0x70} && p.master.base == 0x08 && p.slave.base == 0x70
    ensures var k := if base == 0x08 then line else CASCADE;
      var q, r := Handle(p), BiosEoi(Handle(p), base + line);
      && k in q.master.isr && r.slave == q.slave && r.master == q.master.(isr := q.master.isr - {line})
      && (k !in r.master.isr <==> base == 0x08 || line == 2)
  {
    CascadeKeepsBases(p);
  }

  // ---- while the cascade line stays in service ----

  /** Both chips operating, the master fully nested, line 2 in service on both. */
  ghost predicate Stuck(p: Pair) {
    && Nested(p.master) && p.master.initializing == 0 && p.slave.initializing == 0
    && CASCADE in p.master.isr && CASCADE in p.slave.isr
  }

  /** Requests, polls, new masks, and the end of interrupt of any line but the two numbered 2. */
  predicate Ordinary(e: Event) {
    match e
    case EndOfIrq(num) => num != CASCADE && num != 8 + CASCADE
    case PortWrite(port, _) => Decode(port) in {MasterData, SlaveData, Ignored}
    case _ => true
  }

  lemma StuckStep(p: Pair, e: Event)
    requires Stuck(p) && Ordinary(e)
    ensures Stuck(After(p, e)) && (Delivered(p, e).Some? ==> Delivered(p, e).value < CASCADE)
  {
    match e
    case Poll =>
      if MasterPick(p).Some? {
        DispatchExact(p, MasterPick(p).value);
      }
    case EndOfIrq(num) =>
      if num >= 8 {
        assert CASCADE in EoiChip(p.slave, num - 8).isr;
      }
    case _ =>
  }

  /** From then on, over any ordinary run, no line of the slave and no line above 2 is ever delivered. */
  lemma {:induction false} StuckForever(p: Pair, es: seq<Event>)
    requires Stuck(p) && forall e :: e in es ==> Ordinary(e)
    ensures Stuck(Run(p, es))
    ensures forall i :: 0 <= i < |es| && Delivered(Run(p, es[..i]), es[i]).Some? ==> Delivered(Run(p, es[..i]), es[i]).value < CASCADE
    decreases |es|
  {
    if es != [] {
      var q := After(p, es[0]);
      StuckStep(p, es[0]);
      StuckForever(q, es[1..]);
      forall i | 0 <= i < |es| && Delivered(Run(p, es[..i]), es[i]).Some?
        ensures Delivered(Run(p, es[..i]), es[i]).value < CASCADE
      {
        if i == 0 {
          assert es[..0] == [];
        } else {
          assert es[..i][1..] == es[1..][..i - 1] && es[i] == es[1..][i - 1];
        }
      }
    }
  }

  /** A run from reset that gets there: the slave unmasked, a clock request, its delivery, and its end
      of interrupt as line 8. */
  lemma ClockLeavesCascade() returns (es: seq<Event>, p: Pair)
    ensures NestedRun(RESET, es) && p == Run(RESET, es) && Delivered(p, Poll) == Some(8)
    ensures Stuck(After(After(p, Poll), EndOfIrq(8)))
  {
    AtReset();
    Masks();
    hide Run, NestedRun, After, Registers, RESET, Stuck, Delivered;
    var p1 := Writes(RESET, 0, {}, {}, {}, ALL_LINES);
    p := Asks(p1, 8, {}, {}, {}, {});
    var q := PollClock(p);
    var r := EndClock(q);
    es := Ended(p1, Request(8), p);
    es := Before(RESET, PortWrite(0xA1, 0), p1, es);
  }

  lemma PollClock(p: Pair) returns (q: Pair)
    requires Registers(p, {}, {}, {0}, {})
    ensures q == After(p, Poll) && Delivered(p, Poll) == Some(8) && Stuck(q)
  {
    q := After(p, Poll);
    PickExact(p, 0);
    assert SlavePick(p) == Some(0);
    assert Foremost(Cascaded(p).master, CASCADE);
    DispatchExact(p, CASCADE);
  }

  lemma EndClock(p: Pair) returns (q: Pair)
    requires Stuck(p)
    ensures q == After(p, EndOfIrq(8)) && Stuck(q)
  {
    q := After(p, EndOfIrq(8));
    StuckStep(p, EndOfIrq(8));
  }
}
