/** A run of the interrupt controllers that ends in a dispatch without an interrupt. */
module PicCases {
  import opened Wrappers
  import opened Pic
  import opened PicRuns

  /** Both chips operating in their reset modes, the master with its two low lines and the cascade
      open, the registers as listed. */
  ghost predicate Registers(p: Pair, irr: Lines, isr: Lines, slaveIrr: Lines, slaveImr: Lines) {
    && Nested(p.master) && p.master.initializing == 0 && p.master.imr == {3, 4, 5, 6, 7}
    && !p.slave.specialMask && !p.slave.autoEoi && p.slave.initializing == 0 && p.slave.isr == {}
    && p.master.irr == irr && p.master.isr == isr && p.slave.irr == slaveIrr && p.slave.imr == slaveImr
  }

  const ALL_LINES: Lines := {0, 1, 2, 3, 4, 5, 6, 7}

  lemma Masks()
    ensures LinesOf(0) == {} && LinesOf(0xff) == ALL_LINES && LinesOf(0xf8) == {3, 4, 5, 6, 7}
  {
  }

  lemma NestedCons(p: Pair, e: Event, q: Pair, es: seq<Event>)
    requires Nested(p.master) && After(p, e) == q && NestedRun(q, es)
    ensures NestedRun(p, [e] + es) && Run(p, [e] + es) == Run(q, es)
  {
    assert ([e] + es)[1..] == es;
  }

  /** Line 0 alone is requested: the poll puts it into service. */
  lemma PollTimer(p: Pair, imr: Lines) returns (q: Pair)
    requires Registers(p, {0}, {}, {}, imr)
    ensures q == After(p, Poll) && Registers(q, {}, {0}, {}, imr)
  {
    q := After(p, Poll);
    assert Foremost(p.master, 0);
    DispatchExact(p, 0);
  }

  /** With line 0 in service, a slave request raises the cascade line and waits. */
  lemma PollSlaveWaits(p: Pair) returns (q: Pair)
    requires Registers(p, {}, {0}, {0}, {})
    ensures q == After(p, Poll) && Registers(q, {2}, {0}, {0}, {})
  {
    q := After(p, Poll);
    PickExact(p, 0);
    assert SlavePick(p) == Some(0);
  }

  /** The slave masked in the meantime, it has nothing to offer. */
  lemma NothingBehind(p: Pair)
    requires Registers(p, {2}, {}, {0}, ALL_LINES)
    ensures SlavePick(p).None? && MasterPick(p) == Some(CASCADE) && Raised(p).None?
  {
    ScanFound(p.slave, p.slave.imr, false, 0);
    assert Foremost(p.master, CASCADE);
    DispatchExact(p, CASCADE);
  }

  lemma Writes(p: Pair, v: bv8, irr: Lines, isr: Lines, slaveIrr: Lines, slaveImr: Lines) returns (q: Pair)
    requires Registers(p, irr, isr, slaveIrr, slaveImr)
    ensures q == After(p, PortWrite(0xA1, v)) && Registers(q, irr, isr, slaveIrr, LinesOf(v))
  {
    q := After(p, PortWrite(0xA1, v));
    assert Decode(0xA1) == SlaveData;
  }

  /** A slave request raises the cascade line while the timer is in service; the slave's lines are
      masked before the timer's end of interrupt. The master then dispatches the cascade line, marks
      it in service, and raises no interrupt. */
  lemma DispatchBehindMask() returns (es: seq<Event>)
    ensures NestedRun(RESET, es)
    ensures var p := Run(RESET, es); MasterPick(p) == Some(CASCADE) && Raised(p).None?
  {
    hide Run, NestedRun, After, Registers, RESET;
    Masks();
    AtReset();
    var p1 := Writes(RESET, 0, {}, {}, {}, ALL_LINES);
    var p2 := Asks(p1, 0, {}, {}, {}, {});
    var p3 := PollTimer(p2, {});
    var p4 := Asks(p3, 8, {}, {0}, {}, {});
    var p5 := PollSlaveWaits(p4);
    var p6 := Writes(p5, 0xff, {2}, {0}, {0}, {});
    var p7 := TimerDone(p6);
    NothingBehind(p7);
    var es7 := Ended(p6, EndOfIrq(0), p7);
    es := Before(p5, PortWrite(0xA1, 0xff), p6, es7);
    es := Before(p4, Poll, p5, es);
    es := Before(p3, Request(8), p4, es);
    es := Before(p2, Poll, p3, es);
    es := Before(p1, Request(0), p2, es);
    es := Before(RESET, PortWrite(0xA1, 0), p1, es);
  }

  lemma AtReset()
    ensures Registers(RESET, {}, {}, {}, ALL_LINES)
  {
    Masks();
  }

  lemma Asks(p: Pair, num: nat, irr: Lines, isr: Lines, slaveIrr: Lines, slaveImr: Lines) returns (q: Pair)
    requires Registers(p, irr, isr, slaveIrr, slaveImr) && num in {0, 8}
    ensures q == After(p, Request(num))
    ensures Registers(q, if num == 0 then irr + {0} else irr, isr, if num == 8 then slaveIrr + {0} else slaveIrr, slaveImr)
  {
    q := After(p, Request(num));
  }

  lemma TimerDone(p: Pair) returns (q: Pair)
    requires Registers(p, {2}, {0}, {0}, ALL_LINES)
    ensures q == After(p, EndOfIrq(0)) && Registers(q, {2}, {}, {0}, ALL_LINES)
  {
    q := After(p, EndOfIrq(0));
  }

  lemma Ended(p: Pair, e: Event, q: Pair) returns (es: seq<Event>)
    requires Nested(p.master) && Nested(q.master) && q == After(p, e)
    ensures NestedRun(p, es) && Run(p, es) == q
  {
    NestedCons(p, e, q, []);
    es := [e] + [];
  }

  lemma Before(p: Pair, e: Event, q: Pair, rest: seq<Event>) returns (es: seq<Event>)
    requires Nested(p.master) && q == After(p, e) && NestedRun(q, rest)
    ensures NestedRun(p, es) && Run(p, es) == Run(q, rest)
  {
    NestedCons(p, e, q, rest);
    es := [e] + rest;
  }
}
