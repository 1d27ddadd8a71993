/** The two cascaded 8259 interrupt controllers: registers, priority scan, port protocol. */
module Pic {
  import opened Wrappers

  // ---- eight-bit registers, as the sets of lines whose bits are one ----

  type Lines = s: set<nat> | forall i :: i in s ==> i < 8

  function Mask(i: nat): bv8 {
    match i
    case 0 => 0x01
    case 1 => 0x02
    case 2 => 0x04
    case 3 => 0x08
    case 4 => 0x10
    case 5 => 0x20
    case 6 => 0x40
    case 7 => 0x80
    case _ => 0
  }

  function LinesOf(v: bv8): Lines {
    set i: nat | i < 8 && v & Mask(i) != 0
  }

  /** The register with bit i set; a bit beyond the eighth is lost. */
  function Set(x: Lines, i: nat): Lines {
    if i < 8 then x + {i} else x
  }

  // ---- one controller ----

  datatype ReadSelect = ReadIrr | ReadIsr | ReadPoll

  /** initializing counts the initialization words seen: 0 when operating, 1 after ICW1. */
  datatype Chip = Chip(initializing: nat, base: bv8, autoEoi: bool, specialNest: bool, specialMask: bool,
                       read: ReadSelect, imr: Lines, irr: Lines, isr: Lines, pending: Lines)

  datatype Pair = Pair(master: Chip, slave: Chip)

  /** The interrupt number base + line. */
  datatype Vector = Vector(base: bv8, line: nat)

  const CASCADE := 2

  /** The line the scan of one chip settles on, from line i upward. An in-service line ends the
      scan unless special mask mode and smmMask skip it; line 2 is exempt when exempt is set. */
  function Scan(c: Chip, smmMask: Lines, exempt: bool, i: nat): Option<nat>
    decreases 8 - i
  {
    if i >= 8 then None
    else if !(i == CASCADE && exempt) && i in c.isr then
      if c.specialMask && i in smmMask then Scan(c, smmMask, exempt, i + 1) else None
    else if !c.specialMask && i in c.imr then Scan(c, smmMask, exempt, i + 1)
    else if i in c.irr then Some(i)
    else Scan(c, smmMask, exempt, i + 1)
  }

  function SlavePick(p: Pair): Option<nat> {
    if p.slave.irr == {} then None else Scan(p.slave, p.slave.imr, false, 0)
  }

  function TriggerChip(c: Chip, line: nat): Chip {
    if c.initializing != 0 then c.(pending := Set(c.pending, line)) else c.(irr := Set(c.irr, line))
  }

  function Trigger(p: Pair, num: nat): Pair {
    if num >= 8 then p.(slave := TriggerChip(p.slave, num - 8)) else p.(master := TriggerChip(p.master, num))
  }

  /** The pair as the master scan sees it: a slave request has raised line 2. */
  function Cascaded(p: Pair): Pair {
    if SlavePick(p).Some? then Trigger(p, CASCADE) else p
  }

  function MasterPick(p: Pair): Option<nat> {
    var q := Cascaded(p);
    if q.master.irr == {} then None else Scan(q.master, q.slave.imr, q.master.specialNest, 0)
  }

  function Accept(c: Chip, line: nat, service: nat): Chip {
    c.(irr := c.irr - {line}, isr := if c.autoEoi then c.isr else Set(c.isr, service))
  }

  /** The slave records the master's line, 2, as in service, whatever line it delivers. */
  function Handle(p: Pair): Pair {
    var q := Cascaded(p);
    match MasterPick(p)
    case None => q
    case Some(i) =>
      Pair(Accept(q.master, i, i),
           if i == CASCADE && SlavePick(p).Some? then Accept(q.slave, SlavePick(p).value, CASCADE) else q.slave)
  }

  function Raised(p: Pair): Option<Vector> {
    match MasterPick(p)
    case None => None
    case Some(i) =>
      if i != CASCADE then Some(Vector(p.master.base, i))
      else if SlavePick(p).Some? then Some(Vector(p.slave.base, SlavePick(p).value))
      else None
  }

  function EoiChip(c: Chip, line: nat): Chip {
    c.(isr := c.isr - {line})
  }

  function Eoi(p: Pair, num: nat): Pair {
    if num >= 8 then
      var s := EoiChip(p.slave, num - 8);
      Pair(if s.isr == {} then EoiChip(p.master, CASCADE) else p.master, s)
    else
      p.(master := EoiChip(p.master, num))
  }

  /** The in-service line of highest priority; 8 when there is none. */
  function Top(isr: Lines, i: nat): (t: nat)
    ensures i <= 8 ==> i <= t <= 8
    ensures forall j: nat :: i <= j < t ==> j !in isr
    ensures t < 8 ==> t in isr
    decreases 8 - i
  {
    if i >= 8 then 8 else if i in isr then i else Top(isr, i + 1)
  }

  function LowBits(v: bv8): nat {
    (if v & 1 != 0 then 1 else 0) + (if v & 2 != 0 then 2 else 0) + (if v & 4 != 0 then 4 else 0)
  }

  /** What a byte written to the command port asks for. */
  datatype Order =
    | Icw1
    | Ocw3(setMask: Option<bool>, setRead: Option<ReadSelect>)
    | RetireHighest
    | Retire(line: nat)
    | NoOrder

  function OrderOf(v: bv8): Order {
    if v & 0x10 != 0 then Icw1
    else if v & 0x08 != 0 then
      Ocw3(if v & 0x40 != 0 then Some(v & 0x20 != 0) else None,
           if v & 0x02 != 0 then Some(if v & 0x01 != 0 then ReadIsr else ReadIrr) else None)
    else if v & 0xe0 == 0x20 || v & 0xe0 == 0xa0 then RetireHighest
    else if v & 0xe0 == 0x60 || v & 0xe0 == 0xe0 then Retire(LowBits(v))
    else NoOrder
  }

  function Command(c: Chip, o: Order): Chip {
    match o
    case Icw1 =>
      c.(initializing := 1, imr := {}, isr := {}, irr := {}, pending := {}, specialMask := false, read := ReadIrr)
    case Ocw3(m, r) =>
      c.(specialMask := if m.Some? then m.value else c.specialMask, read := if r.Some? then r.value else c.read)
    case RetireHighest => c.(isr := c.isr - {Top(c.isr, 0)})
    case Retire(line) => c.(isr := c.isr - {line})
    case NoOrder => c
  }

  /** A data-port write: the next initialization word, or the interrupt mask. */
  function Data(c: Chip, v: bv8): Chip {
    if c.initializing == 1 then c.(base := v & 0xf8, initializing := 2)
    else if c.initializing == 2 then c.(initializing := 3)
    else if c.initializing == 3 then
      c.(autoEoi := v & 0x02 != 0, specialNest := v & 0x10 != 0, initializing := 0, irr := c.pending)
    else c.(imr := LinesOf(v))
  }

  datatype Port = MasterCommand | MasterData | SlaveCommand | SlaveData | Ignored

  function Decode(port: nat): Port {
    var master := port / 16 % 16 == 2;
    if port % 16 == 0 then (if master then MasterCommand else SlaveCommand)
    else if port % 16 == 1 then (if master then MasterData else SlaveData)
    else Ignored
  }

  function Write(p: Pair, port: nat, v: bv8): Pair {
    match Decode(port)
    case MasterCommand => p.(master := Command(p.master, OrderOf(v)))
    case MasterData => p.(master := Data(p.master, v))
    case SlaveCommand => p.(slave := Command(p.slave, OrderOf(v)))
    case SlaveData => p.(slave := Data(p.slave, v))
    case Ignored => p
  }

  function Fresh(base: bv8, imr: Lines): Chip {
    Chip(0, base, false, false, false, ReadIrr, imr, {}, {}, {})
  }

  const RESET := Pair(Fresh(0x08, LinesOf(0xf8)), Fresh(0x70, LinesOf(0xff)))

  // ---- the emulator's state ----

  class Controllers {
    var master: Chip
    var slave: Chip

    function Both(): Pair
      reads this
    {
      Pair(master, slave)
    }

    constructor ()
      ensures Both() == RESET
    {
      master, slave := Fresh(0x08, LinesOf(0xf8)), Fresh(0x70, LinesOf(0xff));
    }

    method Reinit()
      modifies this
      ensures Both() == RESET
    {
      master, slave := Fresh(0x08, LinesOf(0xf8)), Fresh(0x70, LinesOf(0xff));
    }

    method TriggerIrq(num: nat)
      modifies this
      ensures Both() == Trigger(old(Both()), num)
    {
      if num >= 8 {
        slave := if slave.initializing != 0 then slave.(pending := Set(slave.pending, num - 8))
                 else slave.(irr := Set(slave.irr, num - 8));
      } else {
        master := if master.initializing != 0 then master.(pending := Set(master.pending, num))
                  else master.(irr := Set(master.irr, num));
      }
    }

    method EndOfInterrupt(num: nat)
      modifies this
      ensures Both() == Eoi(old(Both()), num)
    {
      if num >= 8 {
        slave := slave.(isr := slave.isr - {num - 8});
        if slave.isr == {} {
          master := master.(isr := master.isr - {CASCADE});
        }
      } else {
        master := master.(isr := master.isr - {num});
      }
    }

    /** Non-specific end of interrupt: clears the first in-service bit from line 0 up. */
    static method RetireTop(c: Chip) returns (d: Chip)
      ensures d == c.(isr := c.isr - {Top(c.isr, 0)})
    {
      d := c;
      var i: nat := 0;
      while i < 8
        invariant i <= 8 && d == c && Top(c.isr, 0) == Top(c.isr, i)
      {
        if i in d.isr {
          return d.(isr := d.isr - {i});
        }
        i := i + 1;
      }
      assert c.isr - {8} == c.isr;
    }

    method PortWrite(port: nat, v: bv8)
      modifies this
      ensures Both() == Write(old(Both()), port, v)
    {
      var isMaster := port / 16 % 16 == 2;
      var c := if isMaster then master else slave;
      if port % 16 == 0 {
        match OrderOf(v) {
          case Icw1 =>
            c := c.(initializing := 1, imr := {}, isr := {}, irr := {}, pending := {}, specialMask := false, read := ReadIrr);
          case Ocw3(m, r) =>
            if m.Some? {
              c := c.(specialMask := m.value);
            }
            if r.Some? {
              c := c.(read := r.value);
            }
          case RetireHighest => c := RetireTop(c);
          case Retire(line) => c := c.(isr := c.isr - {line});
          case NoOrder =>
        }
      } else if port % 16 == 1 {
        c := Data(c, v);
      }
      if isMaster {
        master := c;
      } else {
        slave := c;
      }
    }

    /** First half of HandleIrq: a request the slave would serve is passed on to line 2. */
    method CheckSlave() returns (fromSlave: Option<nat>)
      modifies this
      ensures Both() == Cascaded(old(Both())) && fromSlave == SlavePick(old(Both()))
    {
      ghost var p := Both();
      if slave.irr == {} {
        return None;
      }
      var i: nat := 0;
      while i < 8
        invariant i <= 8 && Both() == p
        invariant SlavePick(p) == Scan(p.slave, p.slave.imr, false, i)
      {
        if i in slave.isr {
          if !(slave.specialMask && i in slave.imr) {
            return None;
          }
        } else if (slave.specialMask || i !in slave.imr) && i in slave.irr {
          TriggerIrq(CASCADE);
          return Some(i);
        }
        i := i + 1;
      }
      return None;
    }

    /** Puts the master's line i into service and delivers the interrupt behind it. */
    method Dispatch(i: nat, fromSlave: Option<nat>) returns (raised: Option<Vector>)
      modifies this
      ensures master == Accept(old(master), i, i)
      ensures slave == if i == CASCADE && fromSlave.Some? then Accept(old(slave), fromSlave.value, CASCADE) else old(slave)
      ensures raised == if i != CASCADE then Some(Vector(old(master).base, i))
                        else if fromSlave.Some? then Some(Vector(old(slave).base, fromSlave.value)) else None
    {
      raised := None;
      master := master.(irr := master.irr - {i}, isr := if master.autoEoi then master.isr else Set(master.isr, i));
      if i == CASCADE {
        if fromSlave.Some? {
          slave := slave.(irr := slave.irr - {fromSlave.value}, isr := if slave.autoEoi then slave.isr else Set(slave.isr, i));
          raised := Some(Vector(slave.base, fromSlave.value));
        }
      } else {
        raised := Some(Vector(master.base, i));
      }
    }

    /** One poll of the interrupt lines: the slave is scanned first and asks through line 2. */
    method HandleIrq() returns (raised: Option<Vector>)
      modifies this
      ensures Both() == Handle(old(Both())) && raised == Raised(old(Both()))
    {
      ghost var p := Both();
      var fromSlave := CheckSlave();
      ghost var q := Cascaded(p);
      if master.irr == {} {
        return None;
      }
      var i: nat := 0;
      while i < 8
        invariant i <= 8 && Both() == q
        invariant MasterPick(p) == Scan(q.master, q.slave.imr, q.master.specialNest, i)
      {
        if !(i == CASCADE && master.specialNest) && i in master.isr {
          if !(master.specialMask && i in slave.imr) {
            return None;
          }
        } else if (master.specialMask || i !in master.imr) && i in master.irr {
          raised := Dispatch(i, fromSlave);
          CascadeKeepsBases(p);
          return;
        }
        i := i + 1;
      }
      return None;
    }
  }

  lemma CascadeKeepsBases(p: Pair)
    ensures Cascaded(p).master.base == p.master.base && Cascaded(p).slave == p.slave
  {
  }
}
