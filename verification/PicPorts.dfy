/** What each byte written to a command port of the interrupt controllers does. */
module PicPorts {
  import opened Pic
  import opened PicRuns

  /** The bytes of the specific end of interrupt for lines 0 to 7, without and with rotation. */
  const SPECIFIC: seq<bv8> := [0x60, 0x61, 0x62, 0x63, 0x64, 0x65, 0x66, 0x67]
  const SPECIFIC_ROTATE: seq<bv8> := [0xe0, 0xe1, 0xe2, 0xe3, 0xe4, 0xe5, 0xe6, 0xe7]

  /** The mask register bytes of one line. */
  const SINGLE: seq<bv8> := [0x01, 0x02, 0x04, 0x08, 0x10, 0x20, 0x40, 0x80]

  function WithChip(p: Pair, m: bool, c: Chip): Pair {
    if m then p.(master := c) else p.(slave := c)
  }

  predicate IsCommand(port: nat, m: bool) {
    port % 16 == 0 && (port / 16 % 16 == 2 <==> m)
  }

  lemma CommandWrite(p: Pair, m: bool, port: nat, v: bv8)
    requires IsCommand(port, m)
    ensures Write(p, port, v) == WithChip(p, m, Command(ChipOf(p, m), OrderOf(v)))
  {
  }

  lemma Specific(v: bv8, n: nat)
    requires n < 8 && v in {SPECIFIC[n], SPECIFIC_ROTATE[n]}
    ensures OrderOf(v) == Retire(n)
  {
  }

  /** 60h + n and E0h + n end line n of the chip they are written to, and do nothing else. */
  lemma SpecificEnds(p: Pair, m: bool, port: nat, v: bv8, n: nat)
    requires IsCommand(port, m) && n < 8 && v in {SPECIFIC[n], SPECIFIC_ROTATE[n]}
    ensures Write(p, port, v) == WithChip(p, m, ChipOf(p, m).(isr := ChipOf(p, m).isr - {n}))
  {
    Specific(v, n);
    CommandWrite(p, m, port, v);
  }

  /** 20h and A0h, whatever their three low bits, end the highest line in service, and do nothing else. */
  lemma NonSpecificEnds(p: Pair, m: bool, port: nat, v: bv8)
    requires IsCommand(port, m) && v & 0xf8 in {0x20, 0xa0}
    ensures var c := ChipOf(p, m);
      if c.isr == {} then Write(p, port, v) == p
      else exists t: nat :: t in c.isr && (forall j :: j in c.isr ==> t <= j)
             && Write(p, port, v) == WithChip(p, m, c.(isr := c.isr - {t}))
  {
    assert OrderOf(v) == RetireHighest;
    CommandWrite(p, m, port, v);
    var c := ChipOf(p, m);
    var t := Top(c.isr, 0);
    if t == 8 {
      assert forall j :: j in c.isr ==> j < 8;
      assert c.(isr := c.isr - {8}) == c;
    } else {
      assert Write(p, port, v) == WithChip(p, m, c.(isr := c.isr - {t}));
    }
  }

  /** The other priority orders, rotation among them, are ignored. */
  lemma OthersIgnored(p: Pair, m: bool, port: nat, v: bv8)
    requires IsCommand(port, m) && v & 0xf8 in {0x00, 0x40, 0x80, 0xc0}
    ensures Write(p, port, v) == p
  {
    assert OrderOf(v) == NoOrder;
    CommandWrite(p, m, port, v);
  }

  /** OCW3 sets or clears special mask mode and selects the register to be read, each only when its
      enable bit is set, and does nothing else. */
  lemma ModesSet(p: Pair, m: bool, port: nat, v: bv8)
    requires IsCommand(port, m) && v & 0x18 == 0x08
    ensures var c := ChipOf(p, m);
      var mask := if v & 0x60 == 0x60 then true else if v & 0x60 == 0x40 then false else c.specialMask;
      var read := if v & 0x03 == 0x03 then ReadIsr else if v & 0x03 == 0x02 then ReadIrr else c.read;
      Write(p, port, v) == WithChip(p, m, c.(specialMask := mask, read := read))
  {
    Ocw3Bits(v);
    CommandWrite(p, m, port, v);
  }

  lemma Ocw3Bits(v: bv8)
    requires v & 0x18 == 0x08
    ensures OrderOf(v).Ocw3?
    ensures v & 0x60 == 0x60 ==> v & 0x40 != 0 && v & 0x20 != 0
    ensures v & 0x60 == 0x40 <==> v & 0x40 != 0 && v & 0x20 == 0
    ensures v & 0x60 == 0x60 <==> v & 0x40 != 0 && v & 0x20 != 0
    ensures v & 0x03 == 0x02 <==> v & 0x02 != 0 && v & 0x01 == 0
    ensures v & 0x03 == 0x03 <==> v & 0x02 != 0 && v & 0x01 != 0
  {
  }

  /** A mask byte with one bit set masks that line alone. */
  lemma SingleMask(n: nat)
    requires n < 8
    ensures LinesOf(SINGLE[n]) == {n}
  {
    forall i: nat | i < 8 ensures SINGLE[n] & Mask(i) != 0 <==> i == n {
    }
  }

  /** A request, on a chip in operation or not, makes exactly that line outstanding. */
  lemma RequestOutstanding(p: Pair, num: nat, n: nat)
    requires num < 16 && n < 16
    ensures Outstanding(Trigger(p, num), n) <==> Outstanding(p, n) || n == num
  {
  }
}
