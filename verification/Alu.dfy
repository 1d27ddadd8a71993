/** Operand widths and arithmetic flags of the 16-bit core. */
module Alu {
  datatype Width = Byte | Word

  datatype Flags = Flags(cf: bool, of: bool, af: bool, zf: bool, sf: bool, pf: bool)

  datatype Outcome = Outcome(value: nat, flags: Flags)

  function Bit(b: bool): nat {
    if b then 1 else 0
  }

  /** Weight of the top bit. */
  function Top(w: Width): (t: int)
    ensures t in {0x80, 0x8000}
  {
    if w == Byte then 0x80 else 0x8000
  }

  /** The value as a two's-complement integer. */
  function Signed(w: Width, v: nat): int {
    if v >= Top(w) then v - 2 * Top(w) else v
  }

  function Ones(x: nat): nat {
    if x == 0 then 0 else x % 2 + Ones(x / 2)
  }

  /** Zero, sign and parity of a result; parity looks at the low byte only. */
  function Test(f: Flags, w: Width, v: nat): Flags {
    f.(zf := v == 0, sf := v >= Top(w), pf := Ones(v % 0x100) % 2 == 0)
  }
}
