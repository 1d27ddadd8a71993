/** The parser as it runs: two blocks of memory filled in place by one loop. */
module FcbReader {
  import opened Words
  import opened FcbParse

  class Reader {
    const fcb1: array<byte>
    const fcb2: array<byte>
    var i: nat
    var mode: Mode
    var second: bool
    var at: nat

    constructor (one: array<byte>, two: array<byte>)
      ensures fcb1 == one && fcb2 == two
    {
      fcb1, fcb2 := one, two;
    }

    /** Bytes 0 to 11 of each block; the rest is never touched. */
    ghost predicate Shaped()
      reads this
    {
      fcb1 != fcb2 && fcb1.Length >= FIELD && fcb2.Length >= FIELD
    }

    ghost function View(): Config
      requires Shaped()
      reads this, fcb1, fcb2
    {
      Config(i, mode, at, fcb1[..FIELD], fcb2[..FIELD])
    }

    /** The output pointer is in the block its mode says. */
    ghost predicate Sided()
      reads this
    {
      mode == Exit || second == !InFirst(mode)
    }

    twostate predicate Beyond()
      requires Shaped() && old(Shaped())
      reads this, fcb1, fcb2
    {
      fcb1[FIELD..] == old(fcb1[FIELD..]) && fcb2[FIELD..] == old(fcb2[FIELD..])
    }

    method Write(v: byte)
      requires Shaped() && at < FIELD && mode != Exit && Sided()
      modifies `at, fcb1, fcb2
      ensures View() == Put(old(View()), v) && Beyond()
    {
      if second {
        fcb2[at] := v;
      } else {
        fcb1[at] := v;
      }
      at := at + 1;
    }

    method Fill(end: nat)
      requires Shaped() && end <= FIELD && mode != Exit && Sided()
      modifies `at, fcb1, fcb2
      ensures View() == FillTo(old(View()), end) && Beyond()
    {
      while at < end
        invariant FillTo(View(), end) == FillTo(old(View()), end) && Beyond()
      {
        Write(QUERY);
      }
    }

    method Go(m: Mode, place: nat)
      modifies `mode, `at, `second
      ensures mode == m && at == place && second == !InFirst(m)
    {
      mode, at, second := m, place, !InFirst(m);
    }

    /** The whole parse: it ends on every line, and writes bytes 0 to 11 only. */
    method Parse(line: seq<byte>)
      requires Shaped()
      modifies this, fcb1, fcb2
      ensures View() == Parsed(line) && Beyond()
    {
      i := 0;
      Go(Init, 1);
      Clear(fcb1);
      Clear(fcb2);
      assert View() == Config(0, Init, 1, Blank(), Blank());
      while mode != Exit && i < |line|
        invariant Inv(line, View()) && Sided() && Beyond() && Run(line, View()) == Parsed(line)
        decreases if mode == Exit then 0 else |line| - i + 1, Rank(mode)
      {
        Turn(line);
      }
    }

    /** One turn: a case for the mode, then on to the next character unless this one is read again. */
    method Turn(line: seq<byte>)
      requires Shaped() && Sided() && mode != Exit && i < |line| && Inv(line, View())
      modifies this, fcb1, fcb2
      ensures Sided() && View() == Step(line, old(View())) && Beyond()
    {
      var c, again := line[i], false;
      match mode {
        case Init | InitPlus => again := AtStart(line, c);
        case Name1 => InName1(line, c);
        case Ext1 => InExt1(line, c);
        case Purge =>
          if Separator(c) {
            Go(Sep, at);
            again := true;
          }
        case Sep | SepPlus => AtSecond(line, c);
        case Name2 => InName2(line, c);
        case Ext2 => InExt2(line, c);
      }
      if mode != Exit && !again {
        i := i + 1;
      }
    }

    /** The state before the loop's closing increment. */
    ghost predicate Leaves(line: seq<byte>, c: Config, again: bool)
      requires Shaped()
      reads this, fcb1, fcb2
    {
      Sided() && c == if mode == Exit || again then View() else Next(View())
    }

    method AtStart(line: seq<byte>, c: byte) returns (again: bool)
      requires Shaped() && Sided() && mode in {Init, InitPlus} && i < |line| && c == line[i] && Inv(line, View())
      modifies this, fcb1, fcb2
      ensures Leaves(line, StepInit(line, old(View())), again) && Beyond()
    {
      again := false;
      if c == DOT {
        Go(Ext1, 9);
      } else if c == PLUS {
        if mode == Init {
          Go(InitPlus, at);
        } else {
          Go(Purge, 1);
        }
      } else if c == STAR {
        Stars(fcb1);
        at := 9;
      } else if Separator(c) {
        if mode == InitPlus {
          Go(Purge, 1);
          again := true;
        }
      } else if Valid(c) {
        First(line, c);
      } else {
        Go(Purge, 1);
      }
    }

    /** Drive letter or first character. */
    method First(line: seq<byte>, c: byte)
      requires Shaped() && Sided() && mode in {Init, InitPlus, Sep, SepPlus}
      requires i < |line| && c == line[i] && Inv(line, View())
      modifies this, fcb1, fcb2
      ensures Leaves(line, Begin(line, old(View())), false) && Beyond()
    {
      if i + 1 < |line| && line[i + 1] == COLON {
        if second {
          fcb2[0] := Drive(c);
        } else {
          fcb1[0] := Drive(c);
        }
        i := i + 1;
      } else {
        Write(Upper(c));
      }
      Go(if second then Name2 else Name1, at);
    }

    method Stars(fcb: array<byte>)
      requires fcb.Length >= FIELD
      modifies fcb
      ensures fcb[..FIELD] == Questions(old(fcb[..FIELD])) && fcb[FIELD..] == old(fcb[FIELD..])
    {
      forall j | 0 <= j < 8 {
        fcb[j + 1] := QUERY;
      }
    }

    method InName1(ghost line: seq<byte>, c: byte)
      requires Shaped() && Sided() && mode == Name1 && i < |line| && c == line[i] && Inv(line, View())
      modifies this, fcb1, fcb2
      ensures Leaves(line, StepName1(line, old(View())), false) && Beyond()
    {
      if c == DOT {
        Go(Ext1, 9);
      } else if c == STAR {
        Fill(9);
      } else if Separator(c) {
        Go(Sep, 1);
      } else if !Valid(c) {
        Go(Purge, 1);
      } else if at - 1 < 8 {
        Write(Upper(c));
      }
    }

    method InExt1(ghost line: seq<byte>, c: byte)
      requires Shaped() && Sided() && mode == Ext1 && i < |line| && c == line[i] && Inv(line, View())
      modifies this, fcb1, fcb2
      ensures Leaves(line, StepExt1(line, old(View())), false) && Beyond()
    {
      if c == DOT {
        Go(Purge, 1);
      } else if c == STAR {
        Fill(12);
      } else if Separator(c) {
        Go(Sep, 1);
      } else if !Valid(c) {
        Go(Purge, 1);
      } else if at - 9 < 3 {
        Write(Upper(c));
      }
    }

    method AtSecond(line: seq<byte>, c: byte)
      requires Shaped() && Sided() && mode in {Sep, SepPlus} && i < |line| && c == line[i] && Inv(line, View())
      modifies this, fcb1, fcb2
      ensures Leaves(line, StepSep(line, old(View())), false) && Beyond()
    {
      if c == DOT {
        Go(Ext2, 9);
      } else if c == PLUS {
        Go(if mode == Sep then SepPlus else Exit, at);
      } else if c == STAR {
        Stars(fcb2);
      } else if Separator(c) {
        if mode == SepPlus {
          Go(Exit, at);
        }
      } else if Valid(c) {
        First(line, c);
      } else {
        Go(Exit, at);
      }
    }

    method InName2(ghost line: seq<byte>, c: byte)
      requires Shaped() && Sided() && mode == Name2 && i < |line| && c == line[i] && Inv(line, View())
      modifies this, fcb1, fcb2
      ensures Leaves(line, StepName2(line, old(View())), false) && Beyond()
    {
      if c == DOT {
        Go(Ext2, 9);
      } else if c == STAR {
        Fill(9);
      } else if Separator(c) || !Valid(c) {
        Go(Exit, at);
      } else if at - 1 < 8 {
        Write(Upper(c));
      }
    }

    method InExt2(ghost line: seq<byte>, c: byte)
      requires Shaped() && Sided() && mode == Ext2 && i < |line| && c == line[i] && Inv(line, View())
      modifies this, fcb1, fcb2
      ensures Leaves(line, StepExt2(line, old(View())), false) && Beyond()
    {
      if c == STAR {
        Fill(12);
        Go(Exit, at);
      } else if Separator(c) || !Valid(c) {
        Go(Exit, at);
      } else if at - 9 < 3 {
        Write(Upper(c));
      }
    }

    method Clear(fcb: array<byte>)
      requires fcb.Length >= FIELD
      modifies fcb
      ensures fcb[..FIELD] == Blank() && fcb[FIELD..] == old(fcb[FIELD..])
    {
      fcb[0] := 0;
      forall j | 1 <= j < FIELD {
        fcb[j] := SPACE;
      }
    }
  }
}
