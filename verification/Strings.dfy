/** The repeated string instructions: REP MOVSB, REP MOVSW, REP(N)E SCASB and REP(N)E SCASW. */
module Strings {
  import opened Words
  import opened Alu
  import opened Chains

  const SEGMENT := 0x1_0000

  /** One byte or one word per step. */
  type unit = x: int | 1 <= x <= 2 witness 1

  /** Bytes in n units. */
  function Span(k: unit, n: nat): nat {
    if k == 1 then n else 2 * n
  }

  /** How far n units take an index register. */
  function Way(k: unit, n: nat, down: bool): int {
    var span: int := Span(k, n);
    if down then -span else span
  }

  /** An index register after n units: it wraps at the segment size. */
  function Index(x: word, k: unit, n: nat, down: bool): word {
    (x + Way(k, n, down)) % SEGMENT
  }

  lemma IndexStep(x: word, k: unit, n: nat, down: bool)
    ensures Index(Index(x, k, n, down), k, 1, down) == Index(x, k, n + 1, down)
  {
  }

  lemma IndexStart(x: word, k: unit, down: bool)
    ensures Index(x, k, 0, down) == x
  {
  }

  /** The same number of units the other way leads back, whatever wraps on the way. */
  lemma IndexBack(x: word, k: unit, n: nat, down: bool)
    ensures Index(Index(x, k, n, down), k, n, !down) == x
  {
    var w := Way(k, n, down);
    var y := Index(x, k, n, down);
    QuotientUnique(y - w, SEGMENT, -((x + w) / SEGMENT), x);
  }

  /** x & (size - 1), for memory of a power-of-two size. */
  function Masked(size: nat, x: nat): (a: nat)
    requires size > 0
    ensures a < size
  {
    if x < size then x else x % size
  }

  /** One MOVS from linear address a to b, under the address mask: the whole unit is read before it is written. */
  function Transfer(m: seq<byte>, k: unit, a: nat, b: nat): (r: seq<byte>)
    requires m != []
    ensures |r| == |m|
  {
    var low, high, once := m[Masked(|m|, a)], m[Masked(|m|, a + 1)], m[Masked(|m|, b) := m[Masked(|m|, a)]];
    if k == 1 then once else once[Masked(|m|, b + 1) := high]
  }

  /** The operands: linear bases of the two segments, index registers, direction. */
  datatype Operands = Operands(from: nat, to: nat, si: word, di: word, down: bool)

  /** Memory after n units. */
  function Memory(m: seq<byte>, o: Operands, k: unit, n: nat): (r: seq<byte>)
    requires m != []
    ensures |r| == |m|
  {
    if n == 0 then m
    else
      Transfer(Memory(m, o, k, n - 1), k, Source(o, k, n - 1), Target(o, k, n - 1))
  }

  /** Linear addresses of unit n, counting from 0. */
  function Source(o: Operands, k: unit, n: nat): nat {
    o.from + Index(o.si, k, n, o.down)
  }

  function Target(o: Operands, k: unit, n: nat): nat {
    o.to + Index(o.di, k, n, o.down)
  }

  // ---- what a run does to memory ----

  /** n units going up from an offset, or down from it, stay inside the segment and inside memory. */
  predicate NoWrap(size: nat, base: nat, offset: word, k: unit, n: nat, down: bool) {
    if down then offset >= Span(k, n) - k && base + offset + k <= size
    else offset + Span(k, n) <= SEGMENT && base + offset + Span(k, n) <= size
  }

  predicate Straight(size: nat, o: Operands, k: unit, n: nat) {
    NoWrap(size, o.from, o.si, k, n, o.down) && NoWrap(size, o.to, o.di, k, n, o.down)
  }

  lemma IndexStraight(size: nat, base: nat, x: word, k: unit, n: nat, total: nat, down: bool)
    requires n < total && NoWrap(size, base, x, k, total, down)
    ensures Index(x, k, n, down) == x + Way(k, n, down)
  {
  }

  /** m' is m with len bytes at b replaced by the ones m has at a. */
  ghost predicate Copied(m: seq<byte>, m': seq<byte>, a: nat, b: nat, len: nat) {
    && |m'| == |m|
    && (forall x {:trigger m'[x]} :: b <= x < b + len && x < |m| ==> 0 <= a + (x - b) < |m| && m'[x] == m[a + (x - b)])
    && forall x {:trigger m'[x]} :: 0 <= x < |m| && !(b <= x < b + len) ==> m'[x] == m[x]
  }

  lemma TransferCopies(m: seq<byte>, k: unit, a: nat, b: nat)
    requires a + k <= |m| && b + k <= |m|
    ensures Copied(m, Transfer(m, k, a, b), a, b, k)
  {
  }

  /** The last of n units of a run that does not wrap. */
  lemma Unit(m: seq<byte>, o: Operands, k: unit, n: nat) returns (a: nat, b: nat)
    requires n > 0 && m != [] && Straight(|m|, o, k, n)
    ensures a == o.from + o.si + Way(k, n - 1, o.down) && b == o.to + o.di + Way(k, n - 1, o.down)
    ensures Copied(Memory(m, o, k, n - 1), Memory(m, o, k, n), a, b, k)
  {
    hide Transfer, Index, Copied;
    a, b := Source(o, k, n - 1), Target(o, k, n - 1);
    IndexStraight(|m|, o.from, o.si, k, n - 1, n, o.down);
    IndexStraight(|m|, o.to, o.di, k, n - 1, n, o.down);
    TransferCopies(Memory(m, o, k, n - 1), k, a, b);
  }

  /** Extending a copied run upwards: the new unit was not overwritten yet. */
  lemma ExtendUp(m: seq<byte>, m1: seq<byte>, m2: seq<byte>, a: nat, b: nat, len: nat,
                  c: nat, d: nat, k: nat, total: nat)
    requires Copied(m, m1, a, b, len) && Copied(m1, m2, c, d, k)
    requires c == a + len && d == b + len && total == len + k && a + total <= |m| && b + total <= |m|
    requires b <= a || b >= a + total
    ensures Copied(m, m2, a, b, total)
  {
    forall x | b <= x < b + total && x < |m| ensures 0 <= a + (x - b) < |m| && m2[x] == m[a + (x - b)] {
      if x >= b + len {
        assert m2[x] == m1[c + (x - d)];
      }
    }
  }

  lemma ExtendDown(m: seq<byte>, m1: seq<byte>, m2: seq<byte>, a: nat, b: nat, len: nat,
                  c: nat, d: nat, k: nat, total: nat)
    requires Copied(m, m1, c, d, len) && Copied(m1, m2, a, b, k)
    requires c == a + k && d == b + k && total == len + k && a + total <= |m| && b + total <= |m|
    requires b >= a || b + total <= a
    ensures Copied(m, m2, a, b, total)
  {
    forall x | b <= x < b + total && x < |m| ensures 0 <= a + (x - b) < |m| && m2[x] == m[a + (x - b)] {
      if x < b + k {
        assert m2[x] == m1[a + (x - b)];
      } else {
        assert m1[x] == m[c + (x - d)];
      }
    }
  }

  /** With the direction flag clear, and the destination not starting inside the rest of the source,
      the destination ends up equal to the original source and nothing else changes. */
  lemma {:induction false} CopyUp(m: seq<byte>, o: Operands, k: unit, n: nat, a: nat, b: nat)
    requires !o.down && m != [] && Straight(|m|, o, k, n)
    requires a == o.from + o.si && b == o.to + o.di && (b <= a || b >= a + Span(k, n))
    ensures Copied(m, Memory(m, o, k, n), a, b, Span(k, n))
  {
    hide Transfer, Index;
    if n > 0 {
      var len := Span(k, n - 1);
      CopyUp(m, o, k, n - 1, a, b);
      var from, to := Unit(m, o, k, n);
      ExtendUp(m, Memory(m, o, k, n - 1), Memory(m, o, k, n), a, b, len, from, to, k, Span(k, n));
    }
  }

  /** With the direction flag set, and the destination not ending inside the rest of the source;
      a and b are the lowest addresses of the two runs. */
  lemma {:induction false} CopyDown(m: seq<byte>, o: Operands, k: unit, n: nat, a: nat, b: nat)
    requires o.down && m != [] && n > 0 && Straight(|m|, o, k, n)
    requires a == o.from + o.si + k - Span(k, n) && b == o.to + o.di + k - Span(k, n)
    requires b >= a || b + Span(k, n) <= a
    ensures Copied(m, Memory(m, o, k, n), a, b, Span(k, n))
  {
    hide Transfer, Index, Copied;
    var from, to := Unit(m, o, k, n);
    if n > 1 {
      var c, d := a + k, b + k;
      CopyDown(m, o, k, n - 1, c, d);
      ExtendDown(m, Memory(m, o, k, n - 1), Memory(m, o, k, n), from, to, Span(k, n - 1), c, d, k, Span(k, n));
    }
  }

  /** t mod d. */
  function Residue(t: nat, d: nat): (r: nat)
    requires d > 0
    ensures r < d
  {
    if t < d then t else Residue(t - d, d)
  }

  lemma {:induction false} ResidueIsMod(t: nat, d: nat)
    requires d > 0
    ensures Residue(t, d) == t % d
  {
    if t >= d {
      ResidueIsMod(t - d, d);
      QuotientUnique(t, d, (t - d) / d + 1, (t - d) % d);
    } else {
      QuotientUnique(t, d, 0, t);
    }
  }

  /** m' repeats the d bytes at a over the len bytes from a + d on. */
  ghost predicate Tiled(m: seq<byte>, m': seq<byte>, a: nat, d: nat, len: nat)
    requires d > 0
  {
    && |m'| == |m|
    && (forall x {:trigger m'[x]} :: a + d <= x < a + d + len && x < |m| ==> m'[x] == m[a + Residue(x - a, d)])
    && forall x {:trigger m'[x]} :: 0 <= x < |m| && !(a + d <= x < a + d + len) ==> m'[x] == m[x]
  }

  lemma ExtendTiled(m: seq<byte>, m1: seq<byte>, m2: seq<byte>, a: nat, d: nat, len: nat,
                    from: nat, to: nat, k: nat, total: nat)
    requires 0 < k <= d && Tiled(m, m1, a, d, len) && Copied(m1, m2, from, to, k)
    requires from == a + len && to == from + d && total == len + k && a + d + total <= |m|
    ensures Tiled(m, m2, a, d, total)
  {
    forall x | a + d <= x < a + d + total && x < |m| ensures m2[x] == m[a + Residue(x - a, d)] {
      if x >= a + d + len {
        var y := from + (x - to);
        assert m2[x] == m1[y];
      }
    }
  }

  /** Copying upwards to a destination d bytes into the source, d at least the unit, repeats the
      first d source bytes: destination byte i is source byte i mod d. */
  lemma {:induction false} CopyOverItself(m: seq<byte>, o: Operands, k: unit, n: nat, a: nat, d: nat)
    requires !o.down && m != [] && Straight(|m|, o, k, n)
    requires a == o.from + o.si && a + d == o.to + o.di && k <= d
    ensures Tiled(m, Memory(m, o, k, n), a, d, Span(k, n))
  {
    hide Transfer, Index;
    if n > 0 {
      var len := Span(k, n - 1);
      CopyOverItself(m, o, k, n - 1, a, d);
      var from, to := Unit(m, o, k, n);
      ExtendTiled(m, Memory(m, o, k, n - 1), Memory(m, o, k, n), a, d, len, from, to, k, Span(k, n));
    }
  }

  /** Which source byte becomes destination byte t when words are copied to distance 1: the first byte
      comes over, then every odd one twice; the other even ones are lost. */
  function OddSource(t: nat): (s: nat)
    ensures s <= t
  {
    if t == 0 || t % 2 == 1 then t else t - 1
  }

  /** Where byte x of a smeared stretch of len bytes behind a comes from. */
  function Origin(a: nat, len: nat, x: nat): (y: nat)
    ensures y <= x
  {
    if a < x <= a + len then a + OddSource(x - a - 1) else x
  }

  ghost predicate Smeared(m: seq<byte>, m': seq<byte>, a: nat, len: nat) {
    |m'| == |m| && forall x: nat {:trigger m'[x]} :: x < |m| ==> m'[x] == m[Origin(a, len, x)]
  }

  lemma ExtendSmeared(m: seq<byte>, m1: seq<byte>, m2: seq<byte>, a: nat, len: nat, from: nat, to: nat, total: nat)
    requires Smeared(m, m1, a, len) && Copied(m1, m2, from, to, 2) && len % 2 == 0
    requires from == a + len && to == from + 1 && total == len + 2 && a + total < |m|
    ensures Smeared(m, m2, a, total)
  {
    forall x: nat {:trigger m2[x]} | x < |m| ensures m2[x] == m[Origin(a, total, x)] {
      OriginExtended(a, len, x);
      var y := if to <= x < to + 2 then x - 1 else x;
      assert m2[x] == m1[y];
      assert m1[y] == m[Origin(a, len, y)];
    }
  }

  lemma OriginExtended(a: nat, len: nat, x: nat)
    requires len % 2 == 0
    ensures Origin(a, len + 2, x) == Origin(a, len, if a + len < x <= a + len + 2 then x - 1 else x)
  {
  }

  lemma NothingSmeared(m: seq<byte>, a: nat)
    ensures Smeared(m, m, a, 0)
  {
  }

  /** Copying words upwards to a destination one byte into the source. */
  lemma {:induction false} WordsByOne(m: seq<byte>, o: Operands, n: nat, a: nat)
    requires !o.down && m != [] && Straight(|m|, o, 2, n)
    requires a == o.from + o.si && a + 1 == o.to + o.di
    ensures Smeared(m, Memory(m, o, 2, n), a, Span(2, n))
  {
    hide Transfer, Index, Smeared, Copied;
    if n == 0 {
      NothingSmeared(m, a);
    } else {
      WordsByOne(m, o, n - 1, a);
      var from, to := Unit(m, o, 2, n);
      ExtendSmeared(m, Memory(m, o, 2, n - 1), Memory(m, o, 2, n), a, Span(2, n - 1), from, to, Span(2, n));
    }
  }

  // ---- the instructions ----

  class Core {
    const mem: array<byte>
    const from: nat
    const to: nat
    var cx: word
    var si: word
    var di: word
    var down: bool
    var flags: Flags

    constructor (memory: array<byte>, source: nat, destination: nat)
      ensures mem == memory && from == source && to == destination
    {
      mem, from, to := memory, source, destination;
    }

    ghost function View(): Operands
      reads this
    {
      Operands(from, to, si, di, down)
    }

    method MoveUnit(k: unit)
      requires mem.Length > 0
      modifies `si, `di, mem
      ensures mem[..] == Transfer(old(mem[..]), k, from + old(si), to + old(di))
      ensures si == Index(old(si), k, 1, down) && di == Index(old(di), k, 1, down)
    {
      var low, high := mem[Masked(mem.Length, from + si)], mem[Masked(mem.Length, from + si + 1)];
      mem[Masked(mem.Length, to + di)] := low;
      if k == 2 {
        mem[Masked(mem.Length, to + di + 1)] := high;
      }
      si, di := Index(si, k, 1, down), Index(di, k, 1, down);
    }

    method RepMovs(k: unit)
      requires mem.Length > 0
      modifies `cx, `si, `di, mem
      ensures mem[..] == Memory(old(mem[..]), old(View()), k, old(cx)) && cx == 0
      ensures si == Index(old(si), k, old(cx), down) && di == Index(old(di), k, old(cx), down)
    {
      hide Transfer, Index;
      IndexStart(si, k, down);
      IndexStart(di, k, down);
      var count: int := cx;
      ghost var done: nat := 0;
      while count > 0
        invariant count >= 0 && done + count == old(cx)
        invariant At(old(mem[..]), old(View()), k, done)
      {
        Another(old(mem[..]), old(View()), k, done);
        count, done := count - 1, done + 1;
      }
      cx := count;
    }

    /** n units of a run have been moved. */
    ghost predicate At(m: seq<byte>, o: Operands, k: unit, n: nat)
      reads this, mem
    {
      && m != [] && mem[..] == Memory(m, o, k, n)
      && View() == o.(si := Index(o.si, k, n, o.down), di := Index(o.di, k, n, o.down))
    }

    method Another(ghost m: seq<byte>, ghost o: Operands, k: unit, ghost n: nat)
      requires At(m, o, k, n)
      modifies `si, `di, mem
      ensures At(m, o, k, n + 1)
    {
      IndexStep(o.si, k, n, down);
      IndexStep(o.di, k, n, down);
      MoveUnit(k);
    }

    /** A byte or a word off the destination segment. */
    function Operand(k: unit, offset: word): (v: nat)
      requires mem.Length > 0
      reads this, mem
      ensures v < 2 * Top(WidthOf(k))
    {
      var low: int, high: int := mem[Masked(mem.Length, to + offset)], mem[Masked(mem.Length, to + offset + 1)];
      if k == 1 then low else low + 0x100 * high
    }

    /** The i-th operand a scan looks at. */
    ghost function Scanned(k: unit, i: nat): (v: nat)
      requires mem.Length > 0
      reads this, mem
      ensures v < 2 * Top(WidthOf(k))
    {
      Operand(k, Index(di, k, i, down))
    }

    /** Compares until the outcome differs from the flag the prefix asks for; the flags are those of the
        last comparison. With CX zero the zero flag is still set to that flag. */
    method RepScan(k: unit, ax: nat, wanted: bool)
      requires mem.Length > 0 && ax < 2 * Top(WidthOf(k))
      modifies `cx, `di, `flags
      ensures var n := old(cx) - cx;
        && n >= 0 && di == Index(old(di), k, n, down)
        && (forall i :: 0 <= i < n - 1 ==> (old(Scanned(k, i)) == ax) == wanted)
        && flags == (if n > 0 then Compared(k, ax, old(Scanned(k, n - 1))) else old(flags).(zf := wanted))
        && (n > 0 ==> flags.zf == (old(Scanned(k, n - 1)) == ax))
        && (cx == 0 || flags.zf != wanted)
    {
      hide Index, Sbb;
      IndexStart(di, k, down);
      var count: int := cx;
      ghost var n: nat := 0;
      flags := flags.(zf := wanted);
      while flags.zf == wanted && count > 0
        invariant count >= 0 && n + count == old(cx)
        invariant di == Index(old(di), k, n, down)
        invariant forall i :: 0 <= i < n - 1 ==> (old(Scanned(k, i)) == ax) == wanted
        invariant flags == (if n > 0 then Compared(k, ax, old(Scanned(k, n - 1))) else old(flags).(zf := wanted))
        invariant n > 0 ==> flags.zf == (old(Scanned(k, n - 1)) == ax)
      {
        IndexStep(old(di), k, n, down);
        ZeroIsEqual(k, ax, Operand(k, di));
        flags := Compare(WidthOf(k), ax, Operand(k, di));
        di := Index(di, k, 1, down);
        count, n := count - 1, n + 1;
      }
      cx := count;
    }
  }

  function WidthOf(k: unit): Width {
    if k == 1 then Byte else Word
  }

  /** Flags after comparing an operand with the accumulator. */
  function Compared(k: unit, ax: nat, v: nat): Flags
    requires ax < 2 * Top(WidthOf(k)) && v < 2 * Top(WidthOf(k))
  {
    Sbb(WidthOf(k), ax, v, NO_FLAGS).flags
  }

  lemma ZeroIsEqual(k: unit, ax: nat, v: nat)
    requires ax < 2 * Top(WidthOf(k)) && v < 2 * Top(WidthOf(k))
    ensures Compared(k, ax, v).zf <==> v == ax
  {
  }
}
