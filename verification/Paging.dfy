/** Linear memory through two-level page tables: the table walk with its accessed and dirty bits,
    and what a transfer of several bytes means, one byte at a time. */
module Paging {
  import opened Words

  const DUMMY: dword := 0x0100_0000

  /** size is the size of memory: the address mask plus one. */
  datatype Unit = Unit(paging: bool, base: dword, size: nat)

  /** The directory is page-aligned, and the mask keeps the two lowest address bits. */
  ghost predicate Sane(u: Unit, size: nat) {
    u.base % 0x1000 == 0 && u.size == size > 0 && size % 4 == 0
  }

  /** The byte of memory an address selects: the address and the mask, size being a power of two. */
  function Wire(size: nat, a: nat): (c: nat)
    requires size > 0 && size % 4 == 0
    ensures c < size && c % 4 == a % 4
  {
    if a < size then a else SameLane(size, a); Wire(size, a - size)
  }

  /** It is the address modulo the size. */
  lemma {:induction false} WireWraps(size: nat, a: nat)
    requires size > 0 && size % 4 == 0
    ensures Wire(size, a) == a % size
    decreases a
  {
    if a >= size {
      WireWraps(size, a - size);
      QuotientUnique(a, size, (a - size) / size + 1, (a - size) % size);
    } else {
      QuotientUnique(a, size, 0, a);
    }
  }

  lemma SameLane(size: nat, a: nat)
    requires size % 4 == 0 && size <= a
    ensures (a - size) % 4 == a % 4
  {
    QuotientUnique(a - size, 4, a / 4 - size / 4, a % 4);
  }

  // ---- entries ----

  predicate Present(low: byte) {
    low % 2 == 1
  }

  predicate Accessed(low: byte) {
    low / 0x20 % 2 == 1
  }

  predicate Dirty(low: byte) {
    low / 0x40 % 2 == 1
  }

  /** Sets bit 5 or 6 in the low byte of an entry. */
  function Marked(low: byte, bit: nat): (r: byte)
    requires bit in {0x20, 0x40}
    ensures Core(r) == Core(low)
  {
    if bit == 0x20 then (if Accessed(low) then low else low + 0x20)
    else if Dirty(low) then low else low + 0x40
  }

  /** A low byte without its accessed and dirty bits. */
  function Core(low: byte): byte {
    low % 0x20 + low / 0x80 * 0x80
  }

  /** A 32-bit value in memory. */
  function Read32(u: Unit, m: seq<byte>, a: dword): dword
    requires Sane(u, |m|) && a + 3 < 0x1_0000_0000
  {
    var low: int, b: int, c: int, d: int := m[Wire(u.size, a)], m[Wire(u.size, a + 1)], m[Wire(u.size, a + 2)], m[Wire(u.size, a + 3)];
    low + 0x100 * b + 0x1_0000 * c + 0x100_0000 * d
  }

  /** Base address of the page or table an entry points to. */
  function Frame(u: Unit, m: seq<byte>, a: dword): (f: dword)
    requires Sane(u, |m|) && a + 3 < 0x1_0000_0000
    ensures f % 0x1000 == 0
  {
    var b: int, c: int, d: int := m[Wire(u.size, a + 1)], m[Wire(u.size, a + 2)], m[Wire(u.size, a + 3)];
    b / 16 * 0x1000 + c * 0x1_0000 + d * 0x100_0000
  }

  /** It is the entry with its low twelve bits masked off. */
  lemma FrameMasks(u: Unit, m: seq<byte>, a: dword)
    requires Sane(u, |m|) && a + 3 < 0x1_0000_0000
    ensures Frame(u, m, a) == Read32(u, m, a) / 0x1000 * 0x1000
  {
    var b: int := m[Wire(u.size, a + 1)];
    var e := Read32(u, m, a);
    QuotientUnique(e, 0x1000, Frame(u, m, a) / 0x1000, e - Frame(u, m, a));
  }

  /** Address of the directory entry for x. */
  function PdeAt(u: Unit, x: dword): (a: dword)
    requires u.base % 0x1000 == 0
    ensures a % 4 == 0 && a + 3 < 0x1_0000_0000
  {
    EntryFits(u.base, x / 0x40_0000);
    u.base + x / 0x40_0000 * 4
  }

  /** Entry i of a table that starts on a page. */
  lemma EntryFits(base: dword, i: nat)
    requires base % 0x1000 == 0 && i < 0x400
    ensures (base + i * 4) % 4 == 0 && base + i * 4 + 3 < 0x1_0000_0000
  {
    var q := base / 0x1000;
    assert base == q * 0x1000 && q < 0x10_0000;
    QuotientUnique(base + i * 4, 4, q * 0x400 + i, 0);
  }

  /** Address of the table entry for x, from what the directory entry says. */
  function PteAt(u: Unit, m: seq<byte>, x: dword): (a: dword)
    requires Sane(u, |m|)
    ensures a % 4 == 0 && a + 3 < 0x1_0000_0000
  {
    EntryFits(Frame(u, m, PdeAt(u, x)), x / 0x1000 % 0x400);
    Frame(u, m, PdeAt(u, x)) + x / 0x1000 % 0x400 * 4
  }

  // ---- the walk ----

  ghost predicate Mapped(u: Unit, m: seq<byte>, x: dword)
    requires Sane(u, |m|)
  {
    u.paging ==> Present(m[Wire(u.size, PdeAt(u, x))]) && Present(m[Wire(u.size, PteAt(u, m, x))])
  }

  /** Where x is in memory; a fixed address when a table or the page is not present. */
  function Translate(u: Unit, m: seq<byte>, x: dword): dword
    requires Sane(u, |m|)
  {
    if !u.paging then x
    else if Present(m[Wire(u.size, PdeAt(u, x))]) && Present(m[Wire(u.size, PteAt(u, m, x))]) then
      Frame(u, m, PteAt(u, m, x)) + x % 0x1000
    else DUMMY
  }

  function MarkPde(u: Unit, m: seq<byte>, x: dword): (r: seq<byte>)
    requires Sane(u, |m|)
    ensures |r| == |m|
  {
    var c := Wire(u.size, PdeAt(u, x));
    if Accessed(m[c]) then m else m[c := Marked(m[c], 0x20)]
  }

  /** The two writes to a table entry; the second one is made from the entry as it was read. */
  function MarkPte(u: Unit, m: seq<byte>, a: dword, write: bool): (r: seq<byte>)
    requires Sane(u, |m|)
    ensures |r| == |m|
  {
    var c := Wire(u.size, a);
    var low := m[c];
    var once := if Accessed(low) then m else m[c := Marked(low, 0x20)];
    if write && !Dirty(low) then once[c := Marked(low, 0x40)] else once
  }

  /** Memory after the walk for x. */
  function Touched(u: Unit, m: seq<byte>, x: dword, write: bool): (r: seq<byte>)
    requires Sane(u, |m|)
    ensures |r| == |m|
  {
    if !u.paging || !Present(m[Wire(u.size, PdeAt(u, x))]) then m
    else
      var once := MarkPde(u, m, x);
      var a := PteAt(u, m, x);
      if Present(once[Wire(u.size, a)]) then MarkPte(u, once, a, write) else once
  }

  // ---- the walk by the parts of the address ----

  /** The linear address with directory index d, table index t and page offset o. */
  function Address(d: nat, t: nat, o: nat): dword
    requires d < 0x400 && t < 0x400 && o < 0x1000
  {
    d * 0x40_0000 + t * 0x1000 + o
  }

  lemma AddressParts(d: nat, t: nat, o: nat)
    requires d < 0x400 && t < 0x400 && o < 0x1000
    ensures var x := Address(d, t, o); x / 0x40_0000 == d && x / 0x1000 % 0x400 == t && x % 0x1000 == o
  {
    var x := Address(d, t, o);
    QuotientUnique(x, 0x40_0000, d, t * 0x1000 + o);
    QuotientUnique(x, 0x1000, d * 0x400 + t, o);
    QuotientUnique(d * 0x400 + t, 0x400, d, t);
  }

  /** Dword i of the table on a page; the low bit of an entry says whether it is present. */
  function Entry(u: Unit, m: seq<byte>, table: dword, i: nat): dword
    requires Sane(u, |m|) && table % 0x1000 == 0 && i < 0x400
  {
    EntryFits(table, i);
    Read32(u, m, table + i * 4)
  }

  /** The page an entry names: the entry without its twelve low bits. */
  function PageOf(e: dword): (p: dword)
    ensures p % 0x1000 == 0
  {
    PageAligned(e);
    e / 0x1000 * 0x1000
  }

  lemma PageAligned(e: dword)
    ensures e / 0x1000 * 0x1000 % 0x1000 == 0
  {
    QuotientUnique(e / 0x1000 * 0x1000, 0x1000, e / 0x1000, 0);
  }

  lemma EntryPresent(u: Unit, m: seq<byte>, a: dword)
    requires Sane(u, |m|) && a + 3 < 0x1_0000_0000
    ensures Present(m[Wire(u.size, a)]) <==> Read32(u, m, a) % 2 == 1
  {
    var low: int, e := m[Wire(u.size, a)], Read32(u, m, a);
    QuotientUnique(e, 2, (e - low) / 2 + low / 2, low % 2);
  }

  /** The address with parts d, t and o lies at offset o of the page that entry t names in the table
      that entry d of the directory names, if both are present; otherwise it is the fixed address.
      Without paging an address is itself. */
  lemma WalkMeans(u: Unit, m: seq<byte>, d: nat, t: nat, o: nat)
    requires Sane(u, |m|) && d < 0x400 && t < 0x400 && o < 0x1000
    ensures var x := Address(d, t, o);
      var e := Entry(u, m, u.base, d);
      var f := Entry(u, m, PageOf(e), t);
      Translate(u, m, x) == if !u.paging then x else if e % 2 == 1 && f % 2 == 1 then PageOf(f) + o else DUMMY
  {
    var x, e := Address(d, t, o), Entry(u, m, u.base, d);
    var f := Entry(u, m, PageOf(e), t);
    AddressParts(d, t, o);
    EntryFits(u.base, d);
    EntryFits(PageOf(e), t);
    hide Wire, Read32, Frame;
    FrameMasks(u, m, u.base + d * 4);
    EntryPresent(u, m, u.base + d * 4);
    FrameMasks(u, m, PageOf(e) + t * 4);
    EntryPresent(u, m, PageOf(e) + t * 4);
    assert PdeAt(u, x) == u.base + d * 4 && PteAt(u, m, x) == PageOf(e) + t * 4;
  }

  // ---- what a walk leaves alone ----

  /** Only accessed and dirty bits differ, and only in bytes an entry can start at. */
  ghost predicate Remarked(m: seq<byte>, m': seq<byte>) {
    |m'| == |m| && forall c :: 0 <= c < |m| ==> Core(m'[c]) == Core(m[c]) && (c % 4 != 0 ==> m'[c] == m[c])
  }

  /** The entry at a says the same in both memories, up to its accessed and dirty bits. */
  ghost predicate SameEntry(u: Unit, m: seq<byte>, m': seq<byte>, a: dword)
    requires Sane(u, |m|) && |m'| == |m| && a + 3 < 0x1_0000_0000
  {
    && Core(m[Wire(u.size, a)]) == Core(m'[Wire(u.size, a)])
    && m[Wire(u.size, a + 1)] == m'[Wire(u.size, a + 1)]
    && m[Wire(u.size, a + 2)] == m'[Wire(u.size, a + 2)]
    && m[Wire(u.size, a + 3)] == m'[Wire(u.size, a + 3)]
  }

  lemma Lanes(a: dword)
    requires a % 4 == 0
    ensures (a + 1) % 4 == 1 && (a + 2) % 4 == 2 && (a + 3) % 4 == 3
  {
    QuotientUnique(a + 1, 4, a / 4, 1);
    QuotientUnique(a + 2, 4, a / 4, 2);
    QuotientUnique(a + 3, 4, a / 4, 3);
  }

  lemma RemarkedEntry(u: Unit, m: seq<byte>, m': seq<byte>, a: dword)
    requires Sane(u, |m|) && Remarked(m, m') && a % 4 == 0 && a + 3 < 0x1_0000_0000
    ensures SameEntry(u, m, m', a)
  {
    Lanes(a);
  }

  lemma CoreParity(a: byte, b: byte)
    requires Core(a) == Core(b)
    ensures Present(a) == Present(b)
  {
    CoreOdd(a);
    CoreOdd(b);
  }

  lemma CoreOdd(a: byte)
    ensures Core(a) % 2 == a % 2
  {
    QuotientUnique(Core(a), 2, a % 0x20 / 2 + a / 0x80 * 0x40, a % 2);
  }

  lemma EntriesDecide(u: Unit, m: seq<byte>, m': seq<byte>, x: dword)
    requires Sane(u, |m|) && |m'| == |m|
    requires u.paging ==> SameEntry(u, m, m', PdeAt(u, x)) && SameEntry(u, m, m', PteAt(u, m, x))
    ensures u.paging ==> PteAt(u, m', x) == PteAt(u, m, x)
    ensures Translate(u, m', x) == Translate(u, m, x) && Mapped(u, m', x) == Mapped(u, m, x)
  {
    if u.paging {
      var a, b := PdeAt(u, x), PteAt(u, m, x);
      assert Frame(u, m', a) == Frame(u, m, a) && Frame(u, m', b) == Frame(u, m, b);
      CoreParity(m[Wire(u.size, a)], m'[Wire(u.size, a)]);
      CoreParity(m[Wire(u.size, b)], m'[Wire(u.size, b)]);
    }
  }

  lemma MarkPdeEffect(u: Unit, m: seq<byte>, x: dword)
    requires Sane(u, |m|)
    ensures Remarked(m, MarkPde(u, m, x))
    ensures forall c :: 0 <= c < |m| && c != Wire(u.size, PdeAt(u, x)) ==> MarkPde(u, m, x)[c] == m[c]
  {
  }

  lemma MarkPteEffect(u: Unit, m: seq<byte>, a: dword, write: bool)
    requires Sane(u, |m|) && a % 4 == 0
    ensures Remarked(m, MarkPte(u, m, a, write))
    ensures forall c :: 0 <= c < |m| && c != Wire(u.size, a) ==> MarkPte(u, m, a, write)[c] == m[c]
  {
  }

  /** A walk changes accessed and dirty bits in the low bytes of the two entries it uses, nothing else. */
  lemma TouchEffect(u: Unit, m: seq<byte>, x: dword, write: bool)
    requires Sane(u, |m|)
    ensures Remarked(m, Touched(u, m, x, write))
    ensures forall c :: 0 <= c < |m| && c != Wire(u.size, PdeAt(u, x)) && c != Wire(u.size, PteAt(u, m, x)) ==>
      Touched(u, m, x, write)[c] == m[c]
  {
    MarkPdeEffect(u, m, x);
    MarkPteEffect(u, MarkPde(u, m, x), PteAt(u, m, x), write);
  }

  /** So no walk, whatever the tables look like, ever changes where any address is mapped. */
  lemma TranslationStable(u: Unit, m: seq<byte>, x: dword, write: bool, y: dword)
    requires Sane(u, |m|)
    ensures Translate(u, Touched(u, m, x, write), y) == Translate(u, m, y)
    ensures Mapped(u, Touched(u, m, x, write), y) == Mapped(u, m, y)
  {
    var r := Touched(u, m, x, write);
    TouchEffect(u, m, x, write);
    RemarkedEntry(u, m, r, PdeAt(u, y));
    RemarkedEntry(u, m, r, PteAt(u, m, y));
    EntriesDecide(u, m, r, y);
  }

  /** After a write through a mapped address the page is marked dirty; it is marked accessed if and only
      if it was accessed or dirty before, or its entry is its own directory entry. */
  lemma MarksAfterWrite(u: Unit, m: seq<byte>, x: dword)
    requires Sane(u, |m|) && u.paging && Mapped(u, m, x)
    ensures var c := Wire(u.size, PteAt(u, m, x));
      var r := Touched(u, m, x, true);
      Dirty(r[c]) && (Accessed(r[c]) <==> Accessed(m[c]) || Dirty(m[c]) || c == Wire(u.size, PdeAt(u, x)))
  {
    var c := Wire(u.size, PteAt(u, m, x));
    var once := MarkPde(u, m, x);
    MarkPdeEffect(u, m, x);
    CoreParity(once[c], m[c]);
    MarkBits(m[c], 0x20);
    MarkBits(once[c], 0x20);
    MarkBits(once[c], 0x40);
  }

  /** A walk for a read marks both entries accessed and leaves the dirty bit of the page as it was; any
      walk past a present directory entry marks that one accessed. Where the two entries differ, the
      directory entry never turns dirty. With no table present the walk marks nothing. */
  lemma MarksAfterWalk(u: Unit, m: seq<byte>, x: dword, write: bool)
    requires Sane(u, |m|) && u.paging
    ensures var b, c := Wire(u.size, PdeAt(u, x)), Wire(u.size, PteAt(u, m, x));
      var r := Touched(u, m, x, write);
      && (if Present(m[b]) then Accessed(r[b]) else r == m)
      && (b != c ==> (Dirty(r[b]) <==> Dirty(m[b])))
      && (Mapped(u, m, x) && !write ==> Accessed(r[c]) && (Dirty(r[c]) <==> Dirty(m[c])))
  {
    var b, c := Wire(u.size, PdeAt(u, x)), Wire(u.size, PteAt(u, m, x));
    var once := MarkPde(u, m, x);
    MarkPdeEffect(u, m, x);
    CoreParity(once[c], m[c]);
    MarkBits(m[b], 0x20);
    MarkBits(once[c], 0x20);
    MarkBits(once[c], 0x40);
  }

  /** A first write to a page leaves it dirty and not accessed. */
  lemma FirstWriteNotAccessed() returns (u: Unit, m: seq<byte>)
    ensures Sane(u, |m|) && u.paging && Mapped(u, m, 0)
    ensures var low := Touched(u, m, 0, true)[Wire(u.size, PteAt(u, m, 0))]; Dirty(low) && !Accessed(low)
  {
    u, m := Unit(true, 0, 0x2000), seq(0x2000, c => if c == 0 || c == 0x1000 then 1 else if c == 1 then 0x10 else 0);
    assert PdeAt(u, 0) == 0 && Frame(u, m, 0) == 0x1000 && PteAt(u, m, 0) == 0x1000;
    MarksAfterWrite(u, m, 0);
  }

  lemma MarkBits(low: byte, bit: nat)
    requires bit in {0x20, 0x40}
    ensures Accessed(Marked(low, bit)) <==> bit == 0x20 || Accessed(low)
    ensures Dirty(Marked(low, bit)) <==> bit == 0x40 || Dirty(low)
  {
    if bit == 0x20 {
      MarkAccessed(low);
    } else {
      MarkDirty(low);
    }
  }

  lemma MarkAccessed(low: byte)
    ensures Accessed(Marked(low, 0x20)) && (Dirty(Marked(low, 0x20)) <==> Dirty(low))
  {
    if !Accessed(low) {
      QuotientUnique(low + 0x20, 0x20, low / 0x20 + 1, low % 0x20);
      QuotientUnique(low + 0x20, 0x40, low / 0x40, low % 0x40 + 0x20);
    }
  }

  lemma MarkDirty(low: byte)
    ensures Dirty(Marked(low, 0x40)) && (Accessed(Marked(low, 0x40)) <==> Accessed(low))
  {
    if !Dirty(low) {
      QuotientUnique(low + 0x40, 0x40, low / 0x40 + 1, low % 0x40);
      QuotientUnique(low + 0x40, 0x20, low / 0x20 + 2, low % 0x20);
    }
  }

  // ---- transfers of several bytes ----

  function Cell(u: Unit, m: seq<byte>, x: dword): (c: nat)
    requires Sane(u, |m|)
    ensures c < |m|
  {
    Wire(u.size, Translate(u, m, x))
  }

  /** Where the bytes of a transfer are. */
  function Cells(u: Unit, m: seq<byte>, xs: seq<dword>): (r: seq<nat>)
    requires Sane(u, |m|)
    ensures |r| == |xs|
  {
    if xs == [] then [] else Cells(u, m, xs[..|xs| - 1]) + [Cell(u, m, xs[|xs| - 1])]
  }

  /** The four bytes of an entry. */
  function Quad(u: Unit, a: dword): set<nat>
    requires u.size > 0 && u.size % 4 == 0
  {
    {Wire(u.size, a), Wire(u.size, a + 1), Wire(u.size, a + 2), Wire(u.size, a + 3)}
  }

  /** Low bytes of the entries a transfer uses: the bytes its walks may mark. */
  function Marks(u: Unit, m: seq<byte>, xs: seq<dword>): set<nat>
    requires Sane(u, |m|)
  {
    if xs == [] || !u.paging then {}
    else
      var x := xs[|xs| - 1];
      Marks(u, m, xs[..|xs| - 1]) + {Wire(u.size, PdeAt(u, x)), Wire(u.size, PteAt(u, m, x))}
  }

  /** All bytes of those entries. */
  function Entries(u: Unit, m: seq<byte>, xs: seq<dword>): set<nat>
    requires Sane(u, |m|)
  {
    if xs == [] || !u.paging then {}
    else
      var x := xs[|xs| - 1];
      Entries(u, m, xs[..|xs| - 1]) + Quad(u, PdeAt(u, x)) + Quad(u, PteAt(u, m, x))
  }

  lemma {:induction false} CellAt(u: Unit, m: seq<byte>, xs: seq<dword>, i: nat)
    requires Sane(u, |m|) && i < |xs|
    ensures Cells(u, m, xs)[i] == Cell(u, m, xs[i])
    decreases |xs|
  {
    if i < |xs| - 1 {
      CellAt(u, m, xs[..|xs| - 1], i);
    }
  }

  lemma {:induction false} Used(u: Unit, m: seq<byte>, xs: seq<dword>, x: dword)
    requires Sane(u, |m|) && x in xs && u.paging
    ensures Quad(u, PdeAt(u, x)) <= Entries(u, m, xs) && Quad(u, PteAt(u, m, x)) <= Entries(u, m, xs)
    ensures Wire(u.size, PdeAt(u, x)) in Marks(u, m, xs) && Wire(u.size, PteAt(u, m, x)) in Marks(u, m, xs)
    decreases |xs|
  {
    if x != xs[|xs| - 1] {
      var i :| 0 <= i < |xs| && xs[i] == x;
      assert xs[..|xs| - 1][i] == x;
      Used(u, m, xs[..|xs| - 1], x);
    }
  }

  lemma {:induction false} MarksAligned(u: Unit, m: seq<byte>, xs: seq<dword>)
    requires Sane(u, |m|)
    ensures forall c :: c in Marks(u, m, xs) ==> c % 4 == 0
    decreases |xs|
  {
    if xs != [] && u.paging {
      MarksAligned(u, m, xs[..|xs| - 1]);
    }
  }

  /** No byte of the transfer is part of an entry that the transfer uses. */
  ghost predicate Apart(cells: seq<nat>, entries: set<nat>) {
    forall i :: 0 <= i < |cells| ==> cells[i] !in entries
  }

  ghost predicate AllMapped(u: Unit, m: seq<byte>, xs: seq<dword>)
    requires Sane(u, |m|)
  {
    forall x :: x in xs ==> Mapped(u, m, x)
  }

  /** now is w outside the marks, and the entries say what they said in m. */
  ghost predicate Tracks(m: seq<byte>, marks: set<nat>, entries: set<nat>, w: seq<byte>, now: seq<byte>) {
    && |w| == |now| == |m|
    && (forall c {:trigger now[c]} :: 0 <= c < |m| && c !in marks ==> now[c] == w[c])
    && (forall c {:trigger c in entries} :: 0 <= c < |m| && c in entries ==>
          Core(now[c]) == Core(m[c]) && (c !in marks ==> now[c] == m[c]))
  }

  lemma TracksEntry(u: Unit, m: seq<byte>, marks: set<nat>, entries: set<nat>, w: seq<byte>, now: seq<byte>, a: dword)
    requires Sane(u, |m|) && Tracks(m, marks, entries, w, now) && Quad(u, a) <= entries
    requires a % 4 == 0 && a + 3 < 0x1_0000_0000 && forall c :: c in marks ==> c % 4 == 0
    ensures SameEntry(u, m, now, a)
  {
    var c0, c1, c2, c3 := Wire(u.size, a), Wire(u.size, a + 1), Wire(u.size, a + 2), Wire(u.size, a + 3);
    Lanes(a);
    CellTracked(m, marks, entries, w, now, c0);
    CellTracked(m, marks, entries, w, now, c1);
    CellTracked(m, marks, entries, w, now, c2);
    CellTracked(m, marks, entries, w, now, c3);
  }

  lemma CellTracked(m: seq<byte>, marks: set<nat>, entries: set<nat>, w: seq<byte>, now: seq<byte>, c: nat)
    requires Tracks(m, marks, entries, w, now) && c < |m| && c in entries && forall k :: k in marks ==> k % 4 == 0
    ensures Core(now[c]) == Core(m[c]) && (c % 4 != 0 ==> now[c] == m[c])
  {
  }

  /** The addresses of the transfer are still mapped as they were. */
  lemma TracksMaps(u: Unit, m: seq<byte>, xs: seq<dword>, w: seq<byte>, now: seq<byte>, x: dword)
    requires Sane(u, |m|) && Tracks(m, Marks(u, m, xs), Entries(u, m, xs), w, now) && x in xs
    ensures Translate(u, now, x) == Translate(u, m, x) && Cell(u, now, x) == Cell(u, m, x)
    ensures u.paging ==> PteAt(u, now, x) == PteAt(u, m, x)
  {
    if u.paging {
      Used(u, m, xs, x);
      MarksAligned(u, m, xs);
      TracksEntry(u, m, Marks(u, m, xs), Entries(u, m, xs), w, now, PdeAt(u, x));
      TracksEntry(u, m, Marks(u, m, xs), Entries(u, m, xs), w, now, PteAt(u, m, x));
    }
    EntriesDecide(u, m, now, x);
  }

  /** A walk for one of the addresses changes nothing that matters. */
  lemma TracksWalk(u: Unit, m: seq<byte>, xs: seq<dword>, w: seq<byte>, now: seq<byte>, x: dword, write: bool)
    requires Sane(u, |m|) && Tracks(m, Marks(u, m, xs), Entries(u, m, xs), w, now) && x in xs
    ensures Tracks(m, Marks(u, m, xs), Entries(u, m, xs), w, Touched(u, now, x, write))
  {
    if u.paging {
      TracksMaps(u, m, xs, w, now, x);
      Used(u, m, xs, x);
      TouchEffect(u, now, x, write);
      Retouched(m, Marks(u, m, xs), Entries(u, m, xs), w, now, Touched(u, now, x, write));
    }
  }

  lemma Retouched(m: seq<byte>, marks: set<nat>, entries: set<nat>, w: seq<byte>, now: seq<byte>, r: seq<byte>)
    requires Tracks(m, marks, entries, w, now) && Remarked(now, r)
    requires forall c :: 0 <= c < |now| && c !in marks ==> r[c] == now[c]
    ensures Tracks(m, marks, entries, w, r)
  {
  }

  /** Storing a byte outside the entries, on both sides. */
  lemma TracksStore(m: seq<byte>, marks: set<nat>, entries: set<nat>, w: seq<byte>, now: seq<byte>, c: nat, v: byte)
    requires Tracks(m, marks, entries, w, now) && c < |m| && c !in entries
    ensures Tracks(m, marks, entries, w[c := v], now[c := v])
  {
  }

  lemma TracksSelf(m: seq<byte>, marks: set<nat>, entries: set<nat>)
    ensures Tracks(m, marks, entries, m, m)
  {
  }

  /** Memory with the first n bytes of d stored in the first n cells, in order. */
  function Stored(m: seq<byte>, cells: seq<nat>, d: seq<byte>, n: nat): (r: seq<byte>)
    requires n <= |cells| == |d| && forall i :: 0 <= i < |cells| ==> cells[i] < |m|
    ensures |r| == |m|
  {
    if n == 0 then m else Stored(m, cells, d, n - 1)[cells[n - 1] := d[n - 1]]
  }

  lemma {:induction false} CellsInside(u: Unit, m: seq<byte>, xs: seq<dword>)
    requires Sane(u, |m|)
    ensures forall i :: 0 <= i < |xs| ==> Cells(u, m, xs)[i] < |m|
  {
    forall i | 0 <= i < |xs| ensures Cells(u, m, xs)[i] < |m| {
      CellAt(u, m, xs, i);
    }
  }

  // ---- one byte at a time ----

  /** Memory after reading the first n addresses, a byte each. */
  function AfterReads(u: Unit, m: seq<byte>, xs: seq<dword>, n: nat): (r: seq<byte>)
    requires Sane(u, |m|) && n <= |xs|
    ensures |r| == |m|
  {
    if n == 0 then m else Touched(u, AfterReads(u, m, xs, n - 1), xs[n - 1], false)
  }

  /** The byte the i-th of those reads returns. */
  function ByteRead(u: Unit, m: seq<byte>, xs: seq<dword>, i: nat): byte
    requires Sane(u, |m|) && i < |xs|
  {
    AfterReads(u, m, xs, i + 1)[Cell(u, AfterReads(u, m, xs, i), xs[i])]
  }

  /** Memory after writing the first n bytes, a byte each. */
  function AfterWrites(u: Unit, m: seq<byte>, xs: seq<dword>, d: seq<byte>, n: nat): (r: seq<byte>)
    requires Sane(u, |m|) && n <= |xs| == |d|
    ensures |r| == |m|
  {
    if n == 0 then m
    else
      var before := AfterWrites(u, m, xs, d, n - 1);
      Touched(u, before, xs[n - 1], true)[Cell(u, before, xs[n - 1]) := d[n - 1]]
  }

  lemma {:induction false} ReadsTrack(u: Unit, m: seq<byte>, xs: seq<dword>, n: nat)
    requires Sane(u, |m|) && n <= |xs|
    ensures Tracks(m, Marks(u, m, xs), Entries(u, m, xs), m, AfterReads(u, m, xs, n))
  {
    TracksSelf(m, Marks(u, m, xs), Entries(u, m, xs));
    if n > 0 {
      ReadsTrack(u, m, xs, n - 1);
      TracksWalk(u, m, xs, m, AfterReads(u, m, xs, n - 1), xs[n - 1], false);
    }
  }

  lemma {:induction false} MarksAreEntries(u: Unit, m: seq<byte>, xs: seq<dword>)
    requires Sane(u, |m|)
    ensures Marks(u, m, xs) <= Entries(u, m, xs)
    decreases |xs|
  {
    if xs != [] && u.paging {
      MarksAreEntries(u, m, xs[..|xs| - 1]);
    }
  }

  /** Reading byte by byte returns the bytes of the cells. */
  lemma BytewiseReads(u: Unit, m: seq<byte>, xs: seq<dword>, i: nat)
    requires Sane(u, |m|) && i < |xs| && Apart(Cells(u, m, xs), Entries(u, m, xs))
    ensures Cells(u, m, xs)[i] < |m| && ByteRead(u, m, xs, i) == m[Cells(u, m, xs)[i]]
  {
    ReadCell(u, m, xs, i);
    ReadByte(u, m, xs, i);
  }

  lemma ReadCell(u: Unit, m: seq<byte>, xs: seq<dword>, i: nat)
    requires Sane(u, |m|) && i < |xs|
    ensures Cell(u, AfterReads(u, m, xs, i), xs[i]) == Cells(u, m, xs)[i] < |m|
  {
    CellAt(u, m, xs, i);
    ReadsTrack(u, m, xs, i);
    TracksMaps(u, m, xs, m, AfterReads(u, m, xs, i), xs[i]);
  }

  lemma ReadByte(u: Unit, m: seq<byte>, xs: seq<dword>, i: nat)
    requires Sane(u, |m|) && i < |xs| && Apart(Cells(u, m, xs), Entries(u, m, xs)) && Cells(u, m, xs)[i] < |m|
    ensures AfterReads(u, m, xs, i + 1)[Cells(u, m, xs)[i]] == m[Cells(u, m, xs)[i]]
  {
    ReadsTrack(u, m, xs, i + 1);
    MarksAreEntries(u, m, xs);
    UnmarkedRead(m, Marks(u, m, xs), Entries(u, m, xs), m, AfterReads(u, m, xs, i + 1), Cells(u, m, xs)[i]);
  }

  lemma UnmarkedRead(m: seq<byte>, marks: set<nat>, entries: set<nat>, w: seq<byte>, now: seq<byte>, c: nat)
    requires Tracks(m, marks, entries, w, now) && marks <= entries && c < |m| && c !in entries
    ensures now[c] == w[c]
  {
  }

  /** Writing byte by byte stores the data in the cells, in order. */
  lemma {:induction false} BytewiseWrites(u: Unit, m: seq<byte>, xs: seq<dword>, d: seq<byte>, n: nat)
    requires Sane(u, |m|) && n <= |xs| == |d| && Apart(Cells(u, m, xs), Entries(u, m, xs))
    ensures forall i :: 0 <= i < |xs| ==> Cells(u, m, xs)[i] < |m|
    ensures Tracks(m, Marks(u, m, xs), Entries(u, m, xs), Stored(m, Cells(u, m, xs), d, n), AfterWrites(u, m, xs, d, n))
  {
    CellsInside(u, m, xs);
    TracksSelf(m, Marks(u, m, xs), Entries(u, m, xs));
    if n > 0 {
      BytewiseWrites(u, m, xs, d, n - 1);
      var w, before, x := Stored(m, Cells(u, m, xs), d, n - 1), AfterWrites(u, m, xs, d, n - 1), xs[n - 1];
      TracksMaps(u, m, xs, w, before, x);
      TracksWalk(u, m, xs, w, before, x, true);
      CellAt(u, m, xs, n - 1);
      TracksStore(m, Marks(u, m, xs), Entries(u, m, xs), w, Touched(u, before, x, true), Cell(u, m, x), d[n - 1]);
    }
  }
}
