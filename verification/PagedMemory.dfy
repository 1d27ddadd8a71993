/** The block transfers of the 32-bit core as they run: a page, or a stretch up to the 64K wrap, at a time. */
module PagedMemory {
  import opened Words
  import opened Paging

  const LIMIT := 0x1_0000_0000

  /** Linear addresses of a transfer, and of one that wraps inside a segment. */
  function Line(x: dword, len: nat): (xs: seq<dword>)
    requires x + len <= LIMIT
    ensures |xs| == len
  {
    seq(len, i requires 0 <= i < len => x + i)
  }

  function Wrapped(seg: word, off: nat, len: nat): (xs: seq<dword>)
    ensures |xs| == len
  {
    seq(len, i requires 0 <= i < len => seg * 16 + (off + i) % 0x1_0000)
  }

  /** Memory after k bytes of d, from place `from` on, went to the addresses from p on. */
  function Poked(m: seq<byte>, p: dword, d: seq<byte>, from: nat, k: nat): (r: seq<byte>)
    requires |m| > 0 && |m| % 4 == 0 && p + k <= LIMIT && from + k <= |d|
    ensures |r| == |m|
  {
    if k == 0 then m else Poked(m, p, d, from, k - 1)[Wire(|m|, p + k - 1) := d[from + k - 1]]
  }

  /** size addresses of the list from place n on are consecutive and, with paging, in one page. */
  ghost predicate Chunk(u: Unit, xs: seq<dword>, n: nat, a: dword, size: nat) {
    && n + size <= |xs| && a + size <= LIMIT
    && (forall k :: n <= k < n + size ==> xs[k] == a + (k - n))
    && (u.paging ==> a % 0x1000 + size <= 0x1000)
  }

  /** Bytes from a to the end of its page. */
  function Room(a: dword): (r: nat)
    ensures 0 < r <= 0x1000
  {
    0x1000 - a % 0x1000
  }

  ghost predicate Consecutive(xs: seq<dword>, x: dword) {
    x + |xs| <= LIMIT && forall k :: 0 <= k < |xs| ==> xs[k] == x + k
  }

  lemma LineChunk(u: Unit, xs: seq<dword>, x: dword, n: nat, a: dword, size: nat)
    requires Consecutive(xs, x) && n + size <= |xs| && 0 < size && a == x + n && (u.paging ==> size <= Room(a))
    ensures Chunk(u, xs, n, a, size)
  {
  }

  /** A stretch before the 64K wrap. */
  lemma WrapChunk(u: Unit, seg: word, off: nat, total: nat, n: nat, a: dword, size: nat)
    requires n + size <= total && 0 < size && a == seg * 16 + (off + n) % 0x1_0000
    requires (off + n) % 0x1_0000 + size <= 0x1_0000 && (u.paging ==> size <= Room(a))
    ensures Chunk(u, Wrapped(seg, off, total), n, a, size)
  {
    var xs := Wrapped(seg, off, total);
    forall k | n <= k < n + size ensures xs[k] == a + (k - n) {
      QuotientUnique(off + k, 0x1_0000, (off + n) / 0x1_0000, (off + n) % 0x1_0000 + (k - n));
    }
  }

  lemma OffsetStep(cur: nat, off: nat, n: nat, size: nat)
    requires cur % 0x1_0000 == (off + n) % 0x1_0000
    ensures (cur % 0x1_0000 + size) % 0x1_0000 == (off + n + size) % 0x1_0000
  {
  }

  lemma SamePage(a: dword, i: nat)
    requires a % 0x1000 + i < 0x1000
    ensures (a + i) % 0x1000 == a % 0x1000 + i && (a + i) / 0x1000 == a / 0x1000 && (a + i) / 0x40_0000 == a / 0x40_0000
  {
  }

  /** Inside one page, consecutive linear addresses are consecutive in memory. */
  lemma ChunkMaps(u: Unit, m: seq<byte>, xs: seq<dword>, n: nat, a: dword, size: nat, k: nat)
    requires Sane(u, |m|) && AllMapped(u, m, xs) && Chunk(u, xs, n, a, size) && n <= k < n + size
    ensures Translate(u, m, a) + (k - n) < LIMIT && Translate(u, m, xs[k]) == Translate(u, m, a) + (k - n)
  {
    if u.paging {
      assert xs[n] in xs && xs[n] == a;
      InPage(u, m, a, xs[k], k - n);
    }
  }

  lemma InPage(u: Unit, m: seq<byte>, a: dword, x: dword, i: nat)
    requires Sane(u, |m|) && u.paging && a % 0x1000 + i < 0x1000 && x == a + i && Mapped(u, m, a)
    ensures Translate(u, m, a) + i < LIMIT && Translate(u, m, x) == Translate(u, m, a) + i
  {
    SamePage(a, i);
    assert PdeAt(u, x) == PdeAt(u, a) && PteAt(u, m, x) == PteAt(u, m, a);
    PageEnd(Frame(u, m, PteAt(u, m, a)), a % 0x1000 + i);
  }

  lemma PageEnd(frame: dword, offset: nat)
    requires frame % 0x1000 == 0 && offset < 0x1000
    ensures frame + offset < LIMIT
  {
  }

  /** The n-th to (n + size)-th bytes of a transfer lie at p, p + 1, ... in memory. */
  ghost predicate Straight(size: nat, cells: seq<nat>, n: nat, p: dword, len: nat)
    requires size > 0 && size % 4 == 0
  {
    && n + len <= |cells| && p + len <= LIMIT
    && forall k :: n <= k < n + len ==> cells[k] == Wire(size, p + (k - n))
  }

  lemma ChunkStraight(u: Unit, m: seq<byte>, xs: seq<dword>, n: nat, a: dword, len: nat)
    requires Sane(u, |m|) && AllMapped(u, m, xs) && Chunk(u, xs, n, a, len) && len > 0
    ensures Straight(u.size, Cells(u, m, xs), n, Translate(u, m, a), len)
  {
    ChunkMaps(u, m, xs, n, a, len, n + len - 1);
    forall k | n <= k < n + len ensures Cells(u, m, xs)[k] == Wire(u.size, Translate(u, m, a) + (k - n)) {
      ChunkMaps(u, m, xs, n, a, len, k);
      CellAt(u, m, xs, k);
    }
  }

  ghost predicate CellsFit(cells: seq<nat>, size: nat) {
    forall i :: 0 <= i < |cells| ==> cells[i] < size
  }

  /** Writing consecutive bytes of memory is storing the data in those cells. */
  lemma {:induction false} ChunkStores(m: seq<byte>, cells: seq<nat>, marks: set<nat>, entries: set<nat>, d: seq<byte>,
                                       n: nat, p: dword, k: nat, now: seq<byte>)
    requires |m| > 0 && |m| % 4 == 0 && CellsFit(cells, |m|) && Apart(cells, entries) && |d| == |cells|
    requires Straight(|m|, cells, n, p, k) && Tracks(m, marks, entries, Stored(m, cells, d, n), now)
    ensures Tracks(m, marks, entries, Stored(m, cells, d, n + k), Poked(now, p, d, n, k))
  {
    if k > 0 {
      ChunkStores(m, cells, marks, entries, d, n, p, k - 1, now);
      TracksStore(m, marks, entries, Stored(m, cells, d, n + (k - 1)), Poked(now, p, d, n, k - 1),
                  cells[n + k - 1], d[n + k - 1]);
    }
  }

  /** The first n bytes of the transfer are in the buffer. */
  ghost predicate Filled(dat: seq<byte>, m: seq<byte>, cells: seq<nat>, n: nat)
    requires CellsFit(cells, |m|) && n <= |cells|
  {
    n <= |dat| && forall i :: 0 <= i < n ==> dat[i] == m[cells[i]]
  }

  class Bus {
    const mem: array<byte>
    const unit: Unit

    constructor (memory: array<byte>, mmu: Unit)
      ensures mem == memory && unit == mmu
    {
      mem, unit := memory, mmu;
    }

    ghost predicate Valid()
      reads this
    {
      Sane(unit, mem.Length)
    }

    /** The page walk, with its writes to the tables. */
    method PhysicalAddress(x: dword, write: bool) returns (p: dword)
      requires Valid() && unit.paging
      modifies mem
      ensures p == Translate(unit, old(mem[..]), x) && mem[..] == Touched(unit, old(mem[..]), x, write)
    {
      ghost var m := mem[..];
      var a := PdeAt(unit, x);
      var pde := mem[Wire(unit.size, a)];
      if !Present(pde) {
        return DUMMY;
      }
      var table := FrameIn(a);
      if !Accessed(pde) {
        mem[Wire(unit.size, a)] := Marked(pde, 0x20);
      }
      assert mem[..] == MarkPde(unit, m, x);
      var b: dword := table + x / 0x1000 % 0x400 * 4;
      assert b == PteAt(unit, m, x);
      MarkPdeEffect(unit, m, x);
      RemarkedEntry(unit, m, mem[..], PteAt(unit, m, x));
      CoreParity(m[Wire(unit.size, b)], mem[Wire(unit.size, b)]);
      p := LastLevel(b, x, write);
    }

    /** The table entry at b. */
    method LastLevel(b: dword, x: dword, write: bool) returns (p: dword)
      requires Valid() && b % 4 == 0 && b + 3 < LIMIT
      modifies mem
      ensures var m := old(mem[..]);
        if Present(m[Wire(unit.size, b)]) then p == Frame(unit, m, b) + x % 0x1000 && mem[..] == MarkPte(unit, m, b, write)
        else p == DUMMY && mem[..] == m
    {
      var pte := mem[Wire(unit.size, b)];
      if !Present(pte) {
        return DUMMY;
      }
      var page := FrameIn(b);
      PageEnd(page, x % 0x1000);
      if !Accessed(pte) {
        mem[Wire(unit.size, b)] := Marked(pte, 0x20);
      }
      if write && !Dirty(pte) {
        mem[Wire(unit.size, b)] := Marked(pte, 0x40);
      }
      return page + x % 0x1000;
    }

    /** The base address in the entry at a. */
    method FrameIn(a: dword) returns (f: dword)
      requires Valid() && a + 3 < LIMIT
      ensures f == Frame(unit, mem[..], a)
    {
      var b: int, c: int, d: int := mem[Wire(unit.size, a + 1)], mem[Wire(unit.size, a + 2)], mem[Wire(unit.size, a + 3)];
      f := b / 16 * 0x1000 + c * 0x1_0000 + d * 0x100_0000;
    }

    method ReadBlock(p: dword, dat: array<byte>, at: nat, size: nat)
      requires Valid() && dat != mem && at + size <= dat.Length && p + size <= LIMIT
      modifies dat
      ensures forall k :: at <= k < at + size ==> dat[k] == mem[Wire(unit.size, p + (k - at))]
      ensures forall k :: 0 <= k < dat.Length && !(at <= k < at + size) ==> dat[k] == old(dat[k])
    {
      var i := 0;
      while i < size
        invariant i <= size
        invariant forall k :: at <= k < at + i ==> dat[k] == mem[Wire(unit.size, p + (k - at))]
        invariant forall k :: 0 <= k < dat.Length && !(at <= k < at + i) ==> dat[k] == old(dat[k])
      {
        dat[at + i] := mem[Wire(unit.size, p + i)];
        i := i + 1;
      }
    }

    method WriteBlock(p: dword, d: seq<byte>, from: nat, size: nat)
      requires Valid() && from + size <= |d| && p + size <= LIMIT
      modifies mem
      ensures mem[..] == Poked(old(mem[..]), p, d, from, size)
    {
      var i := 0;
      while i < size
        invariant i <= size && mem[..] == Poked(old(mem[..]), p, d, from, i)
      {
        mem[Wire(unit.size, p + i)] := d[from + i];
        i := i + 1;
      }
    }

    /** Where an address is: the walk with paging, itself without. */
    method Resolve(x: dword, write: bool) returns (p: dword)
      requires Valid()
      modifies mem
      ensures p == Translate(unit, old(mem[..]), x) && mem[..] == Touched(unit, old(mem[..]), x, write)
    {
      p := x;
      if unit.paging {
        p := PhysicalAddress(x, write);
      }
    }

    /** What a transfer relies on: its plan on memory m, and memory still following it. */
    ghost predicate Going(m: seq<byte>, xs: seq<dword>, w: seq<byte>)
      requires Sane(unit, |m|)
      reads this, mem
    {
      mem.Length == |m| && Tracks(m, Marks(unit, m, xs), Entries(unit, m, xs), w, mem[..])
    }

    /** The walk before a chunk. */
    method FindChunk(a: dword, write: bool, ghost m: seq<byte>, ghost xs: seq<dword>, ghost n: nat, ghost len: nat,
                     ghost w: seq<byte>) returns (p: dword)
      requires Valid() && Sane(unit, |m|) && AllMapped(unit, m, xs) && Chunk(unit, xs, n, a, len) && len > 0 && Going(m, xs, w)
      modifies mem
      ensures Straight(unit.size, Cells(unit, m, xs), n, p, len) && Going(m, xs, w)
    {
      assert xs[n] in xs && xs[n] == a;
      TracksMaps(unit, m, xs, w, mem[..], a);
      TracksWalk(unit, m, xs, w, mem[..], a, write);
      ChunkStraight(unit, m, xs, n, a, len);
      p := Resolve(a, write);
    }

    /** One chunk of a read. m is memory before the whole transfer. */
    method ReadChunk(a: dword, dat: array<byte>, at: nat, len: nat, ghost m: seq<byte>, ghost xs: seq<dword>)
      requires Valid() && Sane(unit, |m|) && dat != mem && 0 < len && at + len <= |xs| <= dat.Length
      requires AllMapped(unit, m, xs) && Apart(Cells(unit, m, xs), Entries(unit, m, xs)) && CellsFit(Cells(unit, m, xs), |m|)
      requires Chunk(unit, xs, at, a, len) && Going(m, xs, m) && Filled(dat[..], m, Cells(unit, m, xs), at)
      modifies mem, dat
      ensures Going(m, xs, m) && Filled(dat[..], m, Cells(unit, m, xs), at + len)
    {
      var p := FindChunk(a, false, m, xs, at, len, m);
      MarksAreEntries(unit, m, xs);
      Fill(p, dat, at, len, m, Cells(unit, m, xs), Marks(unit, m, xs), Entries(unit, m, xs));
    }

    method Fill(p: dword, dat: array<byte>, at: nat, len: nat, ghost m: seq<byte>, ghost cells: seq<nat>,
                ghost marks: set<nat>, ghost entries: set<nat>)
      requires Valid() && dat != mem && at + len <= dat.Length && |m| == mem.Length && CellsFit(cells, |m|)
      requires Straight(unit.size, cells, at, p, len) && Apart(cells, entries) && marks <= entries
      requires Tracks(m, marks, entries, m, mem[..]) && Filled(dat[..], m, cells, at)
      modifies dat
      ensures Filled(dat[..], m, cells, at + len)
    {
      ReadBlock(p, dat, at, len);
      forall k | at <= k < at + len ensures dat[k] == m[cells[k]] {
        UnmarkedRead(m, marks, entries, m, mem[..], cells[k]);
      }
    }

    /** One chunk of a write. */
    method WriteChunk(a: dword, d: seq<byte>, at: nat, len: nat, ghost m: seq<byte>, ghost xs: seq<dword>)
      requires Valid() && Sane(unit, |m|) && 0 < len && at + len <= |xs| == |d|
      requires AllMapped(unit, m, xs) && Apart(Cells(unit, m, xs), Entries(unit, m, xs)) && CellsFit(Cells(unit, m, xs), |m|)
      requires Chunk(unit, xs, at, a, len) && Going(m, xs, Stored(m, Cells(unit, m, xs), d, at))
      modifies mem
      ensures Going(m, xs, Stored(m, Cells(unit, m, xs), d, at + len))
    {
      var p := FindChunk(a, true, m, xs, at, len, Stored(m, Cells(unit, m, xs), d, at));
      ChunkStores(m, Cells(unit, m, xs), Marks(unit, m, xs), Entries(unit, m, xs), d, at, p, len, mem[..]);
      WriteBlock(p, d, at, len);
    }

    /** What the caller of a transfer guarantees: every page present, no table among the bytes. */
    ghost predicate Allowed(xs: seq<dword>)
      requires Valid()
      reads this, mem
    {
      && AllMapped(unit, mem[..], xs)
      && Apart(Cells(unit, mem[..], xs), Entries(unit, mem[..], xs))
    }

    /** Reads page by page. */
    method LinearRead(x: dword, dat: array<byte>, len: nat)
      requires Valid() && dat != mem && len <= dat.Length && x + len <= LIMIT && Allowed(Line(x, len))
      modifies mem, dat
      ensures var m := old(mem[..]);
        CellsFit(Cells(unit, m, Line(x, len)), |m|) && Filled(dat[..], m, Cells(unit, m, Line(x, len)), len)
      ensures Going(old(mem[..]), Line(x, len), old(mem[..]))
    {
      ghost var m, xs := mem[..], Line(x, len);
      CellsInside(unit, m, xs);
      TracksSelf(m, Marks(unit, m, xs), Entries(unit, m, xs));
      if !unit.paging {
        if len > 0 {
          LineChunk(unit, xs, x, 0, x, len);
          ReadChunk(x, dat, 0, len, m, xs);
        }
      } else {
        ReadPages(x, dat, len, m, xs);
      }
    }

    method ReadPages(x: dword, dat: array<byte>, len: nat, ghost m: seq<byte>, ghost xs: seq<dword>)
      requires Valid() && Sane(unit, |m|) && unit.paging && dat != mem && Consecutive(xs, x) && |xs| == len <= dat.Length
      requires AllMapped(unit, m, xs) && Apart(Cells(unit, m, xs), Entries(unit, m, xs)) && CellsFit(Cells(unit, m, xs), |m|)
      requires Going(m, xs, m)
      modifies mem, dat
      ensures Going(m, xs, m) && Filled(dat[..], m, Cells(unit, m, xs), len)
    {
      hide Cells, Marks, Entries, Apart, AllMapped, Tracks;
      var done := 0;
      while done < len
        invariant done <= len && Going(m, xs, m) && Filled(dat[..], m, Cells(unit, m, xs), done)
      {
        var a: dword := x + done;
        var size := Min(Room(a), len - done);
        LineChunk(unit, xs, x, done, a, size);
        ReadChunk(a, dat, done, size, m, xs);
        done := done + size;
      }
    }

    /** Writes page by page. */
    method LinearWrite(x: dword, d: seq<byte>)
      requires Valid() && x + |d| <= LIMIT && Allowed(Line(x, |d|))
      modifies mem
      ensures var m := old(mem[..]);
        CellsFit(Cells(unit, m, Line(x, |d|)), |m|) && Going(m, Line(x, |d|), Stored(m, Cells(unit, m, Line(x, |d|)), d, |d|))
    {
      ghost var m, xs := mem[..], Line(x, |d|);
      CellsInside(unit, m, xs);
      TracksSelf(m, Marks(unit, m, xs), Entries(unit, m, xs));
      if !unit.paging {
        if d != [] {
          LineChunk(unit, xs, x, 0, x, |d|);
          WriteChunk(x, d, 0, |d|, m, xs);
        }
      } else {
        WritePages(x, d, m, xs);
      }
    }

    method WritePages(x: dword, d: seq<byte>, ghost m: seq<byte>, ghost xs: seq<dword>)
      requires Valid() && Sane(unit, |m|) && unit.paging && Consecutive(xs, x) && |xs| == |d|
      requires AllMapped(unit, m, xs) && Apart(Cells(unit, m, xs), Entries(unit, m, xs)) && CellsFit(Cells(unit, m, xs), |m|)
      requires Going(m, xs, m)
      modifies mem
      ensures Going(m, xs, Stored(m, Cells(unit, m, xs), d, |d|))
    {
      hide Cells, Marks, Entries, Apart, AllMapped, Tracks;
      var done := 0;
      while done < |d|
        invariant done <= |d| && Going(m, xs, Stored(m, Cells(unit, m, xs), d, done))
      {
        var a: dword := x + done;
        var size := Min(Room(a), |d| - done);
        LineChunk(unit, xs, x, done, a, size);
        WriteChunk(a, d, done, size, m, xs);
        done := done + size;
      }
    }

    /** Length of the next stretch of a transfer that wraps inside its segment. */
    method Stretch(seg: word, low: nat, left: nat) returns (a: dword, size: nat)
      requires low < 0x1_0000 && left > 0
      ensures a == seg * 16 + low && 0 < size <= left && low + size <= 0x1_0000 && (unit.paging ==> size <= Room(a))
    {
      a := seg * 16 + low;
      size := Min(left, 0x1_0000 - low);
      if unit.paging {
        size := Min(size, Room(a));
      }
    }

    /** Reads from a segment, going on at offset 0 after offset FFFF. */
    method SegmentRead(seg: word, off: nat, dat: array<byte>, len: nat)
      requires Valid() && dat != mem && len <= dat.Length && Allowed(Wrapped(seg, off, len))
      modifies mem, dat
      ensures var m := old(mem[..]);
        CellsFit(Cells(unit, m, Wrapped(seg, off, len)), |m|) && Filled(dat[..], m, Cells(unit, m, Wrapped(seg, off, len)), len)
      ensures Going(old(mem[..]), Wrapped(seg, off, len), old(mem[..]))
    {
      hide Cells, Marks, Entries, Apart, AllMapped, Tracks;
      ghost var m, xs := mem[..], Wrapped(seg, off, len);
      CellsInside(unit, m, xs);
      TracksSelf(m, Marks(unit, m, xs), Entries(unit, m, xs));
      var done, cur := 0, off;
      while done < len
        invariant done <= len && Going(m, xs, m) && Filled(dat[..], m, Cells(unit, m, xs), done)
        invariant cur % 0x1_0000 == (off + done) % 0x1_0000
      {
        var a, size := Stretch(seg, cur % 0x1_0000, len - done);
        WrapChunk(unit, seg, off, len, done, a, size);
        OffsetStep(cur, off, done, size);
        ReadChunk(a, dat, done, size, m, xs);
        cur, done := cur % 0x1_0000 + size, done + size;
      }
    }

    method SegmentWrite(seg: word, off: nat, d: seq<byte>)
      requires Valid() && Allowed(Wrapped(seg, off, |d|))
      modifies mem
      ensures var m, xs := old(mem[..]), Wrapped(seg, off, |d|);
        CellsFit(Cells(unit, m, xs), |m|) && Going(m, xs, Stored(m, Cells(unit, m, xs), d, |d|))
    {
      hide Cells, Marks, Entries, Apart, AllMapped, Tracks;
      ghost var m, xs := mem[..], Wrapped(seg, off, |d|);
      CellsInside(unit, m, xs);
      TracksSelf(m, Marks(unit, m, xs), Entries(unit, m, xs));
      var done, cur := 0, off;
      while done < |d|
        invariant done <= |d| && Going(m, xs, Stored(m, Cells(unit, m, xs), d, done))
        invariant cur % 0x1_0000 == (off + done) % 0x1_0000
      {
        var a, size := Stretch(seg, cur % 0x1_0000, |d| - done);
        WrapChunk(unit, seg, off, |d|, done, a, size);
        OffsetStep(cur, off, done, size);
        WriteChunk(a, d, done, size, m, xs);
        cur, done := cur % 0x1_0000 + size, done + size;
      }
    }

    /** A 16-bit value: one translation unless the second byte starts a page. */
    method Read16(x: dword) returns (v: word)
      requires Valid() && Allowed(Pair(x))
      modifies mem
      ensures var m := old(mem[..]);
        CellsFit(Cells(unit, m, Pair(x)), |m|) && v == Word(m, Cells(unit, m, Pair(x))) && Going(m, Pair(x), m)
    {
      ghost var m, xs := mem[..], Pair(x);
      CellsInside(unit, m, xs);
      TracksSelf(m, Marks(unit, m, xs), Entries(unit, m, xs));
      var low: byte, high: byte;
      if (x + 1) % 0x1000 != 0 {
        PairChunk(unit, x);
        low, high := ReadTwo(x, m, xs);
      } else {
        low := ReadOne(x, 0, m, xs);
        high := ReadOne((x + 1) % LIMIT, 1, m, xs);
      }
      var first: int, second: int := low, high;
      v := first + 0x100 * second;
    }

    method ReadOne(x: dword, ghost n: nat, ghost m: seq<byte>, ghost xs: seq<dword>) returns (v: byte)
      requires Valid() && Sane(unit, |m|) && n < |xs| && xs[n] == x && AllMapped(unit, m, xs) && Going(m, xs, m)
      requires Apart(Cells(unit, m, xs), Entries(unit, m, xs)) && CellsFit(Cells(unit, m, xs), |m|)
      modifies mem
      ensures Going(m, xs, m) && v == m[Cells(unit, m, xs)[n]]
    {
      var p := FindChunk(x, false, m, xs, n, 1, m);
      MarksAreEntries(unit, m, xs);
      UnmarkedRead(m, Marks(unit, m, xs), Entries(unit, m, xs), m, mem[..], Cells(unit, m, xs)[n]);
      v := mem[Wire(unit.size, p)];
    }

    method ReadTwo(x: dword, ghost m: seq<byte>, ghost xs: seq<dword>) returns (low: byte, high: byte)
      requires Valid() && Sane(unit, |m|) && |xs| == 2 && Chunk(unit, xs, 0, x, 2) && AllMapped(unit, m, xs)
      requires Going(m, xs, m) && Apart(Cells(unit, m, xs), Entries(unit, m, xs)) && CellsFit(Cells(unit, m, xs), |m|)
      modifies mem
      ensures Going(m, xs, m) && low == m[Cells(unit, m, xs)[0]] && high == m[Cells(unit, m, xs)[1]]
    {
      var p := FindChunk(x, false, m, xs, 0, 2, m);
      MarksAreEntries(unit, m, xs);
      UnmarkedRead(m, Marks(unit, m, xs), Entries(unit, m, xs), m, mem[..], Cells(unit, m, xs)[0]);
      UnmarkedRead(m, Marks(unit, m, xs), Entries(unit, m, xs), m, mem[..], Cells(unit, m, xs)[1]);
      low, high := mem[Wire(unit.size, p)], mem[Wire(unit.size, p + 1)];
    }

    method Write16(x: dword, v: word)
      requires Valid() && Allowed(Pair(x))
      modifies mem
      ensures var m := old(mem[..]);
        CellsFit(Cells(unit, m, Pair(x)), |m|) && Going(m, Pair(x), Stored(m, Cells(unit, m, Pair(x)), [v % 0x100, v / 0x100], 2))
    {
      ghost var m, xs := mem[..], Pair(x);
      CellsInside(unit, m, xs);
      TracksSelf(m, Marks(unit, m, xs), Entries(unit, m, xs));
      var d: seq<byte> := [v % 0x100, v / 0x100];
      if (x + 1) % 0x1000 != 0 {
        PairChunk(unit, x);
        WriteChunk(x, d, 0, 2, m, xs);
      } else {
        WriteChunk(x, d, 0, 1, m, xs);
        WriteChunk((x + 1) % LIMIT, d, 1, 1, m, xs);
      }
    }

    /** A 16-bit value in a segment: one translation unless paging is on and the second byte starts a page. */
    method SegmentRead16(seg: word, off: nat) returns (v: word)
      requires Valid() && Allowed(InSegment(unit.paging, seg, off))
      modifies mem
      ensures var m, xs := old(mem[..]), InSegment(unit.paging, seg, off);
        CellsFit(Cells(unit, m, xs), |m|) && v == Word(m, Cells(unit, m, xs)) && Going(m, xs, m)
    {
      hide InSegment, Cells, Marks, Entries, Apart, AllMapped, Tracks, Stored;
      ghost var m, xs := mem[..], InSegment(unit.paging, seg, off);
      Splits(unit, seg, off);
      CellsInside(unit, m, xs);
      TracksSelf(m, Marks(unit, m, xs), Entries(unit, m, xs));
      var x: dword := seg * 16 + off % 0x1_0000;
      var low: byte, high: byte;
      if !unit.paging || (x + 1) % 0x1000 != 0 {
        low, high := ReadTwo(x, m, xs);
      } else {
        low := ReadOne(x, 0, m, xs);
        high := ReadOne(seg * 16 + (off + 1) % 0x1_0000, 1, m, xs);
      }
      var first: int, second: int := low, high;
      v := first + 0x100 * second;
    }

    method SegmentWrite16(seg: word, off: nat, v: word)
      requires Valid() && Allowed(InSegment(unit.paging, seg, off))
      modifies mem
      ensures var m, xs := old(mem[..]), InSegment(unit.paging, seg, off);
        CellsFit(Cells(unit, m, xs), |m|) && Going(m, xs, Stored(m, Cells(unit, m, xs), [v % 0x100, v / 0x100], 2))
    {
      hide InSegment, Cells, Marks, Entries, Apart, AllMapped, Tracks;
      ghost var m, xs := mem[..], InSegment(unit.paging, seg, off);
      Splits(unit, seg, off);
      CellsInside(unit, m, xs);
      TracksSelf(m, Marks(unit, m, xs), Entries(unit, m, xs));
      var d: seq<byte> := [v % 0x100, v / 0x100];
      var x: dword := seg * 16 + off % 0x1_0000;
      if !unit.paging || (x + 1) % 0x1000 != 0 {
        WriteChunk(x, d, 0, 2, m, xs);
      } else {
        WriteChunk(x, d, 0, 1, m, xs);
        WriteChunk(seg * 16 + (off + 1) % 0x1_0000, d, 1, 1, m, xs);
      }
    }
  }

  /** Addresses of a 16-bit access. */
  function Pair(x: dword): seq<dword> {
    [x, (x + 1) % LIMIT]
  }

  function Word(m: seq<byte>, cells: seq<nat>): word
    requires CellsFit(cells, |m|) && |cells| == 2
  {
    var low: int, high: int := m[cells[0]], m[cells[1]];
    low + 0x100 * high
  }

  lemma PairChunk(u: Unit, x: dword)
    requires (x + 1) % 0x1000 != 0
    ensures Chunk(u, Pair(x), 0, x, 2)
  {
  }

  /** A transfer, however it is cut up, returns the bytes that reading one address at a time returns. */
  lemma ReadIsBytewise(u: Unit, m: seq<byte>, xs: seq<dword>, dat: seq<byte>, i: nat)
    requires Sane(u, |m|) && Apart(Cells(u, m, xs), Entries(u, m, xs)) && CellsFit(Cells(u, m, xs), |m|)
    requires Filled(dat, m, Cells(u, m, xs), |xs|) && i < |xs|
    ensures dat[i] == ByteRead(u, m, xs, i)
  {
    BytewiseReads(u, m, xs, i);
  }

  /** And leaves the same bytes everywhere, marks in the tables aside, as writing one address at a time. */
  lemma WriteIsBytewise(u: Unit, m: seq<byte>, xs: seq<dword>, d: seq<byte>, now: seq<byte>, c: nat)
    requires Sane(u, |m|) && |d| == |xs| && Apart(Cells(u, m, xs), Entries(u, m, xs)) && CellsFit(Cells(u, m, xs), |m|)
    requires Tracks(m, Marks(u, m, xs), Entries(u, m, xs), Stored(m, Cells(u, m, xs), d, |d|), now)
    requires c < |m| && c !in Marks(u, m, xs)
    ensures now[c] == AfterWrites(u, m, xs, d, |d|)[c]
  {
    BytewiseWrites(u, m, xs, d, |d|);
  }

  // ---- 16-bit accesses in a segment ----

  /** The second byte of a 16-bit access in a segment: the next linear address, except that an access
      split between pages goes through the offset. */
  function SecondByte(paging: bool, seg: word, off: nat): dword {
    var x := seg * 16 + off % 0x1_0000;
    if paging && (x + 1) % 0x1000 == 0 then seg * 16 + (off + 1) % 0x1_0000 else x + 1
  }

  /** Addresses of that access. */
  function InSegment(paging: bool, seg: word, off: nat): seq<dword> {
    [seg * 16 + off % 0x1_0000, SecondByte(paging, seg, off)]
  }

  /** The access is one stretch of memory, or one byte and one byte. */
  lemma Splits(u: Unit, seg: word, off: nat)
    ensures var xs, x := InSegment(u.paging, seg, off), seg * 16 + off % 0x1_0000;
      && |xs| == 2 && xs[0] == x
      && if !u.paging || (x + 1) % 0x1000 != 0 then Chunk(u, xs, 0, x, 2)
         else Chunk(u, xs, 0, x, 1) && xs[1] == seg * 16 + (off + 1) % 0x1_0000 && Chunk(u, xs, 1, xs[1], 1)
  {
  }

  /** It is the byte at the next offset of the segment, except at offset FFFF of a segment whose end is
      not a page boundary (or without paging). */
  lemma SecondByteExact(paging: bool, seg: word, off: nat)
    ensures SecondByte(paging, seg, off) == Wrapped(seg, off, 2)[1] <==>
      off % 0x1_0000 != 0xFFFF || (paging && seg % 0x100 == 0)
  {
    var low := off % 0x1_0000;
    if low == 0xFFFF {
      QuotientUnique(off + 1, 0x1_0000, off / 0x1_0000 + 1, 0);
      assert seg * 16 + low + 1 == 0x1000 * 16 + seg * 16;
    } else {
      QuotientUnique(off + 1, 0x1_0000, off / 0x1_0000, low + 1);
    }
  }

  /** In segment 1, offset FFFF is followed by the byte past the segment, with paging or without. */
  lemma SecondByteLeaves(paging: bool)
    ensures SecondByte(paging, 1, 0xFFFF) == 0x1_0010 && Wrapped(1, 0xFFFF, 2)[1] == 0x10
  {
    assert (0xFFFF + 1) % 0x1_0000 == 0;
    assert (0x1_000F + 1) % 0x1000 == 0x10;
  }
}
