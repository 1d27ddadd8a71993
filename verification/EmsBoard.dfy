/** The EMS board as the driver changes it in place: list walks, the validator loop, frame accesses. */
module EmsBoard {
  import opened Words
  import opened Ems
  import opened EmsRuns

  class Board {
    const total: nat
    const low: array<byte>
    var free: int
    var count: int
    var blocks: seq<Block>
    var slots: seq<Slot>

    ghost function View(): State
      reads this, low
    {
      State(total, free, count, blocks, slots, low[..])
    }

    ghost predicate Valid()
      reads this, low
    {
      Inv(View())
    }

    constructor (pages: nat, memory: array<byte>)
      ensures Valid() && View() == State(pages, pages, 0, [], seq(4, _ => Slot(0, 0)), memory[..])
    {
      total, free, count, low := pages, pages, 0, memory;
      blocks, slots := [], [Slot(0, 0), Slot(0, 0), Slot(0, 0), Slot(0, 0)];
    }

    method Search(handle: nat) returns (i: nat)
      ensures i == Find(blocks, handle)
    {
      i := 0;
      while i < |blocks|
        invariant i <= |blocks| && Find(blocks, handle) == i + Find(blocks[i..], handle)
      {
        if blocks[i].handle == handle {
          return;
        }
        i := i + 1;
      }
    }

    /** Goes on from place p to the block at a host address. */
    method Advance(p: nat, at: nat) returns (q: nat)
      requires p <= |blocks|
      ensures q <= |blocks| && blocks[q..] == Skip(blocks[p..], at)
    {
      q := p;
      while q < |blocks|
        invariant p <= q <= |blocks| && Skip(blocks[p..], at) == Skip(blocks[q..], at)
      {
        if blocks[q].at == at {
          return;
        }
        q := q + 1;
      }
    }

    /** Clears the slots the scan does not confirm; the place in the list carries over between slots. */
    method Validate()
      requires |slots| == 4
      modifies `slots
      ensures slots == Sweep(blocks, old(slots))
    {
      var p: nat := 0;
      var i: nat := 0;
      assert blocks[0..] == blocks;
      while i < 4
        invariant i <= 4 && p <= |blocks| && Swept(blocks, p, old(slots), slots, i)
      {
        var q := Advance(p, slots[i].block);
        var found := q < |blocks| && slots[i].page < blocks[q].pages;
        SweepStep(blocks, p, q, old(slots), slots, i, found);
        if !found {
          slots := slots[i := slots[i].(block := 0)];
        }
        p, i := q, i + 1;
      }
    }

    /** Host allocation is a parameter: at is 0 when it fails. handle is the one given out in DX, or 0. */
    method AllocatePages(pages: word, at: nat, fill: seq<byte>) returns (status: byte, handle: nat)
      requires Valid() && Supplied(View(), Allocate(pages, at, fill))
      modifies this
      ensures Valid() && Reply(View(), status) == Apply(old(View()), Allocate(pages, at, fill))
      ensures handle == if status == OK then NextHandle(old(blocks), 1) else 0
      ensures status == OK ==> blocks == old(blocks) + [Block(at, handle, pages, Nothing, fill)]
    {
      ApplyKeeps(View(), Allocate(pages, at, fill));
      if pages > total {
        return MORE_THAN_TOTAL, 0;
      }
      if pages > free {
        return MORE_THAN_FREE, 0;
      }
      if pages == 0 {
        return ZERO_PAGES, 0;
      }
      handle := 1;
      var i: nat := 0;
      while i < |blocks|
        invariant i <= |blocks| && NextHandle(blocks, 1) == NextHandle(blocks[i..], handle)
      {
        if blocks[i].handle == handle {
          handle := handle + 1;
        }
        i := i + 1;
      }
      if handle > MAX_HANDLES {
        return HANDLES_EXHAUSTED, 0;
      }
      if at == 0 {
        return MALFUNCTION, 0;
      }
      blocks := blocks + [Block(at, handle, pages, Nothing, fill)];
      count := count + 1;
      free := free - pages;
      status := OK;
    }

    method MapSlot(physical: byte, logical: word, handle: word) returns (status: byte)
      requires Valid()
      modifies `slots
      ensures Valid() && Reply(View(), status) == Apply(old(View()), MapPage(physical, logical, handle))
    {
      ApplyKeeps(View(), MapPage(physical, logical, handle));
      var i := Search(handle);
      if i == |blocks| {
        return HANDLE_NOT_FOUND;
      }
      if logical != UNMAPPED && logical >= blocks[i].pages {
        return LOGICAL_RANGE;
      }
      if physical >= 4 {
        return PHYSICAL_RANGE;
      }
      slots := slots[physical := Slot(if logical == UNMAPPED then 0 else blocks[i].at, logical)];
      return OK;
    }

    method ReleaseHandle(handle: word) returns (status: byte)
      requires Valid()
      modifies this
      ensures Valid() && Reply(View(), status) == Apply(old(View()), Release(handle))
    {
      ApplyKeeps(View(), Release(handle));
      var i := Search(handle);
      if i == |blocks| {
        return HANDLE_NOT_FOUND;
      }
      if blocks[i].saved.Map? {
        return SAVE_PENDING;
      }
      Unlink(i);
      return OK;
    }

    method Unlink(i: nat)
      requires i < |blocks| && |slots| == 4
      modifies this
      ensures View() == Unlinked(old(View()), i)
    {
      free := free + blocks[i].pages;
      blocks := blocks[..i] + blocks[i + 1..];
      count := count - 1;
      Validate();
    }

    method SaveMapping(handle: word) returns (status: byte)
      requires Valid()
      modifies this
      ensures Valid() && Reply(View(), status) == Apply(old(View()), SaveMap(handle))
    {
      ApplyKeeps(View(), SaveMap(handle));
      var i := Search(handle);
      if i == |blocks| {
        return HANDLE_NOT_FOUND;
      }
      if blocks[i].saved.Map? {
        return ALREADY_SAVED;
      }
      Validate();
      assert View() == Validated(old(View()));
      blocks := blocks[i := blocks[i].(saved := Map(slots))];
      return OK;
    }

    method RestoreMapping(handle: word) returns (status: byte)
      requires Valid()
      modifies this
      ensures Valid() && Reply(View(), status) == Apply(old(View()), RestoreMap(handle))
    {
      ApplyKeeps(View(), RestoreMap(handle));
      var i := Search(handle);
      if i == |blocks| {
        return HANDLE_NOT_FOUND;
      }
      if !blocks[i].saved.Map? {
        return NOT_SAVED;
      }
      assert Sized(blocks[i]);
      slots := blocks[i].saved.slots;
      blocks := blocks[i := blocks[i].(saved := Nothing)];
      Validate();
      return OK;
    }

    method SetMapping(given: seq<Slot>)
      requires Valid() && |given| == 4
      modifies `slots
      ensures Valid() && View() == Apply(old(View()), SetMap(given)).state
    {
      ApplyKeeps(View(), SetMap(given));
      slots := given;
      ghost var mid := View();
      Validate();
      assert View() == Validated(mid);
    }

    /** Takes over the slots whose flag is set. */
    method SetPartialMapping(given: seq<Slot>, flags: set<nat>)
      requires Valid() && |given| == 4
      modifies `slots
      ensures Valid() && View() == Apply(old(View()), SetPartial(given, flags)).state
    {
      ApplyKeeps(View(), SetPartial(given, flags));
      var i: nat := 0;
      while i < 4
        invariant i <= 4 && |slots| == 4 && slots[i..] == old(slots)[i..]
        invariant slots[..i] == Chosen(old(slots), given, flags)[..i]
      {
        ChosenStep(old(slots), slots, given, flags, i);
        if i in flags {
          slots := slots[i := given[i]];
        }
        i := i + 1;
      }
      assert slots == Chosen(old(slots), given, flags);
      Validate();
    }

    method ReallocatePages(pages: word, handle: word, at: nat, fill: seq<byte>) returns (status: byte)
      requires Valid() && Supplied(View(), Reallocate(pages, handle, at, fill))
      modifies this
      ensures Valid() && Reply(View(), status) == Apply(old(View()), Reallocate(pages, handle, at, fill))
    {
      ApplyKeeps(View(), Reallocate(pages, handle, at, fill));
      var i := Search(handle);
      if i == |blocks| {
        return HANDLE_NOT_FOUND;
      }
      if pages == blocks[i].pages {
        return OK;
      }
      if pages > total {
        return MORE_THAN_TOTAL;
      }
      if pages > free + blocks[i].pages {
        return MORE_THAN_FREE;
      }
      Resize(i, pages, at, fill);
      return OK;
    }

    method Resize(i: nat, pages: word, at: nat, fill: seq<byte>)
      requires i < |blocks| && |slots| == 4
      modifies this
      ensures View() == Grown(old(View()), i, pages, at, fill)
    {
      free := free + blocks[i].pages;
      blocks := blocks[i := Resized(blocks[i], pages, at, fill)];
      free := free - pages;
      Validate();
    }

    /** Looks for the slot by counting the address down a page at a time. */
    method SlotOf(a: nat) returns (i: nat, offset: nat)
      requires InFrame(a)
      ensures i == (a - FRAME) / PAGE < 4 && offset == (a - FRAME) % PAGE
    {
      i, offset := 0, a - FRAME;
      while offset >= PAGE
        invariant a - FRAME == i * PAGE + offset && i * PAGE < 4 * PAGE
      {
        i, offset := i + 1, offset - PAGE;
      }
    }

    method Get8(a: nat) returns (v: byte)
      requires Valid() && Accessible(View(), a)
      ensures Inside(View(), Resolve(View(), a)) && v == Fetch(View(), Resolve(View(), a))
    {
      ResolveInside(View(), a);
      if !InFrame(a) {
        return low[a];
      }
      var i, offset := SlotOf(a);
      if slots[i].block == 0 {
        return 0xff;
      }
      var p := Owner(slots[i].block);
      return blocks[p].memory[offset + PAGE * slots[i].page];
    }

    method Put8(a: nat, v: byte)
      requires Valid() && Accessible(View(), a)
      modifies `blocks, low
      ensures Valid() && View() == Apply(old(View()), Put(a, v)).state
    {
      ResolveInside(View(), a);
      ApplyKeeps(View(), Put(a, v));
      if !InFrame(a) {
        low[a] := v;
        return;
      }
      var i, offset := SlotOf(a);
      if slots[i].block == 0 {
        return;
      }
      var p := Owner(slots[i].block);
      var b := blocks[p];
      blocks := blocks[p := b.(memory := b.memory[offset + PAGE * slots[i].page := v])];
    }

    /** Dereferences a block pointer. */
    method Owner(at: nat) returns (i: nat)
      ensures i == Place(blocks, at)
    {
      i := Place(blocks, at);
    }

    /** The plain move between two handles. */
    method MoveRegion(len: dword, from: End, to: End) returns (status: byte)
      requires Valid() && Supplied(View(), Move(len, from, to))
      modifies `blocks
      ensures Valid() && Reply(View(), status) == Apply(old(View()), Move(len, from, to))
    {
      ApplyKeeps(View(), Move(len, from, to));
      Moving(View(), len, from, to);
      var i := Search(from.handle);
      if i == |blocks| {
        return HANDLE_NOT_FOUND;
      }
      var j := Search(to.handle);
      if j == |blocks| {
        return HANDLE_NOT_FOUND;
      }
      if !EndAccepted(blocks[i], from, len) || !EndAccepted(blocks[j], to, len) {
        return MOVE_RANGE;
      }
      var f, t := Start(from), Start(to);
      status := if i == j && Overlap(len, f, t) then OVERLAPPED else OK;
      var data := blocks[i].memory[f..f + len];
      blocks := blocks[j := Refilled(blocks[j], t, data)];
    }
  }

  /** Slots before i are settled, and the rest of the scan goes on from place p. */
  ghost predicate Swept(bs: seq<Block>, p: nat, before: seq<Slot>, now: seq<Slot>, i: nat)
    requires p <= |bs|
  {
    && i <= |now| == |before| == 4 && now[i..] == before[i..]
    && Sweep(bs, before) == now[..i] + Sweep(bs[p..], before[i..])
  }

  /** One slot of the validator. */
  lemma SweepStep(bs: seq<Block>, p: nat, q: nat, before: seq<Slot>, now: seq<Slot>, i: nat, found: bool)
    requires p <= |bs| && q <= |bs| && i < 4 && Swept(bs, p, before, now, i)
    requires bs[q..] == Skip(bs[p..], now[i].block)
    requires found <==> q < |bs| && now[i].page < bs[q].pages
    ensures Swept(bs, q, before, if found then now else now[i := now[i].(block := 0)], i + 1)
  {
    var kept := if found then now[i] else now[i].(block := 0);
    SuffixStep(now, before, i);
    SweepHead(bs[p..], bs[q..], before[i..], found);
    SettleStep(now, i, kept, Sweep(bs[q..], before[i + 1..]));
  }

  lemma SuffixStep(now: seq<Slot>, before: seq<Slot>, i: nat)
    requires i < |now| == |before| && now[i..] == before[i..]
    ensures now[i] == before[i] == before[i..][0] && now[i + 1..] == before[i + 1..] == before[i..][1..]
  {
    assert now[i..][0] == before[i..][0];
    assert now[i + 1..] == now[i..][1..];
  }

  lemma SweepHead(start: seq<Block>, left: seq<Block>, slots: seq<Slot>, found: bool)
    requires slots != [] && left == Skip(start, slots[0].block)
    requires found <==> left != [] && slots[0].page < left[0].pages
    ensures Sweep(start, slots) == [if found then slots[0] else slots[0].(block := 0)] + Sweep(left, slots[1..])
  {
  }

  lemma SettleStep(now: seq<Slot>, i: nat, kept: Slot, rest: seq<Slot>)
    requires i < |now|
    ensures now[..i] + ([kept] + rest) == now[i := kept][..i + 1] + rest
    ensures now[i := kept][i + 1..] == now[i + 1..]
    ensures kept == now[i] ==> now[i := kept] == now
  {
  }

  /** A move that goes through. */
  lemma Moving(s: State, len: dword, from: End, to: End)
    requires Inv(s) && Supplied(s, Move(len, from, to))
    ensures var i, j := Find(s.blocks, from.handle), Find(s.blocks, to.handle);
      i < |s.blocks| && j < |s.blocks| && EndAccepted(s.blocks[i], from, len) && EndAccepted(s.blocks[j], to, len) ==>
        && Start(from) + len <= |s.blocks[i].memory| && Start(to) + len <= |s.blocks[j].memory|
        && Apply(s, Move(len, from, to)) == Reply(
             State(s.total, s.free, s.count, s.blocks[j := Refilled(s.blocks[j], Start(to),
               s.blocks[i].memory[Start(from)..Start(from) + len])], s.slots, s.low),
             if i == j && Overlap(len, Start(from), Start(to)) then OVERLAPPED else OK)
  {
    forall b | b in s.blocks ensures |b.memory| == b.pages * PAGE {
      assert Sized(b);
    }
  }

  function Refilled(b: Block, at: nat, data: seq<byte>): Block
    requires at + |data| <= |b.memory|
  {
    b.(memory := Spliced(b.memory, at, data))
  }

  /** One slot of a partial mapping. */
  lemma ChosenStep(before: seq<Slot>, now: seq<Slot>, given: seq<Slot>, flags: set<nat>, i: nat)
    requires |before| == |now| == |given| == 4 && i < 4
    requires now[i..] == before[i..] && now[..i] == Chosen(before, given, flags)[..i]
    ensures var next := if i in flags then now[i := given[i]] else now;
      next[i + 1..] == before[i + 1..] && next[..i + 1] == Chosen(before, given, flags)[..i + 1]
  {
    var next := if i in flags then now[i := given[i]] else now;
    assert now[i] == now[i..][0] == before[i];
    assert now[i + 1..] == now[i..][1..] && before[i + 1..] == before[i..][1..];
    assert next[..i + 1] == now[..i] + [next[i]];
  }
}
