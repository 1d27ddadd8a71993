/** The EMS board: handle blocks, the four-slot page frame, and what each INT 67h request does. */
module Ems {
  import opened Words

  const PAGE := 0x4000
  const FRAME := 0xD_0000
  const MAX_HANDLES := 255
  const UNMAPPED: word := 0xFFFF

  const OK: byte := 0x00
  const MALFUNCTION: byte := 0x80
  const HANDLE_NOT_FOUND: byte := 0x83
  const HANDLES_EXHAUSTED: byte := 0x85
  const SAVE_PENDING: byte := 0x86
  const MORE_THAN_TOTAL: byte := 0x87
  const MORE_THAN_FREE: byte := 0x88
  const ZERO_PAGES: byte := 0x89
  const LOGICAL_RANGE: byte := 0x8a
  const PHYSICAL_RANGE: byte := 0x8b
  const ALREADY_SAVED: byte := 0x8d
  const NOT_SAVED: byte := 0x8e
  const OVERLAPPED: byte := 0x92
  const MOVE_RANGE: byte := 0x93

  /** What a slot of the page frame shows; block 0 is the null pointer. */
  datatype Slot = Slot(block: nat, page: dword)

  datatype Saved = Nothing | Map(slots: seq<Slot>)

  /** A handle's block, `at` being its address in the host. */
  datatype Block = Block(at: nat, handle: nat, pages: nat, saved: Saved, memory: seq<byte>)

  datatype State = State(total: nat, free: int, count: int, blocks: seq<Block>, slots: seq<Slot>, low: seq<byte>)

  /** `at` and `fill` are what the host allocator supplies: an address (0 for failure) and the bytes found there. */
  datatype Request =
    | Allocate(pages: word, at: nat, fill: seq<byte>)
    | MapPage(physical: byte, logical: word, handle: word)
    | Release(handle: word)
    | SaveMap(handle: word)
    | RestoreMap(handle: word)
    | SetMap(slots: seq<Slot>)
    | SetPartial(slots: seq<Slot>, chosen: set<nat>)
    | Reallocate(pages: word, handle: word, at: nat, fill: seq<byte>)
    | Put(address: nat, value: byte)
    | Move(len: dword, from: End, to: End)

  /** One end of a move between handles. */
  datatype End = End(handle: word, offset: word, page: word)

  datatype Reply = Reply(state: State, status: byte)

  // ---- the list of blocks ----

  /** Place of the block at a host address, or the length. */
  function Place(bs: seq<Block>, at: nat): (i: nat)
    ensures i <= |bs|
    ensures i < |bs| ==> bs[i].at == at
    ensures forall j :: 0 <= j < i ==> bs[j].at != at
  {
    if bs == [] || bs[0].at == at then 0 else 1 + Place(bs[1..], at)
  }

  /** First block with the handle, or the length. */
  function Find(bs: seq<Block>, handle: nat): (i: nat)
    ensures i <= |bs|
    ensures i < |bs| ==> bs[i].handle == handle
    ensures forall j :: 0 <= j < i ==> bs[j].handle != handle
  {
    if bs == [] || bs[0].handle == handle then 0 else 1 + Find(bs[1..], handle)
  }

  function Pages(bs: seq<Block>): nat {
    if bs == [] then 0 else bs[0].pages + Pages(bs[1..])
  }

  /** The handle the allocator settles on, starting from h: one pass, stepping past a match. */
  function NextHandle(bs: seq<Block>, h: nat): nat {
    if bs == [] then h else NextHandle(bs[1..], if bs[0].handle == h then h + 1 else h)
  }

  // ---- the page frame ----

  /** The slot names a live block and a page inside it. */
  ghost predicate Good(bs: seq<Block>, s: Slot) {
    var i := Place(bs, s.block);
    i < |bs| && s.page < bs[i].pages
  }

  /** The scan of the validator: it goes on from where the previous slot left it. */
  function Skip(bs: seq<Block>, at: nat): seq<Block> {
    if bs == [] || bs[0].at == at then bs else Skip(bs[1..], at)
  }

  function Sweep(rest: seq<Block>, slots: seq<Slot>): (r: seq<Slot>)
    ensures |r| == |slots|
    decreases |slots|
  {
    if slots == [] then [] else
      var left := Skip(rest, slots[0].block);
      var kept := left != [] && slots[0].page < left[0].pages;
      [if kept then slots[0] else slots[0].(block := 0)] + Sweep(left, slots[1..])
  }

  function Validated(s: State): State {
    s.(slots := Sweep(s.blocks, s.slots))
  }

  ghost predicate Distinct(bs: seq<Block>) {
    && (forall b :: b in bs ==> b.at != 0)
    && forall i, j :: 0 <= i < j < |bs| ==> bs[i].at != bs[j].at
  }

  ghost predicate Sized(b: Block) {
    && b.pages <= 0xFFFF && |b.memory| == b.pages * PAGE
    && 1 <= b.handle <= MAX_HANDLES
    && (b.saved.Map? ==> |b.saved.slots| == 4)
  }

  ghost predicate Backed(bs: seq<Block>) {
    forall b :: b in bs ==> Sized(b)
  }

  /** Every slot is empty or shows an existing page of a live block. */
  ghost predicate Sound(bs: seq<Block>, slots: seq<Slot>) {
    forall s :: s in slots && s.block != 0 ==> Good(bs, s)
  }

  ghost predicate Inv(s: State) {
    && s.free >= 0 && s.free + Pages(s.blocks) == s.total
    && s.count == |s.blocks|
    && |s.slots| == 4
    && Distinct(s.blocks) && Backed(s.blocks) && Sound(s.blocks, s.slots)
  }

  // ---- accesses ----

  predicate InFrame(a: nat) {
    FRAME <= a < FRAME + 4 * PAGE
  }

  /** What a guest address denotes: ordinary memory, a byte of a block (by place), or nothing. */
  datatype Cell = Low(address: nat) | Byte(place: nat, offset: nat) | Hole

  function Resolve(s: State, a: nat): Cell
    requires |s.slots| == 4
  {
    if !InFrame(a) then Low(a) else
      var slot := s.slots[(a - FRAME) / PAGE];
      if slot.block == 0 then Hole
      else Byte(Place(s.blocks, slot.block), (a - FRAME) % PAGE + PAGE * slot.page)
  }

  ghost predicate Accessible(s: State, a: nat) {
    InFrame(a) || a < |s.low|
  }

  /** The cell is inside the memory it belongs to. */
  ghost predicate Inside(s: State, c: Cell) {
    match c
    case Low(a) => a < |s.low|
    case Byte(i, o) => i < |s.blocks| && o < |s.blocks[i].memory|
    case Hole => true
  }

  function Fetch(s: State, c: Cell): byte
    requires Inside(s, c)
  {
    match c
    case Low(a) => s.low[a]
    case Byte(i, o) => s.blocks[i].memory[o]
    case Hole => 0xff
  }

  function Store(s: State, c: Cell, v: byte): State
    requires Inside(s, c)
  {
    match c
    case Low(a) => s.(low := s.low[a := v])
    case Byte(i, o) => s.(blocks := s.blocks[i := s.blocks[i].(memory := s.blocks[i].memory[o := v])])
    case Hole => s
  }

  lemma ResolveInside(s: State, a: nat)
    requires Inv(s) && Accessible(s, a)
    ensures Inside(s, Resolve(s, a))
  {
    if InFrame(a) {
      var slot := s.slots[(a - FRAME) / PAGE];
      if slot.block != 0 {
        assert slot in s.slots && Good(s.blocks, slot);
        assert Sized(s.blocks[Place(s.blocks, slot.block)]);
        PageInside((a - FRAME) % PAGE, slot.page, s.blocks[Place(s.blocks, slot.block)].pages);
      }
    }
  }

  lemma PageInside(offset: nat, page: nat, pages: nat)
    requires offset < PAGE && page < pages
    ensures offset + PAGE * page < pages * PAGE
  {
  }

  // ---- block moves ----

  function Spliced(m: seq<byte>, at: nat, data: seq<byte>): seq<byte>
    requires at + |data| <= |m|
  {
    m[..at] + data + m[at + |data|..]
  }

  /** The page-granular range check of the move request. */
  predicate EndAccepted(b: Block, e: End, len: dword) {
    e.page + ((e.offset + len) % 0x1_0000_0000) / PAGE <= b.pages
  }

  function Start(e: End): nat {
    e.offset + e.page * PAGE
  }

  /** The part of a move that is not the check: does the end lie inside its block? */
  predicate EndInside(b: Block, e: End, len: dword) {
    Start(e) + len <= b.pages * PAGE
  }

  predicate Overlap(len: dword, f: nat, t: nat) {
    (f < t < f + len) || (t < f < t + len)
  }

  // ---- requests ----

  /** What the host allocator guarantees, and what the caller of a move or a store must. */
  ghost predicate Supplied(s: State, r: Request) {
    match r
    case Allocate(pages, at, fill) =>
      at == 0 || (Place(s.blocks, at) == |s.blocks| && |fill| == pages * PAGE)
    case Reallocate(pages, handle, at, fill) =>
      var i := Find(s.blocks, handle);
      i < |s.blocks| ==>
        && at != 0 && Place(s.blocks, at) in {i, |s.blocks|}
        && |fill| == if pages > s.blocks[i].pages then (pages - s.blocks[i].pages) * PAGE else 0
    case SetMap(slots) => |slots| == 4
    case SetPartial(slots, chosen) => |slots| == 4
    case Put(a, v) => Accessible(s, a)
    case Move(len, from, to) =>
      var i, j := Find(s.blocks, from.handle), Find(s.blocks, to.handle);
      i < |s.blocks| && j < |s.blocks| && EndAccepted(s.blocks[i], from, len) && EndAccepted(s.blocks[j], to, len) ==>
        EndInside(s.blocks[i], from, len) && EndInside(s.blocks[j], to, len)
    case _ => true
  }

  function Resized(b: Block, pages: word, at: nat, fill: seq<byte>): Block {
    b.(at := at, pages := pages,
       memory := if pages * PAGE <= |b.memory| then b.memory[..pages * PAGE] else b.memory + fill)
  }

  /** Without the block at i. */
  function Unlinked(s: State, i: nat): State
    requires i < |s.blocks|
  {
    Validated(s.(free := s.free + s.blocks[i].pages, blocks := s.blocks[..i] + s.blocks[i + 1..], count := s.count - 1))
  }

  /** With the block at i moved and resized. */
  function Grown(s: State, i: nat, pages: word, at: nat, fill: seq<byte>): State
    requires i < |s.blocks|
  {
    Validated(s.(free := s.free + s.blocks[i].pages - pages,
                 blocks := s.blocks[i := Resized(s.blocks[i], pages, at, fill)]))
  }

  function Chosen(current: seq<Slot>, given: seq<Slot>, chosen: set<nat>): (r: seq<Slot>)
    requires |current| == |given| == 4
    ensures |r| == 4
  {
    seq(4, i requires 0 <= i < 4 => if i in chosen then given[i] else current[i])
  }

  function Apply(s: State, r: Request): Reply
    requires Inv(s) && Supplied(s, r)
  {
    var bs := s.blocks;
    match r
    case Allocate(pages, at, fill) =>
      var h := NextHandle(bs, 1);
      if pages > s.total then Reply(s, MORE_THAN_TOTAL)
      else if pages > s.free then Reply(s, MORE_THAN_FREE)
      else if pages == 0 then Reply(s, ZERO_PAGES)
      else if h > MAX_HANDLES then Reply(s, HANDLES_EXHAUSTED)
      else if at == 0 then Reply(s, MALFUNCTION)
      else Reply(s.(blocks := bs + [Block(at, h, pages, Nothing, fill)], count := s.count + 1, free := s.free - pages), OK)
    case MapPage(physical, logical, handle) =>
      var i := Find(bs, handle);
      if i == |bs| then Reply(s, HANDLE_NOT_FOUND)
      else if logical != UNMAPPED && logical >= bs[i].pages then Reply(s, LOGICAL_RANGE)
      else if physical >= 4 then Reply(s, PHYSICAL_RANGE)
      else Reply(s.(slots := s.slots[physical := Slot(if logical == UNMAPPED then 0 else bs[i].at, logical)]), OK)
    case Release(handle) =>
      var i := Find(bs, handle);
      if i == |bs| then Reply(s, HANDLE_NOT_FOUND)
      else if bs[i].saved.Map? then Reply(s, SAVE_PENDING)
      else Reply(Unlinked(s, i), OK)
    case SaveMap(handle) =>
      var i := Find(bs, handle);
      if i == |bs| then Reply(s, HANDLE_NOT_FOUND)
      else if bs[i].saved.Map? then Reply(s, ALREADY_SAVED)
      else
        var v := Validated(s);
        Reply(v.(blocks := bs[i := bs[i].(saved := Map(v.slots))]), OK)
    case RestoreMap(handle) =>
      var i := Find(bs, handle);
      if i == |bs| then Reply(s, HANDLE_NOT_FOUND)
      else if !bs[i].saved.Map? then Reply(s, NOT_SAVED)
      else Reply(Validated(s.(slots := bs[i].saved.slots, blocks := bs[i := bs[i].(saved := Nothing)])), OK)
    case SetMap(slots) => Reply(Validated(s.(slots := slots)), OK)
    case SetPartial(slots, chosen) => Reply(Validated(s.(slots := Chosen(s.slots, slots, chosen))), OK)
    case Reallocate(pages, handle, at, fill) =>
      var i := Find(bs, handle);
      if i == |bs| then Reply(s, HANDLE_NOT_FOUND)
      else if pages == bs[i].pages then Reply(s, OK)
      else if pages > s.total then Reply(s, MORE_THAN_TOTAL)
      else if pages > s.free + bs[i].pages then Reply(s, MORE_THAN_FREE)
      else Reply(Grown(s, i, pages, at, fill), OK)
    case Put(a, v) =>
      ResolveInside(s, a);
      Reply(Store(s, Resolve(s, a), v), OK)
    case Move(len, from, to) =>
      var i, j := Find(bs, from.handle), Find(bs, to.handle);
      if i == |bs| || j == |bs| then Reply(s, HANDLE_NOT_FOUND)
      else if !EndAccepted(bs[i], from, len) || !EndAccepted(bs[j], to, len) then Reply(s, MOVE_RANGE)
      else
        assert Sized(bs[i]) && Sized(bs[j]);
        var data := bs[i].memory[Start(from)..Start(from) + len];
        Reply(s.(blocks := bs[j := bs[j].(memory := Spliced(bs[j].memory, Start(to), data))]),
              if i == j && Overlap(len, Start(from), Start(to)) then OVERLAPPED else OK)
  }
}
