/** Runs of a new board that end in a dropped mapping and in one handle for two blocks. */
module EmsCases {
  import opened Ems
  import opened EmsRuns

  const NO_SLOTS := [Slot(0, 0), Slot(0, 0), Slot(0, 0), Slot(0, 0)]

  /** A new board of four pages. */
  ghost predicate New(s: State) {
    Inv(s) && s.blocks == [] && s.slots == NO_SLOTS && s.total == 4 == s.free
  }

  /** A request for one page, which the host finds at address at. */
  function OnePage(at: nat): Request {
    Allocate(1, at, seq(PAGE, _ => 0))
  }

  function PageBlock(at: nat, handle: nat): Block {
    Block(at, handle, 1, Nothing, seq(PAGE, _ => 0))
  }

  lemma NewBoard() returns (s: State)
    ensures New(s)
  {
    s := State(4, 4, 0, [], NO_SLOTS, []);
  }

  /** The board in s, with nothing mapped, grants one page at address at under handle h. */
  lemma Granted(s: State, at: nat, h: nat) returns (s': State)
    requires Inv(s) && 1 <= s.free && 1 <= s.total && h == NextHandle(s.blocks, 1) <= MAX_HANDLES
    requires at != 0 && Place(s.blocks, at) == |s.blocks|
    ensures s' == s.(blocks := s.blocks + [PageBlock(at, h)], count := s.count + 1, free := s.free - 1)
    ensures Inv(s') && Supplied(s, OnePage(at)) && Apply(s, OnePage(at)).state == s'
  {
    s' := Apply(s, OnePage(at)).state;
    ApplyKeeps(s, OnePage(at));
  }

  lemma Then(s: State, r: Request, rs: seq<Request>, s': State)
    requires Inv(s) && Supplied(s, r) && Inv(Apply(s, r).state) && Reaches(Apply(s, r).state, rs, s')
    ensures Reaches(s, [r] + rs, s')
  {
    assert ([r] + rs)[1..] == rs;
  }

  /** One page allocated and mapped in slot 1, slot 0 being empty: saving the mapping drops it. */
  lemma ValidatorDropsGoodSlot() returns (start: State, rs: seq<Request>, s: State)
    ensures New(start) && Reaches(start, rs, s) && Inv(s)
    ensures Good(s.blocks, s.slots[1])
    ensures var r := Apply(s, SaveMap(1)); r.status == OK && r.state.slots[1].block == 0
  {
    hide Apply, Inv, Supplied, Reaches, Good;
    start := NewBoard();
    var a := Granted(start, 1, 1);
    var map1 := MapPage(1, 0, 1);
    s := FirstMapped(a);
    Then(a, map1, [], s);
    Then(start, OnePage(1), [map1] + [], s);
    rs := [OnePage(1)] + ([map1] + []);
    Dropped(s);
  }

  lemma FirstMapped(s: State) returns (s': State)
    requires Inv(s) && s.slots == NO_SLOTS && s.blocks == [PageBlock(1, 1)]
    ensures Supplied(s, MapPage(1, 0, 1)) && Inv(s') && Apply(s, MapPage(1, 0, 1)).state == s'
    ensures s' == s.(slots := NO_SLOTS[1 := Slot(1, 0)])
  {
    s' := Apply(s, MapPage(1, 0, 1)).state;
    ApplyKeeps(s, MapPage(1, 0, 1));
  }

  lemma Dropped(s: State)
    requires Inv(s) && s.blocks == [PageBlock(1, 1)] && s.slots == NO_SLOTS[1 := Slot(1, 0)]
    ensures Good(s.blocks, s.slots[1])
    ensures var r := Apply(s, SaveMap(1)); r.status == OK && r.state.slots[1].block == 0
  {
    SweepExact(s.blocks, s.slots, 1);
    assert Place(s.blocks, 0) == 1 && Place(s.blocks, 1) == 0;
    assert !Ordered(s.blocks, s.slots, 1);
  }

  /** Two pages allocated, the first released and allocated again: the next request gets handle 2, which
      is in use. */
  lemma HandleGivenTwice() returns (start: State, rs: seq<Request>, s: State)
    ensures New(start) && Reaches(start, rs, s)
    ensures |s.blocks| == 3 && s.blocks[0].handle == 2 == s.blocks[2].handle
  {
    hide Apply, Inv, Supplied, Reaches, Good;
    start := NewBoard();
    var a := Granted(start, 1, 1);
    var b := Granted(a, 2, 2);
    var c := FirstReleased(b);
    var d := Granted(c, 3, 1);
    SecondTaken(d.blocks);
    s := Granted(d, 4, 2);
    Then(d, OnePage(4), [], s);
    Then(c, OnePage(3), [OnePage(4)] + [], s);
    Then(b, Release(1), [OnePage(3)] + ([OnePage(4)] + []), s);
    Then(a, OnePage(2), [Release(1)] + ([OnePage(3)] + ([OnePage(4)] + [])), s);
    rs := [OnePage(1)] + ([OnePage(2)] + ([Release(1)] + ([OnePage(3)] + ([OnePage(4)] + []))));
    Then(start, OnePage(1), [OnePage(2)] + ([Release(1)] + ([OnePage(3)] + ([OnePage(4)] + []))), s);
  }

  lemma FirstReleased(s: State) returns (s': State)
    requires Inv(s) && s.slots == NO_SLOTS && s.blocks == [PageBlock(1, 1), PageBlock(2, 2)]
    ensures Supplied(s, Release(1)) && Inv(s') && Apply(s, Release(1)).state == s'
    ensures s' == s.(blocks := [PageBlock(2, 2)], free := s.free + 1, count := s.count - 1)
  {
    hide Inv, Sweep;
    s' := Apply(s, Release(1)).state;
    ApplyKeeps(s, Release(1));
    assert Find(s.blocks, 1) == 0;
    assert s.blocks[..0] + s.blocks[1..] == [PageBlock(2, 2)];
    SweepNothing([PageBlock(2, 2)], NO_SLOTS);
  }

  /** Empty slots stay empty. */
  lemma {:induction false} SweepNothing(bs: seq<Block>, slots: seq<Slot>)
    requires forall t :: t in slots ==> t.block == 0
    ensures Sweep(bs, slots) == slots
    decreases |slots|
  {
    if slots != [] {
      assert slots == [slots[0]] + slots[1..];
      SweepNothing(Skip(bs, slots[0].block), slots[1..]);
    }
  }

  lemma SecondTaken(bs: seq<Block>)
    requires bs == [PageBlock(2, 2), PageBlock(3, 1)]
    ensures NextHandle(bs, 1) == 2 && Place(bs, 4) == 2
  {
    assert bs[1..] == [PageBlock(3, 1)];
    assert NextHandle(bs, 1) == NextHandle(bs[1..], 1) == NextHandle(bs[1..][1..], 2) == 2;
  }
}
