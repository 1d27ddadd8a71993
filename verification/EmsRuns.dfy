/** What the EMS board keeps over every run, what its map validator keeps, and aliasing through the frame. */
module EmsRuns {
  import opened Words
  import opened Ems

  // ---- the validator ----

  /** Slots 0..i show blocks at places that never go back in the list. */
  ghost predicate Ordered(bs: seq<Block>, slots: seq<Slot>, i: nat)
    requires i < |slots|
  {
    forall j, k :: 0 <= j <= k <= i ==> Place(bs, slots[j].block) <= Place(bs, slots[k].block)
  }

  lemma {:induction false} PlaceInSuffix(bs: seq<Block>, k: nat, at: nat)
    requires Distinct(bs) && k <= |bs|
    ensures var p := Place(bs, at); Place(bs[k..], at) == if p >= k then p - k else |bs| - k
  {
    var p, q := Place(bs, at), Place(bs[k..], at);
    if k <= p < |bs| {
      assert bs[k..][p - k].at == at;
    }
  }

  /** With the scan standing at place k, slot i finds its block still ahead and its page in range. */
  ghost predicate Kept(bs: seq<Block>, k: nat, slots: seq<Slot>, i: nat)
    requires i < |slots|
  {
    k <= Place(bs, slots[0].block) && Ordered(bs, slots, i) && Good(bs, slots[i])
  }

  lemma {:induction false} SweepFrom(bs: seq<Block>, k: nat, slots: seq<Slot>, i: nat)
    requires Distinct(bs) && k <= |bs| && i < |slots|
    ensures Sweep(bs[k..], slots)[i] == if Kept(bs, k, slots, i) then slots[i] else slots[i].(block := 0)
    decreases i
  {
    PlaceInSuffix(bs, k, slots[0].block);
    SkipFrom(bs, k, slots[0].block);
    if i == 0 {
      FirstKept(bs, k, slots);
    } else {
      var next := Resume(bs, k, slots[0].block);
      SweepTail(bs[k..], slots, i);
      SweepFrom(bs, next, slots[1..], i - 1);
      KeptStep(bs, k, slots, i);
    }
  }

  /** Where the scan stands after looking for a block from place k on. */
  function Resume(bs: seq<Block>, k: nat, at: nat): (next: nat)
    ensures next <= |bs|
  {
    if k <= Place(bs, at) then Place(bs, at) else |bs|
  }

  lemma {:induction false} SkipPlace(bs: seq<Block>, at: nat)
    ensures Skip(bs, at) == bs[Place(bs, at)..]
  {
    if bs != [] && bs[0].at != at {
      SkipPlace(bs[1..], at);
    }
  }

  lemma SkipFrom(bs: seq<Block>, k: nat, at: nat)
    requires Distinct(bs) && k <= |bs|
    ensures Skip(bs[k..], at) == bs[Resume(bs, k, at)..]
  {
    PlaceInSuffix(bs, k, at);
    SkipPlace(bs[k..], at);
  }

  lemma KeptStep(bs: seq<Block>, k: nat, slots: seq<Slot>, i: nat)
    requires k <= |bs| && 0 < i < |slots|
    ensures Kept(bs, k, slots, i) <==> Kept(bs, Resume(bs, k, slots[0].block), slots[1..], i - 1)
  {
    OrderedStep(bs, slots, i);
  }

  lemma FirstKept(bs: seq<Block>, k: nat, slots: seq<Slot>)
    requires k <= |bs| && slots != []
    requires Skip(bs[k..], slots[0].block) == bs[Resume(bs, k, slots[0].block)..]
    ensures Sweep(bs[k..], slots)[0] == if Kept(bs, k, slots, 0) then slots[0] else slots[0].(block := 0)
  {
  }

  lemma SweepTail(rest: seq<Block>, slots: seq<Slot>, i: nat)
    requires 0 < i < |slots|
    ensures Sweep(rest, slots)[i] == Sweep(Skip(rest, slots[0].block), slots[1..])[i - 1]
  {
  }

  lemma OrderedStep(bs: seq<Block>, slots: seq<Slot>, i: nat)
    requires 0 < i < |slots|
    ensures Ordered(bs, slots, i) <==>
            Place(bs, slots[0].block) <= Place(bs, slots[1].block) && Ordered(bs, slots[1..], i - 1)
    ensures Ordered(bs, slots[1..], i - 1) ==> Place(bs, slots[1].block) <= Place(bs, slots[i].block)
  {
    var rest := slots[1..];
    assert rest[0] == slots[1] && rest[i - 1] == slots[i];
    if Ordered(bs, rest, i - 1) && Place(bs, slots[0].block) <= Place(bs, slots[1].block) {
      OrderedCons(bs, slots, i);
    }
    if Ordered(bs, slots, i) {
      OrderedRest(bs, slots, i);
    }
  }

  lemma OrderedCons(bs: seq<Block>, slots: seq<Slot>, i: nat)
    requires 0 < i < |slots| && Ordered(bs, slots[1..], i - 1)
    requires Place(bs, slots[0].block) <= Place(bs, slots[1].block)
    ensures Ordered(bs, slots, i)
  {
    var rest := slots[1..];
    forall j, k | 0 <= j <= k <= i ensures Place(bs, slots[j].block) <= Place(bs, slots[k].block) {
      if 0 < j {
        assert rest[j - 1] == slots[j] && rest[k - 1] == slots[k];
      } else if 0 < k {
        assert rest[0] == slots[1] && rest[k - 1] == slots[k];
      }
    }
  }

  lemma OrderedRest(bs: seq<Block>, slots: seq<Slot>, i: nat)
    requires 0 < i < |slots| && Ordered(bs, slots, i)
    ensures Ordered(bs, slots[1..], i - 1)
  {
    var rest := slots[1..];
    forall j, k | 0 <= j <= k <= i - 1 ensures Place(bs, rest[j].block) <= Place(bs, rest[k].block) {
      assert rest[j] == slots[j + 1] && rest[k] == slots[k + 1];
    }
  }

  /** The validator, exactly: a slot survives if and only if it is good and no slot up to it goes
      back in the block list; an empty slot counts as past the end. */
  lemma SweepExact(bs: seq<Block>, slots: seq<Slot>, i: nat)
    requires Distinct(bs) && i < |slots|
    ensures Sweep(bs, slots)[i] ==
      if Ordered(bs, slots, i) && Good(bs, slots[i]) then slots[i] else slots[i].(block := 0)
  {
    assert bs[0..] == bs;
    SweepFrom(bs, 0, slots, i);
  }

  lemma SweepSound(bs: seq<Block>, slots: seq<Slot>)
    requires Distinct(bs)
    ensures Sound(bs, Sweep(bs, slots))
  {
    var r := Sweep(bs, slots);
    forall s | s in r && s.block != 0 ensures Good(bs, s) {
      var i :| 0 <= i < |r| && r[i] == s;
      SweepExact(bs, slots, i);
    }
  }

  /** The validator keeps every good slot if and only if no good slot comes after one that goes back. */
  lemma SweepComplete(bs: seq<Block>, slots: seq<Slot>)
    requires Distinct(bs)
    ensures (forall i :: 0 <= i < |slots| && Good(bs, slots[i]) ==> Sweep(bs, slots)[i] == slots[i])
       <==> (forall i :: 0 <= i < |slots| && Good(bs, slots[i]) ==> Ordered(bs, slots, i))
  {
    forall i | 0 <= i < |slots| && Good(bs, slots[i])
      ensures Sweep(bs, slots)[i] == slots[i] <==> Ordered(bs, slots, i)
    {
      SweepExact(bs, slots, i);
      assert bs[Place(bs, slots[i].block)] in bs;
    }
  }

  // ---- every request keeps the books ----

  lemma {:induction false} PagesOfConcat(a: seq<Block>, b: seq<Block>)
    ensures Pages(a + b) == Pages(a) + Pages(b)
  {
    if a == [] {
      assert a + b == b;
    } else {
      PagesOfConcat(a[1..], b);
      assert (a + b)[1..] == a[1..] + b;
    }
  }

  /** Taking the block at i out, or putting another in its place, moves the page total accordingly. */
  lemma PagesSplit(bs: seq<Block>, i: nat, b: Block)
    requires i < |bs|
    ensures Pages(bs[..i] + bs[i + 1..]) + bs[i].pages == Pages(bs)
    ensures Pages(bs[i := b]) == Pages(bs) - bs[i].pages + b.pages
  {
    PagesOfConcat(bs[..i], bs[i + 1..]);
    PagesOfConcat(bs[..i], bs[i..]);
    PagesOfConcat(bs[..i], [b] + bs[i + 1..]);
    assert bs == bs[..i] + bs[i..] && bs[i := b] == bs[..i] + ([b] + bs[i + 1..]);
    assert ([b] + bs[i + 1..])[1..] == bs[i + 1..];
  }

  /** What "good" depends on is only the address and the page count of the blocks. */
  lemma {:induction false} PlaceStable(bs: seq<Block>, cs: seq<Block>, at: nat)
    requires |bs| == |cs| && forall i :: 0 <= i < |bs| ==> bs[i].at == cs[i].at
    ensures Place(bs, at) == Place(cs, at)
  {
    var p, q := Place(bs, at), Place(cs, at);
    if p < |bs| { assert cs[p].at == at; }
    if q < |cs| { assert bs[q].at == at; }
  }

  ghost predicate SameShape(bs: seq<Block>, cs: seq<Block>) {
    |bs| == |cs| && forall i :: 0 <= i < |bs| ==> bs[i].at == cs[i].at && bs[i].pages == cs[i].pages
  }

  lemma ShapeKeepsSound(bs: seq<Block>, cs: seq<Block>, slots: seq<Slot>)
    requires SameShape(bs, cs) && Sound(bs, slots)
    ensures Sound(cs, slots)
  {
    forall s | s in slots && s.block != 0 ensures Good(cs, s) {
      PlaceStable(bs, cs, s.block);
      assert Good(bs, s);
    }
  }

  /** Putting a well-formed block of the same address and page count at place i keeps the invariant. */
  lemma ReplaceKeeps(s: State, i: nat, b: Block)
    requires Inv(s) && i < |s.blocks| && b.at == s.blocks[i].at && b.pages == s.blocks[i].pages && Sized(b)
    ensures Inv(s.(blocks := s.blocks[i := b]))
  {
    var cs := s.blocks[i := b];
    PagesSplit(s.blocks, i, b);
    forall c | c in cs ensures c.at != 0 && Sized(c) {
      assert c == b || c in s.blocks;
      assert s.blocks[i] in s.blocks;
    }
    ShapeKeepsSound(s.blocks, cs, s.slots);
  }

  lemma ValidatedKeeps(s: State)
    requires s.free >= 0 && s.free + Pages(s.blocks) == s.total && s.count == |s.blocks|
    requires |s.slots| == 4 && Distinct(s.blocks) && Backed(s.blocks)
    ensures Inv(Validated(s))
  {
    SweepSound(s.blocks, s.slots);
  }

  lemma {:induction false} NextHandlePositive(bs: seq<Block>, h: nat)
    ensures NextHandle(bs, h) >= h
  {
    if bs != [] {
      NextHandlePositive(bs[1..], if bs[0].handle == h then h + 1 else h);
    }
  }

  lemma AllocateKeeps(s: State, pages: word, at: nat, fill: seq<byte>)
    requires Inv(s) && Supplied(s, Allocate(pages, at, fill))
    ensures Inv(Apply(s, Allocate(pages, at, fill)).state)
  {
    var bs := s.blocks;
    var b := Block(at, NextHandle(bs, 1), pages, Nothing, fill);
    NextHandlePositive(bs, 1);
    var r := Apply(s, Allocate(pages, at, fill));
    if r.status == OK {
      PagesOfConcat(bs, [b]);
      assert Pages([b]) == pages;
      assert Sized(b);
      AppendKeepsSound(bs, b, s.slots);
    }
  }

  /** An allocation succeeds if and only if it asks for at least one page and no more than are free, a
      handle up to 255 is found, and the host has memory. It then adds one block behind the others and
      takes its pages off the free ones; otherwise nothing changes. */
  lemma AllocateExact(s: State, pages: word, at: nat, fill: seq<byte>)
    requires Inv(s) && Supplied(s, Allocate(pages, at, fill))
    ensures var r, h := Apply(s, Allocate(pages, at, fill)), NextHandle(s.blocks, 1);
      if 0 < pages <= s.free && h <= 255 && at != 0 then
        && r.status == OK && r.state.blocks == s.blocks + [Block(at, h, pages, Nothing, fill)]
        && r.state.free == s.free - pages && r.state.slots == s.slots && r.state.low == s.low
      else
        r.status != OK && r.state == s
  {
    assert s.free <= s.total;
  }

  lemma AppendKeepsSound(bs: seq<Block>, b: Block, slots: seq<Slot>)
    requires Distinct(bs) && Sound(bs, slots) && b.at != 0 && Place(bs, b.at) == |bs|
    ensures Distinct(bs + [b]) && Sound(bs + [b], slots)
  {
    var cs := bs + [b];
    forall i, j | 0 <= i < j < |cs| ensures cs[i].at != cs[j].at {
    }
    forall s | s in slots && s.block != 0 ensures Good(cs, s) {
      assert Good(bs, s);
      var p := Place(bs, s.block);
      assert cs[p] == bs[p] && Place(cs, s.block) == p;
    }
  }

  lemma MapPageKeeps(s: State, physical: byte, logical: word, handle: word)
    requires Inv(s)
    ensures Inv(Apply(s, MapPage(physical, logical, handle)).state)
  {
    var bs, i := s.blocks, Find(s.blocks, handle);
    var r := Apply(s, MapPage(physical, logical, handle));
    if r.status == OK {
      assert r.state.blocks == bs;
      if logical != UNMAPPED {
        assert Place(bs, bs[i].at) == i;
      }
      forall t | t in r.state.slots && t.block != 0 ensures Good(bs, t) {
        assert t in s.slots || t == r.state.slots[physical];
      }
    }
  }

  lemma RemovalKeeps(bs: seq<Block>, i: nat)
    requires i < |bs| && Distinct(bs) && Backed(bs)
    ensures Distinct(bs[..i] + bs[i + 1..]) && Backed(bs[..i] + bs[i + 1..])
  {
    var cs := bs[..i] + bs[i + 1..];
    forall c | c in cs ensures c in bs {
    }
    forall j, k | 0 <= j < k < |cs| ensures cs[j].at != cs[k].at {
      assert cs[j] == bs[if j < i then j else j + 1] && cs[k] == bs[if k < i then k else k + 1];
    }
  }

  lemma ReleaseKeeps(s: State, handle: word)
    requires Inv(s)
    ensures Inv(Apply(s, Release(handle)).state)
  {
    var bs, i := s.blocks, Find(s.blocks, handle);
    if i < |bs| && !bs[i].saved.Map? {
      PagesSplit(bs, i, bs[i]);
      RemovalKeeps(bs, i);
      ValidatedKeeps(s.(free := s.free + bs[i].pages, blocks := bs[..i] + bs[i + 1..], count := s.count - 1));
    }
  }

  lemma SaveMapKeeps(s: State, handle: word)
    requires Inv(s)
    ensures Inv(Apply(s, SaveMap(handle)).state)
  {
    var bs, i := s.blocks, Find(s.blocks, handle);
    if i < |bs| && !bs[i].saved.Map? {
      ValidatedKeeps(s);
      assert Sized(bs[i]);
      ReplaceKeeps(Validated(s), i, bs[i].(saved := Map(Validated(s).slots)));
    }
  }

  lemma RestoreMapKeeps(s: State, handle: word)
    requires Inv(s)
    ensures Inv(Apply(s, RestoreMap(handle)).state)
  {
    var bs, i := s.blocks, Find(s.blocks, handle);
    if i < |bs| && bs[i].saved.Map? {
      assert Sized(bs[i]);
      ReplaceKeeps(s, i, bs[i].(saved := Nothing));
      ValidatedKeeps(s.(slots := bs[i].saved.slots, blocks := bs[i := bs[i].(saved := Nothing)]));
    }
  }

  lemma ReallocateKeeps(s: State, pages: word, handle: word, at: nat, fill: seq<byte>)
    requires Inv(s) && Supplied(s, Reallocate(pages, handle, at, fill))
    ensures Inv(Apply(s, Reallocate(pages, handle, at, fill)).state)
  {
    var bs, i := s.blocks, Find(s.blocks, handle);
    if i < |bs| && pages != bs[i].pages && pages <= s.total && pages <= s.free + bs[i].pages {
      var b := Resized(bs[i], pages, at, fill);
      var cs := bs[i := b];
      PagesSplit(bs, i, b);
      assert Sized(bs[i]) && Sized(b);
      forall c | c in cs ensures c == b || c in bs {
      }
      forall j, k | 0 <= j < k < |cs| ensures cs[j].at != cs[k].at {
        assert bs[j].at != bs[k].at;
      }
      ValidatedKeeps(s.(free := s.free + bs[i].pages - pages, blocks := cs));
    }
  }

  lemma PutKeeps(s: State, a: nat, v: byte)
    requires Inv(s) && Accessible(s, a)
    ensures Inv(Apply(s, Put(a, v)).state)
  {
    ResolveInside(s, a);
    var c := Resolve(s, a);
    if c.Byte? {
      var b := s.blocks[c.place];
      assert Sized(b);
      ReplaceKeeps(s, c.place, b.(memory := b.memory[c.offset := v]));
    }
  }

  lemma MoveKeeps(s: State, len: dword, from: End, to: End)
    requires Inv(s) && Supplied(s, Move(len, from, to))
    ensures Inv(Apply(s, Move(len, from, to)).state)
  {
    var i, j := Find(s.blocks, from.handle), Find(s.blocks, to.handle);
    if i < |s.blocks| && j < |s.blocks| && EndAccepted(s.blocks[i], from, len) && EndAccepted(s.blocks[j], to, len) {
      var b := s.blocks[j];
      assert Sized(b) && Sized(s.blocks[i]);
      var data := s.blocks[i].memory[Start(from)..Start(from) + len];
      ReplaceKeeps(s, j, b.(memory := Spliced(b.memory, Start(to), data)));
    }
  }

  /** Every request keeps the page account, the handle count and the soundness of the frame. */
  lemma ApplyKeeps(s: State, r: Request)
    requires Inv(s) && Supplied(s, r)
    ensures Inv(Apply(s, r).state)
  {
    match r
    case Allocate(pages, at, fill) => AllocateKeeps(s, pages, at, fill);
    case MapPage(physical, logical, handle) => MapPageKeeps(s, physical, logical, handle);
    case Release(handle) => ReleaseKeeps(s, handle);
    case SaveMap(handle) => SaveMapKeeps(s, handle);
    case RestoreMap(handle) => RestoreMapKeeps(s, handle);
    case SetMap(slots) => ValidatedKeeps(s.(slots := slots));
    case SetPartial(slots, chosen) => ValidatedKeeps(s.(slots := Chosen(s.slots, slots, chosen)));
    case Reallocate(pages, handle, at, fill) => ReallocateKeeps(s, pages, handle, at, fill);
    case Put(a, v) => PutKeeps(s, a, v);
    case Move(len, from, to) => MoveKeeps(s, len, from, to);
  }

  /** s' is reached from s by some run of requests. */
  ghost predicate Reaches(s: State, rs: seq<Request>, s': State)
    requires Inv(s)
    decreases |rs|
  {
    if rs == [] then s' == s else
      Supplied(s, rs[0]) && (ApplyKeeps(s, rs[0]); Reaches(Apply(s, rs[0]).state, rs[1..], s'))
  }

  /** In every reachable state each frame access lands inside memory, and the books balance. */
  lemma {:induction false} RunKeeps(s: State, rs: seq<Request>, s': State)
    requires Inv(s) && Reaches(s, rs, s')
    ensures Inv(s') && s'.total == s.total
    ensures s'.free + Pages(s'.blocks) == s'.total && s'.count == |s'.blocks|
    ensures forall a :: InFrame(a) ==> Inside(s', Resolve(s', a))
    decreases |rs|
  {
    if rs == [] {
      forall a | InFrame(a) ensures Inside(s', Resolve(s', a)) {
        ResolveInside(s', a);
      }
    } else {
      ApplyKeeps(s, rs[0]);
      RunKeeps(Apply(s, rs[0]).state, rs[1..], s');
    }
  }

  // ---- aliasing ----

  /** A byte stored through one address is read back at exactly the addresses that denote the same
      cell; every other address reads as before. */
  lemma StoreSeen(s: State, a: nat, v: byte, x: nat)
    requires Inv(s) && Accessible(s, a) && Accessible(s, x)
    ensures Inv(Apply(s, Put(a, v)).state)
    ensures Inside(s, Resolve(s, a)) && Inside(s, Resolve(s, x))
    ensures var t := Apply(s, Put(a, v)).state;
      Inside(t, Resolve(t, x)) &&
      Fetch(t, Resolve(t, x)) ==
        if Resolve(s, x) == Resolve(s, a) && Resolve(s, a) != Hole then v else Fetch(s, Resolve(s, x))
  {
    hide Sound, Pages, Backed, Distinct;
    ResolveInside(s, a);
    ResolveInside(s, x);
    PutKeeps(s, a, v);
    var t := Apply(s, Put(a, v)).state;
    ResolveInside(t, x);
    if InFrame(x) {
      PlaceStable(s.blocks, t.blocks, s.slots[(x - FRAME) / PAGE].block);
    }
  }

  /** Two frame addresses denote the same cell if and only if their slots show the same page of the
      same block and they have the same offset in it. */
  lemma AliasExact(s: State, a: nat, x: nat)
    requires Inv(s) && InFrame(a) && InFrame(x)
    requires Resolve(s, a) != Hole && Resolve(s, x) != Hole
    ensures Resolve(s, a) == Resolve(s, x) <==>
      s.slots[(a - FRAME) / PAGE] == s.slots[(x - FRAME) / PAGE] && (a - x) % PAGE == 0
  {
    var p, q := s.slots[(a - FRAME) / PAGE], s.slots[(x - FRAME) / PAGE];
    assert p in s.slots && q in s.slots;
    var i := Place(s.blocks, p.block);
    assert Good(s.blocks, p) && Good(s.blocks, q);
    assert p.block == q.block <==> Place(s.blocks, q.block) == i;
    OffsetUnique((a - FRAME) % PAGE, p.page, (x - FRAME) % PAGE, q.page);
    SameOffset(a - FRAME, x - FRAME);
  }

  lemma OffsetUnique(o: nat, p: nat, o': nat, p': nat)
    requires o < PAGE && o' < PAGE
    ensures o + PAGE * p == o' + PAGE * p' <==> o == o' && p == p'
  {
  }

  lemma SameOffset(a: nat, b: nat)
    ensures a % PAGE == b % PAGE <==> (a - b) % PAGE == 0
  {
  }

  /** A mapped page is what the frame then shows in that slot, byte for byte; the other slots show
      what they showed. */
  lemma MapShows(s: State, physical: byte, logical: word, handle: word, o: nat, a: nat)
    requires Inv(s) && o < PAGE && logical != UNMAPPED && Apply(s, MapPage(physical, logical, handle)).status == OK
    ensures var r, i := Apply(s, MapPage(physical, logical, handle)).state, Find(s.blocks, handle);
      && physical < 4 && i < |s.blocks| && Inv(r) && logical * PAGE + o < |s.blocks[i].memory|
      && Resolve(r, FRAME + physical * PAGE + o) == Byte(i, logical * PAGE + o)
      && (!InFrame(a) || (a - FRAME) / PAGE != physical ==> Resolve(r, a) == Resolve(s, a))
  {
    MapPageKeeps(s, physical, logical, handle);
    var r, i := Apply(s, MapPage(physical, logical, handle)).state, Find(s.blocks, handle);
    var x := FRAME + physical * PAGE + o;
    QuotientUnique(x - FRAME, PAGE, physical, o);
    assert Place(s.blocks, s.blocks[i].at) == i;
    assert Sized(s.blocks[i]) && r.slots[physical] == Slot(s.blocks[i].at, logical);
    PageInside(o, logical, s.blocks[i].pages);
  }

  /** A slot mapped to FFFFh shows nothing: it reads as FFh all over, and the other slots show what they
      showed. */
  lemma UnmapHides(s: State, physical: byte, handle: word, o: nat, a: nat)
    requires Inv(s) && o < PAGE && Apply(s, MapPage(physical, UNMAPPED, handle)).status == OK
    ensures var r := Apply(s, MapPage(physical, UNMAPPED, handle)).state;
      && physical < 4 && Inv(r)
      && Resolve(r, FRAME + physical * PAGE + o) == Hole && Fetch(r, Resolve(r, FRAME + physical * PAGE + o)) == 0xff
      && (!InFrame(a) || (a - FRAME) / PAGE != physical ==> Resolve(r, a) == Resolve(s, a))
  {
    MapPageKeeps(s, physical, UNMAPPED, handle);
    QuotientUnique(physical * PAGE + o, PAGE, physical, o);
  }

  /** Mapping succeeds if and only if the slot is one of four and the page is FFFFh or one of the first
      block with the handle; otherwise nothing changes. */
  lemma MapSucceeds(s: State, physical: byte, logical: word, handle: word)
    requires Inv(s)
    ensures var r := Apply(s, MapPage(physical, logical, handle));
      && (r.status == OK <==>
          && physical < 4
          && exists b :: b in s.blocks && b.handle == handle && Place(s.blocks, b.at) == Find(s.blocks, handle)
                         && (logical == 0xFFFF || logical < b.pages))
      && (r.status != OK ==> r.state == s)
  {
    var i := Find(s.blocks, handle);
    if i < |s.blocks| {
      assert s.blocks[i] in s.blocks && Place(s.blocks, s.blocks[i].at) == i;
    }
  }

  /** Taking over part of a map: each slot is the given one where it was chosen and the present one
      elsewhere, if it passes the validator, and unmapped otherwise. Nothing but the slots changes. */
  lemma PartialExact(s: State, given: seq<Slot>, chosen: set<nat>, taken: seq<Slot>, i: nat)
    requires Inv(s) && |given| == |taken| == 4 && i < 4
    requires forall k :: 0 <= k < 4 ==> taken[k] == if k in chosen then given[k] else s.slots[k]
    ensures var r := Apply(s, SetPartial(given, chosen));
      && r.status == OK && |r.state.slots| == 4 && r.state == s.(slots := r.state.slots)
      && r.state.slots[i] ==
           if Ordered(s.blocks, taken, i) && Good(s.blocks, taken[i]) then taken[i] else taken[i].(block := 0)
  {
    assert Chosen(s.slots, given, chosen) == taken;
    SweepExact(s.blocks, taken, i);
  }

  /** After a release no slot shows the block any more, and every other block is untouched. */
  lemma ReleaseUnmaps(s: State, handle: word)
    requires Inv(s) && Apply(s, Release(handle)).status == OK
    ensures var r, b := Apply(s, Release(handle)).state, s.blocks[Find(s.blocks, handle)];
      && (forall t :: t in r.slots ==> t.block != b.at)
      && b !in r.blocks && (forall c :: c in s.blocks && c != b ==> c in r.blocks)
      && r.free == s.free + b.pages
  {
    hide Sweep, Pages, Backed;
    ReleaseKeeps(s, handle);
    var i, r := Find(s.blocks, handle), Apply(s, Release(handle)).state;
    var b := s.blocks[i];
    assert b in s.blocks;
    Removed(s.blocks, i);
    assert forall t :: t in r.slots && t.block == b.at ==> !Good(r.blocks, t);
    forall c | c in s.blocks && c != b ensures c in r.blocks {
      var k :| 0 <= k < |s.blocks| && s.blocks[k] == c;
      assert r.blocks[if k < i then k else k - 1] == c;
    }
  }

  lemma Removed(bs: seq<Block>, i: nat)
    requires i < |bs| && Distinct(bs)
    ensures var cs := bs[..i] + bs[i + 1..]; Place(cs, bs[i].at) == |cs|
  {
    var cs := bs[..i] + bs[i + 1..];
    forall k | 0 <= k < |cs| ensures cs[k].at != bs[i].at {
      assert cs[k] == bs[if k < i then k else k + 1];
    }
  }

  /** A reallocated block keeps its handle, its saved map and the bytes that fit; others keep all. */
  lemma ReallocateKeepsBytes(s: State, pages: word, handle: word, at: nat, fill: seq<byte>, k: nat, o: nat)
    requires Inv(s) && Supplied(s, Reallocate(pages, handle, at, fill))
    requires Apply(s, Reallocate(pages, handle, at, fill)).status == OK
    requires k < |s.blocks| && o < |s.blocks[k].memory|
    ensures var r, i := Apply(s, Reallocate(pages, handle, at, fill)).state, Find(s.blocks, handle);
      && |r.blocks| == |s.blocks| && i < |s.blocks| && r.blocks[i].pages == pages
      && r.blocks[k].handle == s.blocks[k].handle && r.blocks[k].saved == s.blocks[k].saved
      && (k != i || o < pages * PAGE ==> o < |r.blocks[k].memory| && r.blocks[k].memory[o] == s.blocks[k].memory[o])
  {
    assert Sized(s.blocks[k]);
  }

  // ---- saving and restoring a mapping ----

  /** Requests that leave the saved mapping of every handle and the block list alone. */
  predicate Remapping(r: Request) {
    r.MapPage? || r.SetMap? || r.SetPartial? || r.Put? || r.Move?
  }

  ghost predicate SameSaves(bs: seq<Block>, cs: seq<Block>) {
    |bs| == |cs| && forall i :: 0 <= i < |bs| ==>
      bs[i].at == cs[i].at && bs[i].pages == cs[i].pages && bs[i].handle == cs[i].handle && bs[i].saved == cs[i].saved
  }

  lemma RemappingStep(s: State, r: Request)
    requires Inv(s) && Supplied(s, r) && Remapping(r)
    ensures SameSaves(s.blocks, Apply(s, r).state.blocks)
  {
    hide Sweep;
  }

  lemma {:induction false} RemappingRun(s: State, rs: seq<Request>, s': State)
    requires Inv(s) && Reaches(s, rs, s') && forall r :: r in rs ==> Remapping(r)
    ensures SameSaves(s.blocks, s'.blocks)
    decreases |rs|
  {
    if rs != [] {
      ApplyKeeps(s, rs[0]);
      var t := Apply(s, rs[0]).state;
      RemappingStep(s, rs[0]);
      RemappingRun(t, rs[1..], s');
    }
  }

  lemma {:induction false} FindStable(bs: seq<Block>, cs: seq<Block>, handle: nat)
    requires SameSaves(bs, cs)
    ensures Find(bs, handle) == Find(cs, handle)
  {
    var p, q := Find(bs, handle), Find(cs, handle);
    if p < |bs| { assert cs[p].handle == handle; }
    if q < |cs| { assert bs[q].handle == handle; }
  }

  /** Validating a second time changes nothing exactly when each mapped slot is in list order. */
  lemma SweepFixed(bs: seq<Block>, slots: seq<Slot>)
    requires Distinct(bs) && Sound(bs, slots)
    ensures Sweep(bs, slots) == slots <==> forall i :: 0 <= i < |slots| && slots[i].block != 0 ==> Ordered(bs, slots, i)
  {
    forall i | 0 <= i < |slots|
      ensures Sweep(bs, slots)[i] == slots[i] <==> (slots[i].block != 0 ==> Ordered(bs, slots, i))
    {
      SweepExact(bs, slots, i);
      assert slots[i] in slots;
    }
  }

  lemma Saving(s: State, handle: word)
    requires Inv(s) && Apply(s, SaveMap(handle)).status == OK
    ensures var saved := Apply(s, SaveMap(handle)).state;
      var i := Find(saved.blocks, handle);
      Inv(saved) && i < |saved.blocks| && saved.blocks[i].saved == Map(saved.slots)
  {
    ApplyKeeps(s, SaveMap(handle));
    var saved := Apply(s, SaveMap(handle)).state;
    assert forall j :: 0 <= j < |s.blocks| ==> saved.blocks[j].handle == s.blocks[j].handle;
    assert saved.blocks[Find(s.blocks, handle)].handle == handle;
  }

  /** Restoring, whatever the frame shows by now, validates the saved mapping. */
  lemma Restoring(saved: State, handle: word, t: State)
    requires Inv(saved) && Inv(t) && SameSaves(saved.blocks, t.blocks)
    requires var i := Find(saved.blocks, handle); i < |saved.blocks| && saved.blocks[i].saved == Map(saved.slots)
    ensures Apply(t, RestoreMap(handle)).status == OK
    ensures Apply(t, RestoreMap(handle)).state.slots == Sweep(saved.blocks, saved.slots)
  {
    FindStable(saved.blocks, t.blocks, handle);
    var i := Find(t.blocks, handle);
    SameSweep(t.blocks[i := t.blocks[i].(saved := Nothing)], saved.blocks, saved.slots);
  }

  /** Saving a mapping, remapping at will, and restoring brings back the saved mapping if and only if
      it was in list order: each mapped slot preceded only by slots mapped to blocks not after its own. */
  lemma SaveRestore(s: State, saved: State, handle: word, rs: seq<Request>, t: State)
    requires Inv(s) && Apply(s, SaveMap(handle)) == Reply(saved, OK)
    requires Inv(saved) && Reaches(saved, rs, t) && forall r :: r in rs ==> Remapping(r)
    ensures Inv(t) && Apply(t, RestoreMap(handle)).status == OK
    ensures Apply(t, RestoreMap(handle)).state.slots == saved.slots <==>
      forall i :: 0 <= i < 4 && saved.slots[i].block != 0 ==> Ordered(saved.blocks, saved.slots, i)
  {
    Saving(s, handle);
    RunKeeps(saved, rs, t);
    RemappingRun(saved, rs, t);
    Restoring(saved, handle, t);
    SweepFixed(saved.blocks, saved.slots);
  }

  lemma {:induction false} SameSweep(bs: seq<Block>, cs: seq<Block>, slots: seq<Slot>)
    requires SameShape(bs, cs)
    ensures Sweep(bs, slots) == Sweep(cs, slots)
    decreases |slots|
  {
    if slots != [] {
      PlaceStable(bs, cs, slots[0].block);
      SkipPlace(bs, slots[0].block);
      SkipPlace(cs, slots[0].block);
      SameSweep(Skip(bs, slots[0].block), Skip(cs, slots[0].block), slots[1..]);
    }
  }

  // ---- handles ----

  ghost predicate InUse(bs: seq<Block>, handle: nat) {
    Find(bs, handle) < |bs|
  }

  ghost predicate InUseUpTo(bs: seq<Block>, handle: nat) {
    forall k :: 1 <= k <= handle ==> InUse(bs, k)
  }

  /** At the rising places p the list holds the handles h, h + 1, ... */
  ghost predicate Climbs(bs: seq<Block>, p: seq<nat>, h: nat) {
    && (forall k :: 0 <= k < |p| ==> p[k] < |bs| && bs[p[k]].handle == h + k)
    && forall k, l :: 0 <= k < l < |p| ==> p[k] < p[l]
  }

  /** The handles 1 to h stand in the list in their order, at some of their places. */
  ghost predicate InOrder(bs: seq<Block>, h: nat) {
    exists p: seq<nat> :: |p| == h && Climbs(bs, p, 1)
  }

  /** The places at which the search from h steps on. */
  lemma {:induction false} StepsClimb(bs: seq<Block>, h: nat) returns (p: seq<nat>)
    ensures NextHandle(bs, h) == h + |p| && Climbs(bs, p, h)
  {
    if bs == [] {
      p := [];
    } else if bs[0].handle == h {
      var q := StepsClimb(bs[1..], h + 1);
      p := [0] + seq(|q|, i requires 0 <= i < |q| => q[i] + 1);
    } else {
      var q := StepsClimb(bs[1..], h);
      p := seq(|q|, i requires 0 <= i < |q| => q[i] + 1);
    }
  }

  /** The search gets past every climb from h. */
  lemma {:induction false} PastClimb(bs: seq<Block>, p: seq<nat>, h: nat)
    requires Climbs(bs, p, h)
    ensures NextHandle(bs, h) >= h + |p|
  {
    if p == [] {
      NextHandlePositive(bs, h);
    } else {
      assert p[0] < |bs| && bs[p[0]].handle == h;
      var rest := if bs[0].handle == h then p[1..] else p;
      forall i | 0 <= i < |rest| ensures 1 <= rest[i] {
        assert p[0] < p[i] || i == 0;
        if bs[0].handle == h { assert p[0] < p[i + 1]; }
      }
      PastClimb(bs[1..], Lowered(rest), if bs[0].handle == h then h + 1 else h);
    }
  }

  /** The places as seen from the second block on. */
  function Lowered(p: seq<nat>): (q: seq<nat>)
    requires forall i :: 0 <= i < |p| ==> 1 <= p[i]
    ensures |q| == |p|
  {
    seq(|p|, i requires 0 <= i < |p| => p[i] - 1)
  }

  lemma ClimbInUse(bs: seq<Block>, p: seq<nat>, k: nat)
    requires Climbs(bs, p, 1) && 1 <= k <= |p|
    ensures InUse(bs, k)
  {
    assert bs[p[k - 1]].handle == k;
  }

  /** On any list of blocks the handle the board gives out is not in use if and only if every gapless
      run of handles in use from 1 stands in the list in its order. */
  lemma HandleExact(bs: seq<Block>)
    ensures !InUse(bs, NextHandle(bs, 1)) <==> forall h: nat :: InUseUpTo(bs, h) ==> InOrder(bs, h)
  {
    var n := NextHandle(bs, 1);
    var p := StepsClimb(bs, 1);
    if InUse(bs, n) {
      forall k | 1 <= k <= n ensures InUse(bs, k) {
        if k < n {
          ClimbInUse(bs, p, k);
        }
      }
      assert InUseUpTo(bs, n);
      if q: seq<nat> :| |q| == n && Climbs(bs, q, 1) {
        PastClimb(bs, q, 1);
        assert false;
      }
      assert !InOrder(bs, n);
    } else {
      forall h: nat | InUseUpTo(bs, h) ensures InOrder(bs, h) {
        assert h < n;
        assert Climbs(bs, p[..h], 1);
      }
    }
  }

  // ---- moves ----

  /** The page-granular check, made modulo 4 GB, is exact if and only if the sum does not wrap and the
      end of the move is on a page boundary or on a page the block has. */
  lemma MoveRangeExact(b: Block, e: End, len: dword)
    requires EndAccepted(b, e, len) && b.pages <= 0xFFFF
    ensures EndInside(b, e, len) <==>
      var n := e.offset + len;
      n < 0x1_0000_0000 && (n % PAGE == 0 || e.page + n / PAGE < b.pages)
  {
    var n := e.offset + len;
    assert n == n / PAGE * PAGE + n % PAGE;
    if n < 0x1_0000_0000 {
      assert n % 0x1_0000_0000 == n;
    }
  }

  /** Two moves every block accepts although they leave it: one byte just past its pages, and 4 GB
      less a byte from offset 1. */
  lemma MoveLeavesBlock(b: Block, handle: word)
    requires b.pages <= 0xFFFF
    ensures EndAccepted(b, End(handle, 0, b.pages), 1) && !EndInside(b, End(handle, 0, b.pages), 1)
    ensures EndAccepted(b, End(handle, 1, 0), 0xFFFF_FFFF) && !EndInside(b, End(handle, 1, 0), 0xFFFF_FFFF)
  {
    assert (0 + 1) % 0x1_0000_0000 / PAGE == 0;
    assert (1 + 0xFFFF_FFFF) % 0x1_0000_0000 / PAGE == 0;
  }

  predicate Within(x: nat, start: nat, len: nat) {
    start <= x < start + len
  }

  /** A move makes the destination the original source, even when the two overlap, and touches no
      other byte of any block. */
  lemma MoveMeaning(s: State, len: dword, from: End, to: End, k: nat, o: nat)
    requires Inv(s) && Supplied(s, Move(len, from, to))
    requires Apply(s, Move(len, from, to)).status in {OK, OVERLAPPED}
    requires k < |s.blocks| && o < |s.blocks[k].memory|
    ensures var r, i, j := Apply(s, Move(len, from, to)), Find(s.blocks, from.handle), Find(s.blocks, to.handle);
      && |r.state.blocks| == |s.blocks| && i < |s.blocks| && j < |s.blocks|
      && |r.state.blocks[k].memory| == |s.blocks[k].memory|
      && (k == j && Start(to) <= o < Start(to) + len ==>
            0 <= Start(from) + (o - Start(to)) < |s.blocks[i].memory| &&
            r.state.blocks[k].memory[o] == s.blocks[i].memory[Start(from) + (o - Start(to))])
      && (!(k == j && Start(to) <= o < Start(to) + len) ==> r.state.blocks[k].memory[o] == s.blocks[k].memory[o])
  {
    var i, j := Find(s.blocks, from.handle), Find(s.blocks, to.handle);
    assert Sized(s.blocks[i]) && Sized(s.blocks[j]);
  }

  /** The overlap status means that the two ranges share bytes but differ. */
  lemma MoveStatus(s: State, len: dword, from: End, to: End)
    requires Inv(s) && Supplied(s, Move(len, from, to))
    requires Apply(s, Move(len, from, to)).status in {OK, OVERLAPPED}
    ensures Apply(s, Move(len, from, to)).status == OVERLAPPED <==>
      && Find(s.blocks, from.handle) == Find(s.blocks, to.handle) && Start(from) != Start(to)
      && exists x :: Within(x, Start(from), len) && Within(x, Start(to), len)
  {
    var f, t := Start(from), Start(to);
    if Overlap(len, f, t) {
      var x := if f < t then t else f;
      assert Within(x, f, len) && Within(x, t, len);
    }
  }
}
