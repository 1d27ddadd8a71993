/** What the memory services leave free: which blocks are merged, and which later requests are granted. */
module McbMerge {
  import opened Words
  import opened McbChain
  import opened McbRuns

  /** An allocation of n paragraphs can be granted. */
  ghost predicate Grants(bs: seq<Block>, n: nat) {
    exists j :: 0 <= j < |bs| && Fits(bs[j], n)
  }

  lemma GrantsConcat(a: seq<Block>, b: seq<Block>, n: nat)
    ensures Grants(a + b, n) <==> Grants(a, n) || Grants(b, n)
  {
    if Grants(a, n) {
      var j :| 0 <= j < |a| && Fits(a[j], n);
      assert (a + b)[j] == a[j];
    } else if Grants(b, n) {
      var j :| 0 <= j < |b| && Fits(b[j], n);
      assert (a + b)[|a| + j] == b[j];
    }
  }

  lemma GrantsOne(b: Block, n: nat)
    ensures Grants([b], n) <==> Fits(b, n)
  {
    assert [b][0] == b;
  }

  lemma GrantsAround(bs: seq<Block>, i: nat, n: nat)
    requires i < |bs|
    ensures Grants(bs, n) <==> Grants(bs[..i], n) || Fits(bs[i], n) || Grants(bs[i + 1..], n)
  {
    assert bs == bs[..i] + ([bs[i]] + bs[i + 1..]);
    GrantsConcat(bs[..i], [bs[i]] + bs[i + 1..], n);
    GrantsConcat([bs[i]], bs[i + 1..], n);
    GrantsOne(bs[i], n);
  }

  /** Of a leading free run no single block holds more than the run; the rest starts with a used block. */
  lemma {:induction false} RunCovers(bs: seq<Block>, n: nat)
    ensures Grants(DropFree(bs), n) ==> Grants(bs, n)
    ensures Grants(bs, n) ==> Grants(DropFree(bs), n) || n < FreeRun(bs)
  {
    if bs != [] && bs[0].owner == 0 {
      RunCovers(bs[1..], n);
      GrantsAround(bs, 0, n);
      assert bs[..0] == [];
    }
  }

  /** After an allocation, what the chosen block has left over serves requests up to the slack less one
      header, and every other block serves what it served. */
  lemma AllocGrants(bs: seq<Block>, i: nat, owner: nat, size: nat, st: nat, n: nat)
    requires i < |bs| && Fits(bs[i], size) && owner != 0
    ensures Grants(AllocAt(bs, i, owner, size, st), n)
       <==> n < bs[i].size - size || Grants(bs[..i], n) || Grants(bs[i + 1..], n)
  {
    var mid := AllocMid(bs[i], owner, size, st);
    GrantsConcat(bs[..i] + mid, bs[i + 1..], n);
    GrantsConcat(bs[..i], mid, n);
    if |mid| == 1 {
      GrantsOne(mid[0], n);
    } else {
      GrantsConcat([mid[0]], [mid[1]], n);
      assert mid == [mid[0]] + [mid[1]];
      GrantsOne(mid[0], n);
      GrantsOne(mid[1], n);
    }
  }

  /** After a free, a request is granted if and only if it was before or the block and the free run
      behind it hold it as one. */
  lemma FreeGrants(bs: seq<Block>, i: nat, n: nat)
    requires i < |bs|
    ensures Grants(FreeAt(bs, i), n) <==> n <= Reach(bs, i) || Grants(bs, n)
  {
    var tail, merged := bs[i + 1..], Block(0, Reach(bs, i));
    assert ([Block(0, bs[i].size)] + tail)[1..] == tail;
    assert FreeAt(bs, i) == bs[..i] + ([merged] + DropFree(tail));
    GrantsConcat(bs[..i], [merged] + DropFree(tail), n);
    GrantsConcat([merged], DropFree(tail), n);
    GrantsOne(merged, n);
    GrantsAround(bs, i, n);
    RunCovers(tail, n);
  }

  /** After a used block is resized, a request is granted if and only if it fits what the block and the
      free run behind it do not need, as one, or a block elsewhere serves it. */
  lemma ResizeGrants(bs: seq<Block>, i: nat, size: nat, n: nat)
    requires i < |bs| && bs[i].owner != 0 && size != bs[i].size
    ensures Grants(ResizeAt(bs, i, size), n)
       <==> n < Reach(bs, i) - size || Grants(bs[..i], n) || Grants(DropFree(bs[i + 1..]), n)
  {
    var tail, reach := bs[i + 1..], Reach(bs, i);
    assert bs[i..][1..] == tail;
    if reach > size {
      var used, rest := Block(bs[i].owner, size), Block(0, reach - size - 1);
      assert ResizeAt(bs, i, size) == bs[..i] + ([used] + ([rest] + DropFree(tail)));
      GrantsConcat(bs[..i], [used] + ([rest] + DropFree(tail)), n);
      GrantsConcat([used], [rest] + DropFree(tail), n);
      GrantsConcat([rest], DropFree(tail), n);
      GrantsOne(used, n);
      GrantsOne(rest, n);
    } else {
      var used := Block(bs[i].owner, reach);
      assert ResizeAt(bs, i, size) == bs[..i] + ([used] + DropFree(tail));
      GrantsConcat(bs[..i], [used] + DropFree(tail), n);
      GrantsConcat([used], DropFree(tail), n);
      GrantsOne(used, n);
    }
  }

  /** What block j comes to when all blocks of the owner are freed. */
  function Yield(bs: seq<Block>, j: nat, owner: nat): nat
    requires j < |bs|
  {
    if bs[j].owner == owner then Reach(bs, j) else bs[j].size
  }

  ghost predicate Yields(bs: seq<Block>, owner: nat, n: nat) {
    exists j :: 0 <= j < |bs| && bs[j].owner in {0, owner} && n <= Yield(bs, j, owner)
  }

  lemma YieldsHead(bs: seq<Block>, owner: nat, n: nat)
    requires bs != []
    ensures Yields(bs, owner, n) <==> (bs[0].owner in {0, owner} && n <= Yield(bs, 0, owner)) || Yields(bs[1..], owner, n)
  {
    forall j | 0 < j < |bs| ensures Yield(bs, j, owner) == Yield(bs[1..], j - 1, owner) {
      assert bs[j + 1..] == bs[1..][j - 1 + 1..];
    }
    if Yields(bs[1..], owner, n) {
      var j :| 0 <= j < |bs[1..]| && bs[1..][j].owner in {0, owner} && n <= Yield(bs[1..], j, owner);
      assert bs[j + 1] == bs[1..][j] && n <= Yield(bs, j + 1, owner);
    }
    if Yields(bs, owner, n) {
      var j :| 0 <= j < |bs| && bs[j].owner in {0, owner} && n <= Yield(bs, j, owner);
      assert j > 0 ==> bs[1..][j - 1] == bs[j] && n <= Yield(bs[1..], j - 1, owner);
    }
  }

  lemma {:induction false} RunYields(bs: seq<Block>, owner: nat, n: nat)
    ensures Yields(DropFree(bs), owner, n) ==> Yields(bs, owner, n)
    ensures Yields(bs, owner, n) ==> Yields(DropFree(bs), owner, n) || n < FreeRun(bs)
  {
    if bs != [] && bs[0].owner == 0 {
      RunYields(bs[1..], owner, n);
      YieldsHead(bs, owner, n);
    }
  }

  /** After the bulk free, a request is granted if and only if a block that was free holds it, or a block
      of the owner together with the free run behind it does. */
  lemma {:induction false} FreeOwnedGrants(bs: seq<Block>, owner: nat, n: nat)
    ensures Grants(FreeOwned(bs, owner), n) <==> Yields(bs, owner, n)
    decreases |bs|
  {
    if bs != [] {
      var tail := bs[1..];
      var r := FreeOwned(bs, owner);
      GrantsAround(r, 0, n);
      assert r[..0] == [] && r[0 + 1..] == r[1..];
      YieldsHead(bs, owner, n);
      if bs[0].owner != owner {
        FreeOwnedGrants(tail, owner, n);
        assert r[1..] == FreeOwned(tail, owner);
      } else {
        FreeRunSplit(tail);
        FreeOwnedGrants(DropFree(tail), owner, n);
        assert r[1..] == FreeOwned(DropFree(tail), owner);
        RunYields(tail, owner, n);
      }
    }
  }

  // ---- no free block is left behind a merge ----

  /** Block j is not followed by a free one. */
  predicate Merged(bs: seq<Block>, j: nat) {
    j + 1 < |bs| ==> bs[j + 1].owner != 0
  }

  lemma FreeMerges(bs: seq<Block>, i: nat)
    requires i < |bs|
    ensures var r := FreeAt(bs, i);
      i < |r| && r[..i] == bs[..i] && r[i] == Block(0, Reach(bs, i)) && Merged(r, i)
  {
    FreeRunSplit(bs[i + 1..]);
    assert ([Block(0, bs[i].size)] + bs[i + 1..])[1..] == bs[i + 1..];
  }

  /** Behind a block that was resized stands one free block at most. */
  lemma ResizeMerges(bs: seq<Block>, i: nat, size: nat)
    requires i < |bs| && size != bs[i].size
    ensures var r := ResizeAt(bs, i, size);
      && i < |r| && r[..i] == bs[..i] && r[i] == Block(bs[i].owner, Min(size, Reach(bs, i)))
      && (Merged(r, i) || Merged(r, i + 1))
      && (size < Reach(bs, i) ==> i + 1 < |r| && r[i + 1] == Block(0, Reach(bs, i) - size - 1))
  {
    FreeRunSplit(bs[i + 1..]);
    assert bs[i..][1..] == bs[i + 1..];
  }

  /** At a stands a block of the owner. */
  ghost predicate Owned(bs: seq<Block>, p: nat, owner: nat, a: nat) {
    a in Live(bs, p) && Live(bs, p)[a].owner == owner
  }

  lemma OwnedTail(bs: seq<Block>, p: nat, owner: nat, a: nat)
    requires bs != [] && owner != 0
    ensures Owned(bs, p, owner, p) <==> bs[0].owner == owner
    ensures a > p ==> (Owned(bs, p, owner, a) <==> Owned(bs[1..], p + 1 + bs[0].size, owner, a))
  {
    var rest := Live(bs[1..], p + 1 + bs[0].size);
    LiveBounds(bs[1..], p + 1 + bs[0].size);
    assert p !in rest && Live(bs, p) == if bs[0].owner == 0 then rest else rest[p := bs[0]];
  }

  lemma SpanHead(r: seq<Block>, j: nat)
    requires 0 < j <= |r|
    ensures Span(r[..j]) == 1 + r[0].size + Span(r[1..][..j - 1])
  {
    assert r[..j][1..] == r[1..][..j - 1];
  }

  /** The blocks behind the first one where the bulk free goes on, and their address. */
  ghost function Onward(bs: seq<Block>, p: nat, owner: nat): (r: (seq<Block>, nat))
    requires bs != []
    ensures |r.0| < |bs| && FreeOwned(bs, owner)[1..] == FreeOwned(r.0, owner)
    ensures Live(r.0, r.1) == Live(bs[1..], p + 1 + bs[0].size)
    ensures r.1 == p + 1 + FreeOwned(bs, owner)[0].size
    ensures bs[0].owner == owner ==> r.0 == [] || r.0[0].owner != 0
  {
    if bs[0].owner == owner then
      FreeRunSplit(bs[1..]);
      LiveDropFree(bs[1..], p + 1 + bs[0].size);
      (DropFree(bs[1..]), p + 1 + bs[0].size + FreeRun(bs[1..]))
    else
      (bs[1..], p + 1 + bs[0].size)
  }

  lemma FirstMerges(bs: seq<Block>, p: nat, owner: nat)
    requires |FreeOwned(bs, owner)| > 1
    ensures var r := FreeOwned(bs, owner);
      if owner == 0 then r[0].owner == 0 ==> Merged(r, 0)
      else Owned(bs, p, owner, p) && !Merged(r, 0) ==> Owned(bs, p, owner, p + 1 + r[0].size)
  {
    var r := FreeOwned(bs, owner);
    var (rest, at) := Onward(bs, p, owner);
    assert r[1] == FreeOwned(rest, owner)[0];
    if owner != 0 {
      OwnedTail(bs, p, owner, p);
      OwnedTail(bs, p, owner, at);
      OwnedTail(rest, at, owner, at);
    }
  }

  /** A block that the bulk free releases is not followed by a free block, except one that it released
      as well; freeing owner 0 leaves no two free neighbours anywhere. */
  lemma {:induction false} FreeOwnedMerges(bs: seq<Block>, p: nat, owner: nat, j: nat)
    requires j + 1 < |FreeOwned(bs, owner)|
    ensures var r := FreeOwned(bs, owner);
      var a := p + Span(r[..j]);
      if owner == 0 then r[j].owner == 0 ==> Merged(r, j)
      else Owned(bs, p, owner, a) && !Merged(r, j) ==> Owned(bs, p, owner, a + 1 + r[j].size)
    decreases |bs|
  {
    assert bs != [];
    hide FreeOwned, Live;
    if j == 0 {
      FirstMerges(bs, p, owner);
    } else {
      var r := FreeOwned(bs, owner);
      var (rest, at) := Onward(bs, p, owner);
      SpanHead(r, j);
      FreeOwnedMerges(rest, at, owner, j - 1);
      if owner != 0 {
        OwnedTail(bs, p, owner, p + Span(r[..j]));
        OwnedTail(bs, p, owner, p + Span(r[..j]) + 1 + r[j].size);
      }
    }
  }

  // ---- as steps of a run ----

  /** An allocation is granted exactly when a free block holds it, and then it gives out the whole request. */
  lemma AllocServes(s: State, n: nat, owner: nat, st: nat, s': State)
    requires Inv(s) && Step(s, Alloc(n, owner, st), s') && owner != 0
    ensures if Grants(s.blocks, n)
            then exists a: nat :: a !in Live(s.blocks, s.p) && Live(s'.blocks, s.p) == Live(s.blocks, s.p)[a := Block(owner, n)]
            else Live(s'.blocks, s.p) == Live(s.blocks, s.p)
  {
    hide Live, Inv;
    if Grants(s.blocks, n) {
      var i: nat :| Chosen(s.blocks, n, st, i) && s'.blocks == AllocAt(s.blocks, i, owner, n, st);
      AllocLive(s.blocks, s.p, i, owner, n, st);
    }
  }

  /** What a shrunk block gives up can be allocated at once: the difference less the new header, at least. */
  lemma ShrinkServes(s: State, mcb: nat, size: nat, s1: State, n: nat, owner: nat, st: nat, s2: State)
    requires Inv(s) && Step(s, Resize(mcb, size), s1) && Step(s1, Alloc(n, owner, st), s2) && owner != 0
    requires mcb in Live(s.blocks, s.p) && n < Live(s.blocks, s.p)[mcb].size - size
    ensures exists a: nat :: a !in Live(s1.blocks, s.p) && Live(s2.blocks, s.p) == Live(s1.blocks, s.p)[a := Block(owner, n)]
  {
    hide Live, Inv;
    var i: nat :| IsAt(s, mcb, i) && s1.blocks == ResizeAt(s.blocks, i, size);
    LiveKey(s.blocks, s.p, i);
    ResizeGrants(s.blocks, i, size, n);
    AllocServes(s1, n, owner, st, s2);
  }
}
