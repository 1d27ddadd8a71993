/** The chain of memory control blocks as an abstract list, and what each DOS memory
    service does to that list. Sizes and addresses count 16-byte paragraphs. */
module McbChain {
  import opened Words

  const MORE: byte := 'M' as int
  const LAST: byte := 'Z' as int

  /** Owner 0 marks a free block; size excludes the one-paragraph header. */
  datatype Block = Block(owner: nat, size: nat)

  /** Paragraphs covered by a run of blocks, headers included. */
  function Span(bs: seq<Block>): nat {
    if bs == [] then 0 else 1 + bs[0].size + Span(bs[1..])
  }

  lemma {:induction false} SpanConcat(a: seq<Block>, b: seq<Block>)
    ensures Span(a + b) == Span(a) + Span(b)
  {
    if a == [] {
      assert a + b == b;
    } else {
      assert (a + b)[1..] == a[1..] + b;
      SpanConcat(a[1..], b);
    }
  }

  /** Header bytes at paragraph p describe block b. */
  ghost predicate Header(m: seq<byte>, p: nat, b: Block, last: bool)
    requires 16 * p + 5 <= |m|
  {
    && m[16 * p] == (if last then LAST else MORE)
    && Get16(m, 16 * p + 1) == b.owner
    && Get16(m, 16 * p + 3) == b.size
  }

  /** The five bytes: 'M' or 'Z', then owner and size, low byte first. */
  lemma HeaderBytes(m: seq<byte>, p: nat, b: Block, last: bool)
    requires 16 * p + 5 <= |m| && b.owner < 0x1_0000 && b.size < 0x1_0000
    ensures Header(m, p, b, last)
       <==> m[16 * p..16 * p + 5] == [if last then 0x5A else 0x4D, b.owner % 0x100, b.owner / 0x100, b.size % 0x100, b.size / 0x100]
  {
    var s, a := m[16 * p..16 * p + 5], 16 * p;
    assert s[0] == m[a] && s[1] == m[a + 1] && s[2] == m[a + 2] && s[3] == m[a + 3] && s[4] == m[a + 4];
  }

  /** The memory image holds blocks bs back to back from paragraph p up to exactly q; the
      only 'Z' header is the final one, and only when closed. */
  ghost predicate Chain(m: seq<byte>, p: nat, q: nat, bs: seq<Block>, closed: bool)
    requires 16 * q <= |m|
    decreases bs
  {
    if bs == [] then
      p == q
    else
      && p + 1 + bs[0].size <= q
      && Header(m, p, bs[0], closed && |bs| == 1)
      && Chain(m, p + 1 + bs[0].size, q, bs[1..], closed)
  }

  lemma {:induction false} ChainSplit(m: seq<byte>, p: nat, q: nat, a: seq<Block>, b: seq<Block>, closed: bool)
    requires 16 * q <= |m|
    decreases a
    ensures Chain(m, p, q, a + b, closed)
       <==> p + Span(a) <= q && Chain(m, p, p + Span(a), a, closed && b == []) && Chain(m, p + Span(a), q, b, closed)
  {
    if a == [] {
      assert a + b == b;
      ChainSpan(m, p, q, b, closed);
    } else {
      assert (a + b)[1..] == a[1..] + b;
      assert (a + b)[0] == a[0];
      if p + 1 + a[0].size <= q {
        ChainSplit(m, p + 1 + a[0].size, q, a[1..], b, closed);
      }
      ChainSpan(m, p, q, a + b, closed);
      SpanConcat(a, b);
    }
  }

  lemma {:induction false} ChainSpan(m: seq<byte>, p: nat, q: nat, bs: seq<Block>, closed: bool)
    requires 16 * q <= |m|
    ensures Chain(m, p, q, bs, closed) ==> q == p + Span(bs)
    decreases bs
  {
    if bs != [] && p + 1 + bs[0].size <= q {
      ChainSpan(m, p + 1 + bs[0].size, q, bs[1..], closed);
    }
  }

  /** Paragraphs p up to q hold the same bytes in both images. */
  ghost predicate Same(m: seq<byte>, m': seq<byte>, p: nat, q: nat)
    requires 16 * q <= |m| == |m'|
  {
    forall k :: 16 * p <= k < 16 * q ==> m'[k] == m[k]
  }

  lemma {:induction false} ChainFrame(m: seq<byte>, m': seq<byte>, p: nat, q: nat, bs: seq<Block>, closed: bool)
    requires 16 * q <= |m| == |m'|
    requires Chain(m, p, q, bs, closed)
    requires Same(m, m', p, q)
    ensures Chain(m', p, q, bs, closed)
    decreases bs
  {
    if bs != [] {
      ChainFrame(m, m', p + 1 + bs[0].size, q, bs[1..], closed);
    }
  }

  // ---- the services on the abstract list ----

  /** Paragraphs held by the free blocks that lead bs. */
  function FreeRun(bs: seq<Block>): nat {
    if bs == [] || bs[0].owner != 0 then 0 else 1 + bs[0].size + FreeRun(bs[1..])
  }

  function DropFree(bs: seq<Block>): seq<Block> {
    if bs == [] || bs[0].owner != 0 then bs else DropFree(bs[1..])
  }

  /** The first block takes over the free run behind it. */
  function Coalesce(bs: seq<Block>): seq<Block>
    requires bs != []
  {
    [Block(bs[0].owner, bs[0].size + FreeRun(bs[1..]))] + DropFree(bs[1..])
  }

  lemma {:induction false} FreeRunSplit(bs: seq<Block>)
    ensures Span(bs) == FreeRun(bs) + Span(DropFree(bs))
    ensures DropFree(bs) == [] || DropFree(bs)[0].owner != 0
    ensures |DropFree(bs)| <= |bs|
  {
    if bs != [] && bs[0].owner == 0 {
      FreeRunSplit(bs[1..]);
    }
  }

  function FreeAt(bs: seq<Block>, i: nat): seq<Block>
    requires i < |bs|
  {
    bs[..i] + Coalesce([Block(0, bs[i].size)] + bs[i + 1..])
  }

  /** The size block i can reach without moving. */
  function Reach(bs: seq<Block>, i: nat): nat
    requires i < |bs|
  {
    bs[i].size + FreeRun(bs[i + 1..])
  }

  function ResizeAt(bs: seq<Block>, i: nat, size: nat): seq<Block>
    requires i < |bs|
  {
    if bs[i].size == size then
      bs
    else if Reach(bs, i) > size then
      bs[..i] + [Block(bs[i].owner, size), Block(0, Reach(bs, i) - size - 1)] + DropFree(bs[i + 1..])
    else
      bs[..i] + Coalesce(bs[i..])
  }

  ghost predicate Fits(b: Block, size: nat) {
    b.owner == 0 && size <= b.size
  }

  /** Of the first n blocks, i is the one allocation strategy st picks: first fit, earliest
      tightest fit, last fit. */
  ghost predicate ChosenAmong(bs: seq<Block>, n: nat, size: nat, st: nat, i: nat)
    requires n <= |bs|
  {
    && i < n
    && Fits(bs[i], size)
    && forall j :: 0 <= j < n && j != i && Fits(bs[j], size) ==>
         if st == 0 then i < j
         else if st == 1 then bs[i].size < bs[j].size || (bs[i].size == bs[j].size && i < j)
         else j < i
  }

  ghost predicate Chosen(bs: seq<Block>, size: nat, st: nat, i: nat) {
    ChosenAmong(bs, |bs|, size, st, i)
  }

  /** max is the largest free block below the request among the first n, 0 when there is none. */
  ghost predicate LargestMiss(bs: seq<Block>, n: nat, size: nat, max: nat)
    requires n <= |bs|
  {
    && (forall j :: 0 <= j < n && bs[j].owner == 0 && bs[j].size < size ==> bs[j].size <= max)
    && (max == 0 || exists j :: 0 <= j < n && bs[j].owner == 0 && bs[j].size == max < size)
  }

  /** Extending the search by block n. */
  lemma PickStep(bs: seq<Block>, n: nat, size: nat, st: nat, found: bool, i: nat)
    requires n < |bs|
    requires if found then ChosenAmong(bs, n, size, st, i) else forall j :: 0 <= j < n ==> !Fits(bs[j], size)
    ensures if !Fits(bs[n], size) then
              (if found then ChosenAmong(bs, n + 1, size, st, i) else forall j :: 0 <= j < n + 1 ==> !Fits(bs[j], size))
            else if !found || (st == 1 && bs[n].size < bs[i].size) || st >= 2 then ChosenAmong(bs, n + 1, size, st, n)
            else ChosenAmong(bs, n + 1, size, st, i)
  {
  }

  lemma MissStep(bs: seq<Block>, n: nat, size: nat, max: nat)
    requires n < |bs| && LargestMiss(bs, n, size, max)
    ensures LargestMiss(bs, n + 1, size, if bs[n].owner == 0 && max < bs[n].size < size then bs[n].size else max)
  {
    var j := n;
    if !(bs[n].owner == 0 && max < bs[n].size < size) && max != 0 {
      j :| 0 <= j < n && bs[j].owner == 0 && bs[j].size == max < size;
    }
  }

  /** What becomes of the chosen free block. */
  function AllocMid(b: Block, owner: nat, size: nat, st: nat): seq<Block>
    requires size <= b.size
  {
    var slack := b.size - size;
    if slack == 0 then [Block(owner, size)]
    else if st >= 2 then [Block(0, slack - 1), Block(owner, size)]
    else [Block(owner, size), Block(0, slack - 1)]
  }

  function AllocAt(bs: seq<Block>, i: nat, owner: nat, size: nat, st: nat): seq<Block>
    requires i < |bs| && size <= bs[i].size
  {
    bs[..i] + AllocMid(bs[i], owner, size, st) + bs[i + 1..]
  }

  /** One left-to-right pass that frees every block of the owner, as the walk meets it. */
  function FreeOwned(bs: seq<Block>, owner: nat): seq<Block>
    decreases |bs|
  {
    if bs == [] then
      []
    else if bs[0].owner != owner then
      [bs[0]] + FreeOwned(bs[1..], owner)
    else
      FreeRunSplit(bs[1..]);
      [Block(0, bs[0].size + FreeRun(bs[1..]))] + FreeOwned(DropFree(bs[1..]), owner)
  }

  // ---- what a client sees: the allocated blocks by header address ----

  function Live(bs: seq<Block>, p: nat): map<nat, Block>
    decreases bs
  {
    if bs == [] then
      map[]
    else
      var rest := Live(bs[1..], p + 1 + bs[0].size);
      if bs[0].owner == 0 then rest else rest[p := bs[0]]
  }

  lemma {:induction false} LiveBounds(bs: seq<Block>, p: nat)
    ensures forall a :: a in Live(bs, p) ==>
      p <= a && a + 1 + Live(bs, p)[a].size <= p + Span(bs) && Live(bs, p)[a].owner != 0
    decreases bs
  {
    if bs != [] {
      LiveBounds(bs[1..], p + 1 + bs[0].size);
    }
  }

  lemma {:induction false} LiveConcat(a: seq<Block>, b: seq<Block>, p: nat)
    ensures Live(a + b, p) == Live(a, p) + Live(b, p + Span(a))
    decreases a
  {
    if a == [] {
      assert a + b == b;
    } else {
      var next := p + 1 + a[0].size;
      assert (a + b)[1..] == a[1..] + b && (a + b)[0] == a[0];
      LiveConcat(a[1..], b, next);
      assert next + Span(a[1..]) == p + Span(a);
      LiveBounds(b, p + Span(a));
      PutLeft(Live(a[1..], next), Live(b, p + Span(a)), p, a[0]);
    }
  }

  lemma PutLeft(x: map<nat, Block>, y: map<nat, Block>, k: nat, v: Block)
    requires k !in y
    ensures (x + y)[k := v] == x[k := v] + y
  {
  }

  lemma {:induction false} LiveDropFree(bs: seq<Block>, p: nat)
    ensures Live(DropFree(bs), p + FreeRun(bs)) == Live(bs, p)
    decreases bs
  {
    if bs != [] && bs[0].owner == 0 {
      LiveDropFree(bs[1..], p + 1 + bs[0].size);
    }
  }

  /** The live blocks in front of, at and behind block i. */
  ghost predicate Parts(live: map<nat, Block>, pre: map<nat, Block>, x: nat, b: Block, post: map<nat, Block>) {
    && live == pre + (if b.owner == 0 then post else post[x := b])
    && x !in pre && x !in post && pre.Keys !! post.Keys
  }

  lemma LiveParts(bs: seq<Block>, p: nat, i: nat)
    requires i < |bs|
    ensures var x := p + Span(bs[..i]);
      Parts(Live(bs, p), Live(bs[..i], p), x, bs[i], Live(bs[i + 1..], x + 1 + bs[i].size))
  {
    var x := p + Span(bs[..i]);
    assert bs == bs[..i] + bs[i..];
    assert bs[i..][1..] == bs[i + 1..];
    LiveConcat(bs[..i], bs[i..], p);
    LiveBounds(bs[..i], p);
    LiveBounds(bs[i + 1..], x + 1 + bs[i].size);
  }

  lemma LiveKey(bs: seq<Block>, p: nat, i: nat)
    requires i < |bs|
    ensures var x := p + Span(bs[..i]);
      if bs[i].owner == 0 then x !in Live(bs, p) else x in Live(bs, p) && Live(bs, p)[x] == bs[i]
  {
    LiveParts(bs, p, i);
  }

  lemma LiveJoin(pre: seq<Block>, mid: seq<Block>, post: seq<Block>, p: nat)
    ensures var x := p + Span(pre);
      Live(pre + mid + post, p) == Live(pre, p) + (Live(mid, x) + Live(post, x + Span(mid)))
    ensures Span(pre + mid + post) == Span(pre) + Span(mid) + Span(post)
  {
    assert pre + mid + post == pre + (mid + post);
    LiveConcat(pre, mid + post, p);
    LiveConcat(mid, post, p + Span(pre));
    SpanConcat(pre, mid + post);
    SpanConcat(mid, post);
  }

  lemma SpanAround(bs: seq<Block>, i: nat)
    requires i < |bs|
    ensures Span(bs) == Span(bs[..i]) + 1 + bs[i].size + Span(bs[i + 1..])
  {
    assert bs == bs[..i] + bs[i..];
    assert bs[i..][1..] == bs[i + 1..];
    SpanConcat(bs[..i], bs[i..]);
  }

  lemma LiveOne(b: Block, x: nat)
    ensures Span([b]) == 1 + b.size
    ensures Live([b], x) == if b.owner == 0 then map[] else map[x := b]
  {
    assert Live([], x + 1 + b.size) == map[];
  }

  lemma LiveTwo(b: Block, c: Block, x: nat)
    ensures Span([b, c]) == 2 + b.size + c.size
    ensures b.owner == 0 ==> Live([b, c], x) == Live([c], x + 1 + b.size)
    ensures c.owner == 0 ==> Live([b, c], x) == Live([b], x)
  {
    assert [b, c][1..] == [c];
    assert [c][1..] == [];
    assert Span([c]) == 1 + c.size;
    LiveOne(b, x);
    LiveOne(c, x + 1 + b.size);
  }

  /** Rebuilding the live map without the middle block. */
  lemma DropMiddle(live: map<nat, Block>, pre: map<nat, Block>, x: nat, b: Block, post: map<nat, Block>)
    requires Parts(live, pre, x, b, post)
    ensures pre + (map[] + post) == live - {x}
    ensures b.owner == 0 ==> live - {x} == live
  {
  }

  /** Rebuilding the live map with block c at a instead of the middle one. */
  lemma PutMiddle(live: map<nat, Block>, pre: map<nat, Block>, x: nat, b: Block, post: map<nat, Block>, a: nat, c: Block)
    requires Parts(live, pre, x, b, post) && a !in pre && a !in post && (a == x || b.owner == 0)
    ensures pre + (map[a := c] + post) == live[a := c]
    ensures b.owner == 0 ==> a !in live
  {
  }

  /** A successful allocation adds exactly one live block; it lies in free space. */
  lemma AllocLive(bs: seq<Block>, p: nat, i: nat, owner: nat, size: nat, st: nat)
    requires i < |bs| && Fits(bs[i], size)
    ensures var a := p + Span(bs[..i]) + (if st >= 2 then bs[i].size - size else 0);
      && a !in Live(bs, p)
      && Live(AllocAt(bs, i, owner, size, st), p)
         == if owner == 0 then Live(bs, p) else Live(bs, p)[a := Block(owner, size)]
    ensures Span(AllocAt(bs, i, owner, size, st)) == Span(bs)
  {
    var x := p + Span(bs[..i]);
    var a, post := x + (if st >= 2 then bs[i].size - size else 0), x + 1 + bs[i].size;
    AllocShape(bs, p, i, owner, size, st);
    LiveParts(bs, p, i);
    NotInParts(bs, p, i, a);
    AllocMaps(Live(bs, p), Live(bs[..i], p), x, bs[i], Live(bs[i + 1..], post), a, Block(owner, size));
  }

  lemma NotInParts(bs: seq<Block>, p: nat, i: nat, a: nat)
    requires i < |bs| && p + Span(bs[..i]) <= a <= p + Span(bs[..i]) + bs[i].size
    ensures a !in Live(bs[..i], p) && a !in Live(bs[i + 1..], p + Span(bs[..i]) + 1 + bs[i].size)
  {
    LiveBounds(bs[..i], p);
    LiveBounds(bs[i + 1..], p + Span(bs[..i]) + 1 + bs[i].size);
  }

  lemma AllocMaps(live: map<nat, Block>, pre: map<nat, Block>, x: nat, b: Block, post: map<nat, Block>, a: nat, c: Block)
    requires Parts(live, pre, x, b, post) && a !in pre && a !in post && b.owner == 0
    ensures pre + ((if c.owner == 0 then map[] else map[a := c]) + post) == if c.owner == 0 then live else live[a := c]
    ensures a !in live
  {
    PutMiddle(live, pre, x, b, post, a, c);
    DropMiddle(live, pre, x, b, post);
  }

  lemma AllocShape(bs: seq<Block>, p: nat, i: nat, owner: nat, size: nat, st: nat)
    requires i < |bs| && Fits(bs[i], size)
    ensures var x := p + Span(bs[..i]);
      var mid := if owner == 0 then map[] else map[x + (if st >= 2 then bs[i].size - size else 0) := Block(owner, size)];
      Live(AllocAt(bs, i, owner, size, st), p) == Live(bs[..i], p) + (mid + Live(bs[i + 1..], x + 1 + bs[i].size))
    ensures Span(AllocAt(bs, i, owner, size, st)) == Span(bs)
  {
    LiveJoin(bs[..i], AllocMid(bs[i], owner, size, st), bs[i + 1..], p);
    AllocMidLive(bs[i], p + Span(bs[..i]), owner, size, st);
    SpanAround(bs, i);
  }

  lemma AllocMidLive(b: Block, x: nat, owner: nat, size: nat, st: nat)
    requires Fits(b, size)
    ensures Span(AllocMid(b, owner, size, st)) == 1 + b.size
    ensures var a := x + (if st >= 2 then b.size - size else 0);
      Live(AllocMid(b, owner, size, st), x) == if owner == 0 then map[] else map[a := Block(owner, size)]
  {
    var slack := b.size - size;
    if slack != 0 {
      LiveTwo(Block(0, slack - 1), Block(owner, size), x);
      LiveTwo(Block(owner, size), Block(0, slack - 1), x);
    }
    LiveOne(Block(owner, size), x);
    LiveOne(Block(owner, size), x + slack);
  }

  /** Freeing removes exactly the freed block. */
  lemma FreeLive(bs: seq<Block>, p: nat, i: nat)
    requires i < |bs|
    ensures Live(FreeAt(bs, i), p) == Live(bs, p) - {p + Span(bs[..i])}
    ensures Span(FreeAt(bs, i)) == Span(bs)
  {
    var x := p + Span(bs[..i]);
    var tail := bs[i + 1..];
    var merged := Block(0, bs[i].size + FreeRun(tail));
    assert ([Block(0, bs[i].size)] + tail)[1..] == tail;
    assert FreeAt(bs, i) == bs[..i] + [merged] + DropFree(tail);
    RebuildLive(bs, p, i, [merged]);
    LiveOne(merged, x);
    LiveParts(bs, p, i);
    DropMiddle(Live(bs, p), Live(bs[..i], p), x, bs[i], Live(tail, x + 1 + bs[i].size));
  }

  /** Block i and the free run behind it replaced by mid. */
  lemma RebuildLive(bs: seq<Block>, p: nat, i: nat, mid: seq<Block>)
    requires i < |bs| && Span(mid) == 1 + Reach(bs, i)
    ensures var bs' := bs[..i] + mid + DropFree(bs[i + 1..]);
      var x := p + Span(bs[..i]);
      Span(bs') == Span(bs) && Live(bs', p) == Live(bs[..i], p) + (Live(mid, x) + Live(bs[i + 1..], x + 1 + bs[i].size))
  {
    LiveJoin(bs[..i], mid, DropFree(bs[i + 1..]), p);
    LiveDropFree(bs[i + 1..], p + Span(bs[..i]) + 1 + bs[i].size);
    FreeRunSplit(bs[i + 1..]);
    SpanAround(bs, i);
  }

  /** Resizing keeps the block where it is and gives it the request or all it can reach. */
  lemma ResizeLive(bs: seq<Block>, p: nat, i: nat, size: nat)
    requires i < |bs|
    ensures Live(ResizeAt(bs, i, size), p)
         == if bs[i].owner == 0 then Live(bs, p)
            else Live(bs, p)[p + Span(bs[..i]) := Block(bs[i].owner, Min(size, Reach(bs, i)))]
    ensures Span(ResizeAt(bs, i, size)) == Span(bs)
  {
    var x := p + Span(bs[..i]);
    var tail := bs[i + 1..];
    var got := Block(bs[i].owner, Min(size, Reach(bs, i)));
    LiveParts(bs, p, i);
    PutMiddle(Live(bs, p), Live(bs[..i], p), x, bs[i], Live(tail, x + 1 + bs[i].size), x, got);
    DropMiddle(Live(bs, p), Live(bs[..i], p), x, bs[i], Live(tail, x + 1 + bs[i].size));
    if bs[i].size == size {
      assert bs[i].owner != 0 ==> Live(bs, p)[x := got] == Live(bs, p);
    } else {
      var mid := if Reach(bs, i) > size then [got, Block(0, Reach(bs, i) - size - 1)] else [got];
      assert bs[i..][1..] == tail;
      assert ResizeAt(bs, i, size) == bs[..i] + mid + DropFree(tail);
      LiveOne(got, x);
      LiveTwo(got, mid[|mid| - 1], x);
      RebuildLive(bs, p, i, mid);
    }
  }

  ghost function NotOf(live: map<nat, Block>, owner: nat): map<nat, Block> {
    map a | a in live && live[a].owner != owner :: live[a]
  }

  lemma NotOfPut(live: map<nat, Block>, x: nat, b: Block, owner: nat)
    requires x !in live
    ensures NotOf(live[x := b], owner) == if b.owner == owner then NotOf(live, owner) else NotOf(live, owner)[x := b]
  {
  }

  /** The bulk free releases all and only the owner's blocks; for owner 0 it merely coalesces. */
  lemma {:induction false} FreeOwnedLive(bs: seq<Block>, p: nat, owner: nat)
    ensures Live(FreeOwned(bs, owner), p) == NotOf(Live(bs, p), owner)
    ensures Span(FreeOwned(bs, owner)) == Span(bs)
    decreases |bs|
  {
    if bs != [] {
      var tail := bs[1..];
      var next := p + 1 + bs[0].size;
      LiveBounds(tail, next);
      NotOfPut(Live(tail, next), p, bs[0], owner);
      if bs[0].owner != owner {
        FreeOwnedLive(tail, next, owner);
        assert FreeOwned(bs, owner)[1..] == FreeOwned(tail, owner);
      } else {
        FreeRunSplit(tail);
        LiveDropFree(tail, next);
        FreeOwnedLive(DropFree(tail), next + FreeRun(tail), owner);
        assert FreeOwned(bs, owner)[1..] == FreeOwned(DropFree(tail), owner);
      }
    }
  }

  /** Live blocks never overlap. */
  lemma {:induction false} LiveDisjoint(bs: seq<Block>, p: nat, a: nat, b: nat)
    requires a in Live(bs, p) && b in Live(bs, p) && a < b
    ensures a + 1 + Live(bs, p)[a].size <= b
    decreases bs
  {
    var next := p + 1 + bs[0].size;
    LiveBounds(bs[1..], next);
    if a in Live(bs[1..], next) {
      LiveDisjoint(bs[1..], next, a, b);
    }
  }

  /** No header lies inside the data of a live block. */
  lemma HeaderOutside(bs: seq<Block>, p: nat, i: nat, a: nat)
    requires i < |bs| && a in Live(bs, p)
    ensures !(a + 1 <= p + Span(bs[..i]) < a + 1 + Live(bs, p)[a].size)
  {
    var x := p + Span(bs[..i]);
    LiveParts(bs, p, i);
    LiveBounds(bs[..i], p);
    LiveBounds(bs[i + 1..], x + 1 + bs[i].size);
  }

  /** Only bytes of paragraph x may differ. */
  ghost predicate SameBut(m: seq<byte>, m': seq<byte>, x: nat) {
    SameBut2(m, m', x, x)
  }

  /** Only bytes of paragraphs x and y may differ. */
  ghost predicate SameBut2(m: seq<byte>, m': seq<byte>, x: nat, y: nat) {
    && |m'| == |m|
    && forall k :: 0 <= k < |m| && !(16 * x <= k < 16 * x + 16) && !(16 * y <= k < 16 * y + 16) ==> m'[k] == m[k]
  }

  lemma SameButTrans(m: seq<byte>, m': seq<byte>, m'': seq<byte>, x: nat)
    requires SameBut(m, m', x) && SameBut(m', m'', x)
    ensures SameBut(m, m'', x)
  {
  }

  lemma SameButTrans2(m: seq<byte>, m': seq<byte>, m'': seq<byte>, x: nat, y: nat)
    requires SameBut(m, m', x) && SameBut2(m', m'', x, y)
    ensures SameBut2(m, m'', x, y)
  {
  }

  /** Between m and m' no data byte of a block live in bs changed. */
  ghost predicate DataKept(m: seq<byte>, m': seq<byte>, bs: seq<Block>, p: nat)
  {
    && |m'| == |m|
    && forall a: nat, k: nat :: InData(Live(bs, p), a, k) && k < |m| ==> m'[k] == m[k]
  }

  /** Byte k belongs to the data of the live block at a. */
  ghost predicate InData(live: map<nat, Block>, a: nat, k: nat) {
    a in live && 16 * (a + 1) <= k < 16 * (a + 1 + live[a].size)
  }

  /** Writing only headers i and j of the new chain keeps all live data. */
  lemma HeadersOnly(m: seq<byte>, m': seq<byte>, bs: seq<Block>, p: nat, i: nat, j: nat)
    requires i < |bs| && j < |bs|
    requires SameBut2(m, m', p + Span(bs[..i]), p + Span(bs[..j]))
    ensures DataKept(m, m', bs, p)
  {
    forall a: nat, k: nat | InData(Live(bs, p), a, k) && k < |m|
      ensures m'[k] == m[k]
    {
      HeaderOutside(bs, p, i, a);
      HeaderOutside(bs, p, j, a);
    }
  }
}
