/** The DOS memory services on the header chain inside emulated memory. */
module McbHeap {
  import opened Words
  import opened McbChain
  import opened McbRuns

  lemma ChainTail(m: seq<byte>, m': seq<byte>, p: nat, q: nat, pre: seq<Block>, t: seq<Block>, t': seq<Block>)
    requires 16 * q <= |m| == |m'| && t != [] && t' != [] && p + Span(pre) <= q
    requires Chain(m, p, q, pre + t, true)
    requires Same(m, m', p, p + Span(pre))
    requires Chain(m', p + Span(pre), q, t', true)
    ensures Chain(m', p, q, pre + t', true)
  {
    ChainSplit(m, p, q, pre, t, true);
    ChainFrame(m, m', p, p + Span(pre), pre, false);
    ChainSplit(m', p, q, pre, t', true);
  }

  /** The header of the i-th block. */
  lemma {:induction false} ChainAt(m: seq<byte>, p: nat, q: nat, bs: seq<Block>, i: nat)
    requires 16 * q <= |m| && Chain(m, p, q, bs, true) && i < |bs|
    ensures var x := p + Span(bs[..i]);
      && x + 1 + bs[i].size <= q
      && Header(m, x, bs[i], i == |bs| - 1)
      && (i == |bs| - 1 ==> x + 1 + bs[i].size == q)
    ensures Span(bs[..i + 1]) == Span(bs[..i]) + 1 + bs[i].size
  {
    var x := p + Span(bs[..i]);
    assert bs == bs[..i] + bs[i..];
    ChainSplit(m, p, q, bs[..i], bs[i..], true);
    assert bs[..i + 1] == bs[..i] + [bs[i]];
    SpanConcat(bs[..i], [bs[i]]);
  }

  /** The chain from paragraph x on: block b, then rest, up to q. */
  ghost predicate From(m: seq<byte>, x: nat, q: nat, b: Block, rest: seq<Block>)
    requires 16 * q <= |m|
  {
    && x + 1 + b.size <= q
    && Header(m, x, b, rest == [])
    && Chain(m, x + 1 + b.size, q, rest, true)
  }

  /** One round of the merge: block b at x swallows the block behind it. */
  lemma MergeStep(m: seq<byte>, m': seq<byte>, x: nat, q: nat, b: Block, rest: seq<Block>)
    requires 16 * q <= |m| && rest != [] && SameBut(m, m', x) && From(m, x, q, b, rest)
    ensures var y, sum := x + 1 + b.size, b.size + 1 + rest[0].size;
      && y + 1 + rest[0].size <= q
      && Header(m, y, rest[0], |rest| == 1) && m'[16 * y] == m[16 * y] && Get16(m', 16 * y + 3) == rest[0].size
      && (Get16(m', 16 * x + 1) == b.owner && Get16(m', 16 * x + 3) == sum && m'[16 * x] == m[16 * y] ==> From(m', x, q, Block(b.owner, sum), rest[1..]))
      && (|rest| > 1 ==> x + 2 + sum <= q && Get16(m', 16 * (x + 1 + sum) + 1) == rest[1].owner && m'[16 * (x + 1 + sum)] in {LAST, MORE})
  {
    ChainFrame(m, m', x + 2 + b.size + rest[0].size, q, rest[1..], true);
  }

  class Heap {
    const mem: array<byte>
    var start: word
    var strategy: byte
    ghost var end: nat
    ghost var blocks: seq<Block>

    ghost function View(): State
      reads this, mem
    {
      State(mem[..], start, end, blocks)
    }

    ghost predicate Valid()
      reads this, mem
    {
      0x10_0000 <= mem.Length && Inv(View())
    }

    constructor (memory: array<byte>, memStart: word, memEnd: word)
      requires 0x10_0000 <= memory.Length && 0 < memStart < memEnd
      modifies memory
      ensures Valid() && mem == memory && start == memStart && end == memEnd
      ensures blocks == [Block(0, memEnd - memStart - 1)]
    {
      mem, start, strategy := memory, memStart, 0;
      end, blocks := memEnd, [Block(0, memEnd - memStart - 1)];
      new;
      New(memStart, 0, memEnd - memStart - 1, true);
      assert Chain(mem[..], end, end, blocks[1..], true);
    }

    method New(mcb: word, owner: word, size: word, last: bool)
      requires 0x10_0000 <= mem.Length
      modifies mem
      ensures Header(mem[..], mcb, Block(owner, size), last)
      ensures SameBut(old(mem[..]), mem[..], mcb)
    {
      mem[16 * mcb] := if last then LAST else MORE;
      mem[16 * mcb + 1], mem[16 * mcb + 2] := owner % 0x100, owner / 0x100;
      mem[16 * mcb + 3], mem[16 * mcb + 4] := size % 0x100, size / 0x100;
    }

    function Word(a: nat): word
      requires a + 1 < mem.Length
      reads mem
    {
      Get16(mem[..], a)
    }

    function Size(mcb: word): word
      requires 0x10_0000 <= mem.Length
      reads mem
    {
      Word(16 * mcb + 3)
    }

    function Owner(mcb: word): word
      requires 0x10_0000 <= mem.Length
      reads mem
    {
      Word(16 * mcb + 1)
    }

    predicate IsLast(mcb: word)
      requires 0x10_0000 <= mem.Length
      reads mem
    {
      mem[16 * mcb] == LAST
    }

    predicate IsFree(mcb: word)
      requires 0x10_0000 <= mem.Length
      reads mem
    {
      (mem[16 * mcb] == LAST || mem[16 * mcb] == MORE) && Owner(mcb) == 0
    }

    /** The following header, or 0 behind the last one; the sum wraps at 16 bits. */
    function Next(mcb: word): word
      requires 0x10_0000 <= mem.Length
      reads mem
    {
      if mcb == 0 || IsLast(mcb) then 0 else (mcb + Size(mcb) + 1) % 0x1_0000
    }

    method SetSize(mcb: word, size: word)
      requires 0x10_0000 <= mem.Length
      modifies mem
      ensures Size(mcb) == size && Owner(mcb) == old(Owner(mcb)) && mem[16 * mcb] == old(mem[16 * mcb])
      ensures SameBut(old(mem[..]), mem[..], mcb)
    {
      mem[16 * mcb + 3], mem[16 * mcb + 4] := size % 0x100, size / 0x100;
    }

    method SetOwner(mcb: word, owner: word)
      requires 0x10_0000 <= mem.Length
      modifies mem
      ensures Owner(mcb) == owner && Size(mcb) == old(Size(mcb)) && mem[16 * mcb] == old(mem[16 * mcb])
      ensures SameBut(old(mem[..]), mem[..], mcb)
    {
      mem[16 * mcb + 1], mem[16 * mcb + 2] := owner % 0x100, owner / 0x100;
    }

    method SetLast(mcb: word, last: bool)
      requires 0x10_0000 <= mem.Length
      modifies mem
      ensures mem[16 * mcb] == (if last then LAST else MORE)
      ensures Owner(mcb) == old(Owner(mcb)) && Size(mcb) == old(Size(mcb))
      ensures SameBut(old(mem[..]), mem[..], mcb)
    {
      mem[16 * mcb] := if last then LAST else MORE;
    }

    /** One round of the loop in GrowMax. */
    method Swallow(mcb: word, nxt: word, total: word, ghost own: nat, ghost rest: seq<Block>) returns (sum: word)
      requires 0x10_0000 <= mem.Length && end <= 0xFFFF && rest != []
      requires From(mem[..], mcb, end, Block(own, total), rest) && nxt == mcb + 1 + total
      modifies mem
      ensures From(mem[..], mcb, end, Block(own, sum), rest[1..]) && sum == total + 1 + rest[0].size
      ensures IsLast(nxt) <==> |rest| == 1
      ensures SameBut(old(mem[..]), mem[..], mcb)
      ensures |rest| > 1 ==>
        mcb + 1 + sum <= 0xFFFF && Next(nxt) == mcb + 1 + sum && (IsFree(mcb + 1 + sum) <==> rest[1].owner == 0)
    {
      ghost var m := mem[..];
      MergeStep(m, m, mcb, end, Block(own, total), rest);
      sum := total + 1 + Size(nxt);
      SetSize(mcb, sum);
      SetLast(mcb, IsLast(nxt));
      MergeStep(m, mem[..], mcb, end, Block(own, total), rest);
    }

    /** Merges the free run behind a block into it, header by header. */
    method GrowMax(mcb: word, ghost b: Block, ghost bs: seq<Block>) returns (total: word)
      requires 0x10_0000 <= mem.Length && end <= 0xFFFF && mcb > 0
      requires From(mem[..], mcb, end, b, bs)
      modifies mem
      ensures total == b.size + FreeRun(bs)
      ensures From(mem[..], mcb, end, Block(b.owner, total), DropFree(bs))
      ensures SameBut(old(mem[..]), mem[..], mcb)
    {
      ghost var rest := bs;
      total := Size(mcb);
      if IsLast(mcb) {
        return total;
      }
      var nxt: word := Next(mcb);
      while IsFree(nxt)
        invariant rest != [] && nxt == mcb + 1 + total
        invariant From(mem[..], mcb, end, Block(b.owner, total), rest)
        invariant IsFree(nxt) <==> rest[0].owner == 0
        invariant DropFree(rest) == DropFree(bs) && total + FreeRun(rest) == b.size + FreeRun(bs)
        invariant SameBut(old(mem[..]), mem[..], mcb)
        decreases |rest|
      {
        total := Swallow(mcb, nxt, total, b.owner, rest);
        rest := rest[1..];
        if IsLast(nxt) {
          break;
        }
        nxt := Next(nxt);
      }
    }

    /** Splits a block in two: the upper header is written first, then the lower one. */
    method Cut(mcb: word, lowOwner: word, lowSize: word, highOwner: word, highSize: word, ghost b: Block, ghost rest: seq<Block>)
      requires 0x10_0000 <= mem.Length && end <= 0xFFFF
      requires From(mem[..], mcb, end, b, rest) && b.size == lowSize + 1 + highSize
      modifies mem
      ensures Chain(mem[..], mcb, end, [Block(lowOwner, lowSize), Block(highOwner, highSize)] + rest, true)
      ensures SameBut2(old(mem[..]), mem[..], mcb, mcb + lowSize + 1)
    {
      ghost var m := mem[..];
      New(mcb + lowSize + 1, highOwner, highSize, IsLast(mcb));
      ghost var m1 := mem[..];
      New(mcb, lowOwner, lowSize, false);
      SplitChain(m, m1, mem[..], mcb, end, b, Block(lowOwner, lowSize), Block(highOwner, highSize), rest);
    }

    /** INT 21h service 49h: frees block i and merges the free run behind it. */
    method Free(mcb: word, ghost i: nat)
      requires Valid() && IsAt(View(), mcb, i)
      modifies mem, `blocks
      ensures Step(old(View()), Request.Free(mcb), View())
      ensures Valid() && blocks == FreeAt(old(blocks), i)
    {
      hide Step, SameBut;
      ghost var s := View();
      SetOwner(mcb, 0);
      ghost var m := mem[..];
      Disowned(s, m, i);
      var total := GrowMax(mcb, Block(0, blocks[i].size), blocks[i + 1..]);
      SameButTrans(s.mem, m, mem[..], mcb);
      FreeDone(s, mem[..], i);
      blocks := FreeAt(blocks, i);
    }

    /** INT 21h service 4Ah: resizes block i in place, as far as it can reach. */
    method Resize(mcb: word, size: word, ghost i: nat) returns (got: word)
      requires Valid() && IsAt(View(), mcb, i)
      modifies mem, `blocks
      ensures Step(old(View()), Request.Resize(mcb, size), View())
      ensures Valid() && blocks == ResizeAt(old(blocks), i, size)
      ensures got == Min(size, Reach(old(blocks), i))
    {
      hide Step, SameBut2;
      ghost var s := View();
      ChainFrom(s.mem, start, end, blocks, i);
      if Size(mcb) == size {
        ResizeSame(s, mcb, i, size);
        return size;
      }
      got := Regrow(mcb, size, blocks[i], blocks[i + 1..], Reach(blocks, i));
      ResizeDone(s, mem[..], mcb, i, size);
      blocks := ResizeAt(blocks, i, size);
      assert View() == State(mem[..], s.p, s.q, ResizeAt(s.blocks, i, size));
    }

    /** Resize on a block of another size: grow it to its limit, then cut off the excess. */
    method Regrow(mcb: word, size: word, ghost b: Block, ghost rest: seq<Block>, ghost reach: nat) returns (got: word)
      requires reach == b.size + FreeRun(rest)
      requires 0x10_0000 <= mem.Length && end <= 0xFFFF && mcb > 0 && From(mem[..], mcb, end, b, rest)
      modifies mem
      ensures got == Min(size, reach) && Chain(mem[..], mcb, end, ResizeTail(b, rest, size), true)
      ensures SameBut2(old(mem[..]), mem[..], mcb, if size < reach then mcb + size + 1 else mcb)
    {
      ghost var m0 := mem[..];
      var max := GrowMax(mcb, b, rest);
      ghost var m := mem[..];
      if Size(mcb) > size {
        Cut(mcb, Owner(mcb), size, 0, Size(mcb) - size - 1, Block(b.owner, max), DropFree(rest));
        SameButTrans2(m0, m, mem[..], mcb, mcb + size + 1);
        got := size;
      } else {
        FromChain(m, mcb, end, Block(b.owner, max), DropFree(rest));
        got := max;
      }
    }

    /** Block k as the walk reads it. */
    lemma Here(mcb: word, k: nat)
      requires Valid() && IsAt(View(), mcb, k)
      ensures Size(mcb) == blocks[k].size && (IsFree(mcb) <==> blocks[k].owner == 0)
      ensures IsLast(mcb) <==> k == |blocks| - 1
      ensures k < |blocks| - 1 ==> Next(mcb) == start + Span(blocks[..k + 1])
    {
      ChainAt(mem[..], start, end, blocks, k);
    }

    /** Walks the chain for the free block the strategy picks; best is 0 when none fits. */
    method Pick(size: word) returns (best: word, slack: int, max: word, ghost i: nat)
      requires Valid()
      ensures best == 0 ==> forall j :: 0 <= j < |blocks| ==> !Fits(blocks[j], size)
      ensures best != 0 ==> Chosen(blocks, size, strategy % 0x40, i) && IsAt(View(), best, i)
      ensures best != 0 ==> slack == blocks[i].size - size
      ensures LargestMiss(blocks, |blocks|, size, max)
    {
      hide Chain, ChosenAmong;
      var mcb := start;
      best, slack, max, i := 0, 0xFFFFF, 0, 0;
      var st := strategy % 0x40;
      ghost var k: nat := 0;
      while true
        invariant IsAt(View(), mcb, k)
        invariant best == 0 ==> forall j :: 0 <= j < k ==> !Fits(blocks[j], size)
        invariant best != 0 ==> ChosenAmong(blocks, k, size, st, i) && IsAt(View(), best, i)
        invariant best != 0 ==> slack == blocks[i].size - size
        invariant LargestMiss(blocks, k, size, max)
        decreases |blocks| - k
      {
        Here(mcb, k);
        PickStep(blocks, k, size, st, best != 0, i);
        MissStep(blocks, k, size, max);
        if IsFree(mcb) {
          var room := Size(mcb) - size;
          if room >= 0 {
            if best == 0 || (st == 1 && room < slack) || st >= 2 {
              slack, best, i := room, mcb, k;
            }
          } else if Size(mcb) > max {
            max := Size(mcb);
          }
        }
        if IsLast(mcb) {
          break;
        }
        mcb, k := Next(mcb), k + 1;
      }
    }

    /** Carves the request out of a free block: the whole block, its top or its bottom. */
    method Carve(best: word, slack: word, size: word, owner: word, st: nat, ghost b: Block, ghost rest: seq<Block>,
                 ghost tail: seq<Block>, ghost upper: nat)
      returns (mcb: word)
      requires b.size == size + slack && tail == AllocMid(b, owner, size, st) + rest && upper == UpperHeader(best, b, size, st)
      requires 0x10_0000 <= mem.Length && end <= 0xFFFF && From(mem[..], best, end, b, rest)
      modifies mem
      ensures mcb == if st >= 2 then best + slack else best
      ensures Chain(mem[..], best, end, tail, true)
      ensures SameBut2(old(mem[..]), mem[..], best, upper)
    {
      if slack == 0 {
        ghost var m := mem[..];
        New(best, owner, size, IsLast(best));
        ChainFrame(m, mem[..], best + 1 + size, end, rest, true);
        FromChain(mem[..], best, end, Block(owner, size), rest);
        mcb := best;
      } else if st >= 2 {
        Cut(best, 0, slack - 1, owner, size, b, rest);
        mcb := best + slack;
      } else {
        Cut(best, owner, size, 0, slack - 1, b, rest);
        mcb := best;
      }
    }

    /** INT 21h service 48h: mcb is 0 when no free block is large enough, and max then tells
        the largest one. */
    method AllocNew(size: word, owner: word) returns (mcb: word, max: word, ghost i: nat)
      requires Valid()
      modifies mem, `blocks
      ensures Step(old(View()), Alloc(size, owner, strategy % 0x40), View()) && Valid()
      ensures Allotted(old(View()), View(), size, owner, strategy % 0x40, mcb, max, i)
    {
      hide Chain, LargestMiss, LargestFree, Step, Allotted, SameBut2;
      ghost var s := View();
      var best, slack;
      best, slack, max, i := Pick(size);
      if best == 0 {
        NothingFits(s, size, owner, strategy % 0x40, max);
        return 0, max, 0;
      }
      ChainFrom(s.mem, start, end, blocks, i);
      ghost var tail := AllocMid(blocks[i], owner, size, strategy % 0x40) + blocks[i + 1..];
      ghost var upper := UpperHeader(best, blocks[i], size, strategy % 0x40);
      mcb := Carve(best, slack, size, owner, strategy % 0x40, blocks[i], blocks[i + 1..], tail, upper);
      AllocDone(s, mem[..], i, size, owner, strategy % 0x40, best, tail, upper, mcb, max);
      blocks := AllocAt(blocks, i, owner, size, strategy % 0x40);
    }

    /** Frees every block of an exiting program, walking the whole chain. */
    method FreeOwnedBy(owner: nat)
      requires Valid()
      modifies mem, `blocks
      ensures Step(old(View()), FreeAll(owner), View())
      ensures Valid() && blocks == FreeOwned(old(blocks), owner)
    {
      ghost var s := View();
      var mcb := start;
      ghost var k: nat := 0;
      SweepStart(s, owner);
      while true
        invariant Valid() && IsAt(View(), mcb, k)
        invariant SweptTo(s, View(), owner, k)
        decreases |blocks| - k
      {
        FreeIfOwned(mcb, owner, s, k);
        Here(mcb, k);
        if IsLast(mcb) {
          break;
        }
        mcb, k := Next(mcb), k + 1;
      }
      SweepDone(s, View(), owner);
    }

    /** One round of the walk in FreeOwnedBy. */
    method FreeIfOwned(mcb: word, owner: nat, ghost s: State, ghost k: nat)
      requires Valid() && IsAt(View(), mcb, k) && SweptTo(s, View(), owner, k)
      modifies mem, `blocks
      ensures Valid() && IsAt(View(), mcb, k) && SweptTo(s, View(), owner, k + 1)
      ensures |blocks| <= |old(blocks)|
    {
      ghost var now := View();
      OwnerHere(mcb, k);
      if Owner(mcb) == owner {
        Free(mcb, k);
      }
      SweepStep(s, now, View(), owner, mcb, k);
    }

    lemma OwnerHere(mcb: word, k: nat)
      requires Valid() && IsAt(View(), mcb, k)
      ensures Owner(mcb) == blocks[k].owner
    {
      ChainAt(mem[..], start, end, blocks, k);
    }

    /** A program storing into one of its blocks. */
    method Put8(k: nat, v: byte)
      requires Valid() && k < mem.Length
      requires exists a: nat :: InData(Live(blocks, start), a, k)
      modifies mem
      ensures Step(old(View()), Store(k, v), View()) && Valid()
    {
      ghost var a: nat :| InData(Live(blocks, start), a, k);
      StoreKeepsChain(mem[..], start, end, blocks, a, k, v, true);
      mem[k] := v;
      assert mem[..] == old(mem[..])[k := v];
    }
  }

  /** Where the second header goes when a free block is split. */
  function UpperHeader(x: nat, b: Block, size: nat, st: nat): nat
    requires size <= b.size
  {
    if size == b.size then x else if st >= 2 then x + b.size - size else x + size + 1
  }

  /** Outcome of a request for size paragraphs: the policy's block i is carved up and the new
      header returned, or nothing fits, nothing changes and max tells the largest free block. */
  ghost predicate Allotted(s: State, s': State, size: nat, owner: nat, st: nat, mcb: nat, max: nat, i: nat) {
    if mcb == 0 then
      && (forall j :: 0 <= j < |s.blocks| ==> !Fits(s.blocks[j], size))
      && s' == s && LargestFree(s.blocks, max)
    else
      && Chosen(s.blocks, size, st, i)
      && s'.blocks == AllocAt(s.blocks, i, owner, size, st)
      && mcb == s.p + Span(s.blocks[..i]) + (if st >= 2 then s.blocks[i].size - size else 0)
  }

  /** max is the size of the largest free block, 0 when all are taken. */
  ghost predicate LargestFree(bs: seq<Block>, max: nat) {
    && (forall j :: 0 <= j < |bs| && bs[j].owner == 0 ==> bs[j].size <= max)
    && (max == 0 || exists j :: 0 <= j < |bs| && bs[j].owner == 0 && bs[j].size == max)
  }

  lemma NothingFits(s: State, size: nat, owner: nat, st: nat, max: nat)
    requires Inv(s) && LargestMiss(s.blocks, |s.blocks|, size, max)
    requires forall j :: 0 <= j < |s.blocks| ==> !Fits(s.blocks[j], size)
    ensures Step(s, Alloc(size, owner, st), s) && Allotted(s, s, size, owner, st, 0, max, 0)
  {
  }

  lemma AllocDone(s: State, m: seq<byte>, i: nat, size: nat, owner: nat, st: nat, x: nat, tail: seq<Block>, upper: nat,
                  mcb: nat, max: nat)
    requires Inv(s) && Chosen(s.blocks, size, st, i) && IsAt(s, x, i) && x <= s.q
    requires mcb == if st >= 2 then x + s.blocks[i].size - size else x
    requires tail == AllocMid(s.blocks[i], owner, size, st) + s.blocks[i + 1..]
    requires upper == UpperHeader(x, s.blocks[i], size, st)
    requires SameBut2(s.mem, m, x, upper) && Chain(m, x, s.q, tail, true)
    ensures var s' := State(m, s.p, s.q, AllocAt(s.blocks, i, owner, size, st));
      Step(s, Alloc(size, owner, st), s') && Allotted(s, s', size, owner, st, mcb, max, i)
  {
    assert AllocAt(s.blocks, i, owner, size, st) == s.blocks[..i] + tail;
    TailDone(s, m, i, tail, upper);
    assert Fits(s.blocks[i], size);
  }

  /** The bulk free has dealt with the first k blocks of now, starting from s. */
  ghost predicate SweptTo(s: State, now: State, owner: nat, k: nat) {
    && now.p == s.p && now.q == s.q
    && SweptBlocks(s.blocks, now.blocks, owner, k)
    && NotOf(Live(now.blocks, s.p), owner) == NotOf(Live(s.blocks, s.p), owner)
    && SweptData(s, now.mem, NotOf(Live(s.blocks, s.p), owner))
  }

  ghost predicate SweptBlocks(bs: seq<Block>, now: seq<Block>, owner: nat, k: nat) {
    k <= |now| && FreeOwned(bs, owner) == now[..k] + FreeOwned(now[k..], owner)
  }

  ghost predicate SweptData(s: State, m: seq<byte>, live: map<nat, Block>) {
    |m| == |s.mem| && forall a: nat, j: nat :: InData(live, a, j) && j < |m| ==> m[j] == s.mem[j]
  }

  lemma SweepStart(s: State, owner: nat)
    ensures SweptTo(s, s, owner, 0)
  {
    assert s.blocks[..0] == [] && s.blocks[0..] == s.blocks;
  }

  lemma SweepBlocks(bs: seq<Block>, now: seq<Block>, owner: nat, k: nat)
    requires SweptBlocks(bs, now, owner, k) && k < |now|
    ensures SweptBlocks(bs, if now[k].owner == owner then FreeAt(now, k) else now, owner, k + 1)
    ensures now[k].owner == owner ==> FreeAt(now, k)[..k] == now[..k] && |FreeAt(now, k)| <= |now|
  {
    if now[k].owner == owner {
      SweepFreed(bs, now, owner, k);
    } else {
      assert now[k..][1..] == now[k + 1..];
      assert now[..k + 1] == now[..k] + [now[k]];
    }
  }

  lemma SweepFreed(bs: seq<Block>, now: seq<Block>, owner: nat, k: nat)
    requires SweptBlocks(bs, now, owner, k) && k < |now| && now[k].owner == owner
    ensures SweptBlocks(bs, FreeAt(now, k), owner, k + 1)
    ensures FreeAt(now, k)[..k] == now[..k] && |FreeAt(now, k)| <= |now|
  {
    var b, rest, next := now[k], now[k + 1..], FreeAt(now, k);
    assert now[k..][1..] == rest;
    var merged := Block(0, b.size + FreeRun(rest));
    FreeRunSplit(rest);
    assert next == now[..k] + [merged] + DropFree(rest);
    assert next[..k + 1] == now[..k] + [merged] && next[k + 1..] == DropFree(rest);
  }

  lemma SweepStep(s: State, now: State, next: State, owner: nat, mcb: nat, k: nat)
    requires Inv(now) && SweptTo(s, now, owner, k) && IsAt(now, mcb, k)
    requires if now.blocks[k].owner == owner
             then Step(now, Request.Free(mcb), next) && next.blocks == FreeAt(now.blocks, k)
             else next == now
    ensures SweptTo(s, next, owner, k + 1) && IsAt(next, mcb, k) && |next.blocks| <= |now.blocks|
  {
    SweepBlocks(s.blocks, now.blocks, owner, k);
    if now.blocks[k].owner == owner {
      FreeLive(now.blocks, s.p, k);
      LiveKey(now.blocks, s.p, k);
      SweepLive(Live(now.blocks, s.p), owner, mcb);
      SweepData(s, now.mem, next.mem, NotOf(Live(s.blocks, s.p), owner), next.blocks, owner);
    }
  }

  lemma SweepData(s: State, m: seq<byte>, m': seq<byte>, live: map<nat, Block>, bs: seq<Block>, owner: nat)
    requires SweptData(s, m, live) && DataKept(m, m', bs, s.p) && live == NotOf(Live(bs, s.p), owner)
    ensures SweptData(s, m', live)
  {
    forall a: nat, j: nat | InData(live, a, j) && j < |m'| ensures m'[j] == s.mem[j] {
      assert InData(Live(bs, s.p), a, j);
    }
  }

  lemma SweepLive(live: map<nat, Block>, owner: nat, mcb: nat)
    requires mcb in live ==> live[mcb].owner == owner
    ensures NotOf(live - {mcb}, owner) == NotOf(live, owner)
  {
  }

  lemma SweepDone(s: State, now: State, owner: nat)
    requires Inv(s) && Inv(now) && SweptTo(s, now, owner, |now.blocks|)
    ensures now.blocks == FreeOwned(s.blocks, owner) && Step(s, FreeAll(owner), now)
  {
    assert now.blocks[..|now.blocks|] == now.blocks && now.blocks[|now.blocks|..] == [];
    assert now.blocks == FreeOwned(s.blocks, owner);
    FreeOwnedLive(s.blocks, s.p, owner);
    var live := NotOf(Live(s.blocks, s.p), owner);
    forall a: nat, j: nat | InData(Live(now.blocks, s.p), a, j) && j < |s.mem|
      ensures now.mem[j] == s.mem[j]
    {
      assert InData(live, a, j);
    }
  }

  /** The chain seen from block i. */
  lemma ChainFrom(m: seq<byte>, p: nat, q: nat, bs: seq<Block>, i: nat)
    requires 16 * q <= |m| && Chain(m, p, q, bs, true) && i < |bs|
    ensures var x := p + Span(bs[..i]);
      && x + 1 + bs[i].size <= q
      && Header(m, x, bs[i], bs[i + 1..] == [])
      && Chain(m, x + 1 + bs[i].size, q, bs[i + 1..], true)
  {
    assert bs == bs[..i] + bs[i..];
    assert bs[i..][1..] == bs[i + 1..];
    ChainSplit(m, p, q, bs[..i], bs[i..], true);
  }

  /** A suffix of the chain rebuilt in place gives a whole chain again. */
  lemma RebuildAt(m: seq<byte>, m': seq<byte>, p: nat, q: nat, bs: seq<Block>, i: nat, tail: seq<Block>)
    requires 16 * q <= |m| == |m'| && Chain(m, p, q, bs, true) && i < |bs| && tail != []
    requires p + Span(bs[..i]) <= q
    requires Same(m, m', p, p + Span(bs[..i])) && Chain(m', p + Span(bs[..i]), q, tail, true)
    ensures Chain(m', p, q, bs[..i] + tail, true)
  {
    assert bs == bs[..i] + bs[i..];
    ChainTail(m, m', p, q, bs[..i], bs[i..], tail);
  }

  lemma FromChain(m: seq<byte>, x: nat, q: nat, b: Block, rest: seq<Block>)
    requires 16 * q <= |m| && From(m, x, q, b, rest)
    ensures Chain(m, x, q, [b] + rest, true)
  {
    assert ([b] + rest)[1..] == rest;
  }

  lemma Disowned(s: State, m: seq<byte>, i: nat)
    requires Inv(s) && i < |s.blocks|
    requires var x := s.p + Span(s.blocks[..i]);
      && 16 * x + 5 <= |s.mem| && SameBut(s.mem, m, x)
      && m[16 * x] == s.mem[16 * x] && Get16(m, 16 * x + 1) == 0 && Get16(m, 16 * x + 3) == Get16(s.mem, 16 * x + 3)
    ensures From(m, s.p + Span(s.blocks[..i]), s.q, Block(0, s.blocks[i].size), s.blocks[i + 1..])
  {
    ChainFrom(s.mem, s.p, s.q, s.blocks, i);
    ChainFrame(s.mem, m, s.p + Span(s.blocks[..i]) + 1 + s.blocks[i].size, s.q, s.blocks[i + 1..], true);
  }

  /** The tail of the chain rebuilt from block i on by writing headers x and y only. */
  lemma TailDone(s: State, m: seq<byte>, i: nat, tail: seq<Block>, y: nat)
    requires Inv(s) && i < |s.blocks| && |s.mem| == |m| && tail != []
    requires var x := s.p + Span(s.blocks[..i]);
      && x <= s.q && SameBut2(s.mem, m, x, y)
      && (y == x || (|tail| > 1 && y == x + 1 + tail[0].size))
      && Chain(m, x, s.q, tail, true)
    ensures Inv(State(m, s.p, s.q, s.blocks[..i] + tail))
    ensures DataKept(s.mem, m, s.blocks[..i] + tail, s.p)
  {
    var bs' := s.blocks[..i] + tail;
    RebuildAt(s.mem, m, s.p, s.q, s.blocks, i, tail);
    assert bs'[..i] == s.blocks[..i];
    if y == s.p + Span(s.blocks[..i]) {
      HeadersOnly(s.mem, m, bs', s.p, i, i);
    } else {
      assert bs'[..i + 1] == s.blocks[..i] + [tail[0]];
      SpanConcat(s.blocks[..i], [tail[0]]);
      LiveOne(tail[0], y);
      HeadersOnly(s.mem, m, bs', s.p, i, i + 1);
    }
  }

  lemma FreeDone(s: State, m: seq<byte>, i: nat)
    requires Inv(s) && i < |s.blocks|
    requires var x := s.p + Span(s.blocks[..i]);
      && SameBut(s.mem, m, x)
      && x <= s.q && From(m, x, s.q, Block(0, Reach(s.blocks, i)), DropFree(s.blocks[i + 1..]))
    ensures Step(s, Request.Free(s.p + Span(s.blocks[..i])), State(m, s.p, s.q, FreeAt(s.blocks, i)))
  {
    var bs, x, merged, rest := s.blocks, s.p + Span(s.blocks[..i]), Block(0, Reach(s.blocks, i)), DropFree(s.blocks[i + 1..]);
    assert ([Block(0, bs[i].size)] + bs[i + 1..])[1..] == bs[i + 1..];
    assert FreeAt(bs, i) == bs[..i] + ([merged] + rest);
    FromChain(m, x, s.q, merged, rest);
    TailDone(s, m, i, [merged] + rest, x);
    assert IsAt(s, x, i);
  }

  /** What a resize puts in place of block b and the free run leading rest. */
  function ResizeTail(b: Block, rest: seq<Block>, size: nat): seq<Block> {
    var reach := b.size + FreeRun(rest);
    (if size < reach then [Block(b.owner, size), Block(0, reach - size - 1)] else [Block(b.owner, reach)]) + DropFree(rest)
  }

  lemma ResizeSame(s: State, mcb: nat, i: nat, size: nat)
    requires Inv(s) && IsAt(s, mcb, i) && size == s.blocks[i].size
    ensures ResizeAt(s.blocks, i, size) == s.blocks && Min(size, Reach(s.blocks, i)) == size
    ensures Step(s, Request.Resize(mcb, size), s)
  {
    assert IsAt(s, s.p + Span(s.blocks[..i]), i);
  }

  lemma ResizeDone(s: State, m: seq<byte>, mcb: nat, i: nat, size: nat)
    requires Inv(s) && IsAt(s, mcb, i) && size != s.blocks[i].size
    requires mcb <= s.q && |m| == |s.mem| && SameBut2(s.mem, m, mcb, if size < Reach(s.blocks, i) then mcb + size + 1 else mcb)
    requires Chain(m, mcb, s.q, ResizeTail(s.blocks[i], s.blocks[i + 1..], size), true)
    ensures Step(s, Request.Resize(mcb, size), State(m, s.p, s.q, ResizeAt(s.blocks, i, size)))
  {
    var bs := s.blocks;
    assert bs[i..][1..] == bs[i + 1..];
    assert ResizeAt(bs, i, size) == bs[..i] + ResizeTail(bs[i], bs[i + 1..], size);
    TailDone(s, m, i, ResizeTail(bs[i], bs[i + 1..], size), if size < Reach(bs, i) then mcb + size + 1 else mcb);
  }

  /** A block split in two by writing the upper header, then the lower one. */
  lemma SplitChain(m: seq<byte>, m1: seq<byte>, m2: seq<byte>, x: nat, q: nat, b: Block, low: Block, high: Block, rest: seq<Block>)
    requires 16 * q <= |m| && From(m, x, q, b, rest) && b.size == low.size + 1 + high.size
    requires SameBut(m, m1, x + low.size + 1) && Header(m1, x + low.size + 1, high, rest == [])
    requires SameBut(m1, m2, x) && Header(m2, x, low, false)
    ensures Chain(m2, x, q, [low, high] + rest, true)
    ensures SameBut2(m, m2, x, x + low.size + 1)
  {
    ChainFrame(m, m2, x + 1 + b.size, q, rest, true);
    var t := [high] + rest;
    assert t[1..] == rest;
    assert ([low, high] + rest)[1..] == t;
  }
}
