/** The XMS requests as the driver runs them: list walks, in-place merge and split, block move. */
module XmsManager {
  import opened Words
  import opened XmsList

  const EMB_BASE := 0x11_0000

  const SUCCESS: byte := 0x00
  const NOT_IMPLEMENTED: byte := 0x80
  const ALL_ALLOCATED: byte := 0xa0
  const HANDLES_EXHAUSTED: byte := 0xa1
  const HANDLE_INVALID: byte := 0xa2
  const BLOCK_LOCKED: byte := 0xa3
  const SRC_HANDLE_INVALID: byte := 0xa3
  const SRC_OFFSET_INVALID: byte := 0xa4
  const DST_HANDLE_INVALID: byte := 0xa5
  const DST_OFFSET_INVALID: byte := 0xa6
  const LENGTH_INVALID: byte := 0xa7
  const OVERLAP: byte := 0xa8
  const NOT_LOCKED: byte := 0xaa
  const LOCK_OVERFLOW: byte := 0xac

  function Max(a: nat, b: nat): nat {
    if a < b then b else a
  }

  /** Linear address of KB offset k. */
  function Linear(k: nat): nat {
    EMB_BASE + 1024 * k
  }

  /** Real-mode far pointer to linear address, with the 1 MB wrap. */
  function Conventional(pointer: dword): nat {
    (pointer / 0x1_0000 * 16 + pointer % 0x1_0000) % 0x10_0000
  }

  /** The high word is the segment, the low word the offset. */
  lemma ConventionalMeans(segment: word, offset: word)
    ensures Conventional(segment * 0x1_0000 + offset) == (16 * segment + offset) % 0x10_0000
  {
    QuotientUnique(segment * 0x1_0000 + offset, 0x1_0000, segment, offset);
  }

  /** The range check of the move request, in 32-bit arithmetic. */
  predicate RangeAccepted(e: Extent, offset: dword, len: dword) {
    (offset + len) % 0x1_0000_0000 <= e.size * 1024
  }

  /** The check means "inside the block" exactly when the 32-bit sum does not wrap into the block. */
  lemma RangeCheckExact(e: Extent, offset: dword, len: dword)
    requires e.size * 1024 < 0x8000_0000
    ensures (RangeAccepted(e, offset, len) <==> offset + len <= e.size * 1024)
       <==> offset + len < 0x1_0000_0000 || offset + len - 0x1_0000_0000 > e.size * 1024
  {
    if offset + len >= 0x1_0000_0000 {
      assert (offset + len) % 0x1_0000_0000 == offset + len - 0x1_0000_0000;
    }
  }

  /** One end of a move: its linear address, or the status that rejects it. */
  datatype End = At(address: nat) | Bad(status: byte)

  function Locate(es: seq<Extent>, handle: word, x: dword, len: dword, invalid: byte, outside: byte): End {
    if handle == 0 then At(Conventional(x))
    else
      var i := Find(es, handle);
      if i == |es| then Bad(invalid)
      else if !RangeAccepted(es[i], x, len) then Bad(outside)
      else At((x + EMB_BASE + es[i].offset * 1024) % 0x1_0000_0000)
  }

  lemma Rejects(es: seq<Extent>, handle: word, x: dword, len: dword, invalid: byte, outside: byte)
    ensures var e := Locate(es, handle, x, len, invalid, outside); e.Bad? ==> e.status in {invalid, outside}
  {
  }

  class Manager {
    const mem: array<byte>
    const total: nat
    var extents: seq<Extent>
    var lastHandle: nat

    ghost predicate Valid()
      reads this
    {
      Inv(extents, total) && Linear(total) <= mem.Length < 0x8000_0000
    }

    constructor (memory: array<byte>, kb: nat)
      requires Linear(kb) <= memory.Length < 0x8000_0000
      ensures Valid() && mem == memory && total == kb && extents == [Extent(kb, 0, 0, 0)]
    {
      mem, total := memory, kb;
      extents, lastHandle := [Extent(kb, 0, 0, 0)], 0;
      OneExtent(kb);
    }

    method SearchHandle(handle: nat) returns (i: nat)
      ensures i == Find(extents, handle)
    {
      i := 0;
      if handle == 0 {
        return |extents|;
      }
      while i < |extents|
        invariant i <= |extents| && Find(extents, handle) == i + Find(extents[i..], handle)
      {
        if extents[i].handle == handle {
          return i;
        }
        i := i + 1;
      }
    }

    /** Picks the best fit among the free extents and cuts it to size. */
    method SearchFree(kb: nat) returns (res: nat)
      requires exists j :: 0 <= j < |extents| && Fits(extents[j], kb)
      modifies `extents, `lastHandle
      ensures BestFit(old(extents), |old(extents)|, kb, res)
      ensures extents == Cut(old(extents), res, kb)
      ensures lastHandle == MaxHandle(old(extents))
    {
      res := Walk(kb);
      if extents[res].size > kb {
        var rest := Extent(extents[res].size - kb, extents[res].offset + kb, 0, 0);
        extents := extents[..res] + [extents[res].(size := kb), rest] + extents[res + 1..];
      }
    }

    /** The walk of the search, which also finds the largest handle. */
    method Walk(kb: nat) returns (res: nat)
      requires exists j :: 0 <= j < |extents| && Fits(extents[j], kb)
      modifies `lastHandle
      ensures BestFit(extents, |extents|, kb, res) && lastHandle == MaxHandle(extents)
    {
      var i: nat := 0;
      var found := false;
      res, lastHandle := 0, 0;
      while i < |extents|
        invariant i <= |extents|
        invariant if found then BestFit(extents, i, kb, res) else forall j :: 0 <= j < i ==> !Fits(extents[j], kb)
        invariant lastHandle == MaxHandle(extents[..i])
      {
        BestStep(extents, i, kb, found, res);
        PrefixSums(extents, i);
        if extents[i].handle == 0 && extents[i].size >= kb {
          if !found || extents[i].size < extents[res].size {
            found, res := true, i;
          }
        }
        if extents[i].handle > lastHandle {
          lastHandle := extents[i].handle;
        }
        i := i + 1;
      }
      assert extents[..i] == extents;
    }

    /** Merges neighbouring free extents in place while totalling them up. */
    method MergeFree() returns (freeTotal: nat, freeMax: nat)
      modifies `extents, `lastHandle
      ensures extents == Merge(old(extents))
      ensures freeTotal == FreeTotal(extents) && freeMax == FreeMax(extents)
      ensures lastHandle == MaxHandle(extents)
    {
      var i: nat := 0;
      freeTotal, freeMax, lastHandle := 0, 0, 0;
      while i < |extents|
        invariant i <= |extents|
        invariant Merge(old(extents)) == extents[..i] + Merge(extents[i..])
        invariant freeTotal == FreeTotal(extents[..i]) && freeMax == FreeMax(extents[..i])
        invariant lastHandle == MaxHandle(extents[..i])
        decreases |extents| - i
      {
        MergeStep(extents, i);
        PrefixSums(extents, i);
        if extents[i].handle == 0 && i + 1 < |extents| && extents[i + 1].handle == 0 {
          extents := MergePair(extents, i);
        } else {
          if extents[i].handle == 0 {
            freeTotal := freeTotal + extents[i].size;
            if freeMax < extents[i].size {
              freeMax := extents[i].size;
            }
          }
          if extents[i].handle > lastHandle {
            lastHandle := extents[i].handle;
          }
          i := i + 1;
        }
      }
      assert extents[..i] == extents;
    }

    method QueryFree() returns (ax: word, dx: word, bl: byte)
      requires Valid()
      modifies `extents, `lastHandle
      ensures Valid() && Step(old(extents), Query, extents)
      ensures ax == Min(FreeMax(extents), 0xFFFF) && dx == Min(FreeTotal(old(extents)), 0xFFFF)
      ensures bl == if FreeTotal(old(extents)) == 0 then ALL_ALLOCATED else SUCCESS
    {
      var t, m := MergeFree();
      StepInv(old(extents), Query, extents, total);
      MergeExact(old(extents));
      bl := if t == 0 then ALL_ALLOCATED else SUCCESS;
      ax, dx := Min(m, 0xFFFF), Min(t, 0xFFFF);
    }

    /** The fit must exist: the search dereferences its result before testing it. */
    method Allocate(kb: nat) returns (ax: word, dx: word, bl: byte)
      requires Valid() && exists j :: 0 <= j < |extents| && Fits(extents[j], kb)
      modifies `extents, `lastHandle
      ensures Valid() && Step(old(extents), Alloc(kb), extents)
      ensures ax == 0 <==> bl == HANDLES_EXHAUSTED
      ensures ax != 0 ==> ax == 1 && bl == SUCCESS && dx != 0 && forall e :: e in old(extents) ==> e.handle != dx
      ensures ax != 0 ==> exists e :: Holds(extents, dx, e) && e.size == kb
      ensures ax == 0 ==> MaxHandle(old(extents)) == 0xFFFF
    {
      var es := extents;
      var i := SearchFree(kb);
      MaxHandleBound(es);
      dx := 0;
      if lastHandle == 0xFFFF {
        ax, bl := 0, HANDLES_EXHAUSTED;
      } else {
        lastHandle := lastHandle + 1;
        extents := extents[i := extents[i].(handle := lastHandle)];
        ax, dx, bl := 1, lastHandle, SUCCESS;
        assert Holds(extents, dx, extents[i]) && extents[i].size == kb;
      }
      StepInv(es, Alloc(kb), extents, total);
    }

    method FreeBlock(handle: word) returns (ax: word, bl: byte)
      requires Valid()
      modifies `extents
      ensures Valid() && Step(old(extents), Free(handle), extents)
      ensures var i := Find(old(extents), handle);
        bl == (if i == |old(extents)| then HANDLE_INVALID else if old(extents)[i].locked != 0 then BLOCK_LOCKED else SUCCESS)
      ensures ax == if bl == SUCCESS then 1 else 0
    {
      var i := SearchHandle(handle);
      if i == |extents| {
        ax, bl := 0, HANDLE_INVALID;
      } else if extents[i].locked != 0 {
        ax, bl := 0, BLOCK_LOCKED;
      } else {
        extents := extents[i := extents[i].(handle := 0)];
        ax, bl := 1, SUCCESS;
      }
      StepInv(old(extents), Free(handle), extents, total);
    }

    /** A successful lock returns the block's linear address in DX:BX. */
    method LockBlock(handle: word) returns (ax: word, dx: word, bx: word, bl: byte)
      requires Valid()
      modifies `extents
      ensures Valid() && Step(old(extents), Lock(handle), extents)
      ensures ax == 1 <==> exists e :: Holds(old(extents), handle, e) && e.locked < 255
      ensures ax == 1 ==> bl == SUCCESS && exists e :: Holds(extents, handle, e) && e.locked > 0 && 0x1_0000 * dx + bx == Linear(e.offset)
      ensures ax == 0 <==> bl in {HANDLE_INVALID, LOCK_OVERFLOW}
    {
      var i := SearchHandle(handle);
      dx, bx := 0, 0;
      if i == |extents| {
        ax, bl := 0, HANDLE_INVALID;
      } else {
        OffsetBound(extents, 0, total, i);
        var address := EMB_BASE + extents[i].offset * 1024;
        dx, bx := address / 0x1_0000, address % 0x1_0000;
        if extents[i].locked >= 0xff {
          ax, bl := 0, LOCK_OVERFLOW;
        } else {
          extents := extents[i := extents[i].(locked := extents[i].locked + 1)];
          ax, bl := 1, SUCCESS;
          assert Holds(extents, handle, extents[i]);
          assert Holds(old(extents), handle, old(extents)[i]);
        }
      }
      LockExact(old(extents), handle);
      StepInv(old(extents), Lock(handle), extents, total);
    }

    method UnlockBlock(handle: word) returns (ax: word, bl: byte)
      requires Valid()
      modifies `extents
      ensures Valid() && Step(old(extents), Unlock(handle), extents)
      ensures var i := Find(old(extents), handle);
        bl == (if i == |old(extents)| then HANDLE_INVALID else if old(extents)[i].locked == 0 then NOT_LOCKED else SUCCESS)
      ensures ax == if bl == SUCCESS then 1 else 0
    {
      var i := SearchHandle(handle);
      if i == |extents| {
        ax, bl := 0, HANDLE_INVALID;
      } else if extents[i].locked == 0 {
        ax, bl := 0, NOT_LOCKED;
      } else {
        extents := extents[i := extents[i].(locked := extents[i].locked - 1)];
        ax, bl := 1, SUCCESS;
      }
      StepInv(old(extents), Unlock(handle), extents, total);
    }

    /** The move request. When both ends pass the checks the two ranges are required to lie in memory,
        the second not forward onto the tail of the first, which the driver leaves to memcpy. */
    method MoveBlock(len: dword, srcHandle: word, srcOffset: dword, dstHandle: word, dstOffset: dword)
      returns (ax: word, bl: byte)
      requires Valid()
      requires var s, d := Locate(extents, srcHandle, srcOffset, len, SRC_HANDLE_INVALID, SRC_OFFSET_INVALID),
                           Locate(extents, dstHandle, dstOffset, len, DST_HANDLE_INVALID, DST_OFFSET_INVALID);
        len % 2 == 0 && s.At? && d.At? ==>
          && s.address + len <= mem.Length && d.address + len <= mem.Length
          && (d.address <= s.address || s.address + len <= d.address)
      modifies mem
      ensures Valid()
      ensures var s, d := Locate(extents, srcHandle, srcOffset, len, SRC_HANDLE_INVALID, SRC_OFFSET_INVALID),
                          Locate(extents, dstHandle, dstOffset, len, DST_HANDLE_INVALID, DST_OFFSET_INVALID);
        && bl == (if len % 2 == 1 then LENGTH_INVALID
                  else if s.Bad? then s.status else if d.Bad? then d.status
                  else if d.address < s.address < d.address + len then OVERLAP else SUCCESS)
        && ax == (if bl == SUCCESS then 1 else 0)
        && (bl == SUCCESS ==> s.At? && d.At? && s.address + len <= mem.Length && d.address + len <= mem.Length)
        && forall k :: 0 <= k < mem.Length ==>
             mem[k] == if bl == SUCCESS && d.address <= k < d.address + len then old(mem[s.address + k - d.address]) else old(mem[k])
    {
      hide Locate;
      Rejects(extents, srcHandle, srcOffset, len, SRC_HANDLE_INVALID, SRC_OFFSET_INVALID);
      Rejects(extents, dstHandle, dstOffset, len, DST_HANDLE_INVALID, DST_OFFSET_INVALID);
      if len % 2 == 1 {
        return 0, LENGTH_INVALID;
      }
      var s := FindEnd(srcHandle, srcOffset, len, SRC_HANDLE_INVALID, SRC_OFFSET_INVALID);
      if s.Bad? {
        return 0, s.status;
      }
      var d := FindEnd(dstHandle, dstOffset, len, DST_HANDLE_INVALID, DST_OFFSET_INVALID);
      if d.Bad? {
        return 0, d.status;
      }
      var from, to := s.address, d.address;
      if from > to && from < to + len {
        return 0, OVERLAP;
      }
      Copy(from, to, len);
      return 1, SUCCESS;
    }

    /** One end of the move: conventional memory for handle 0, or a block with its range check. */
    method FindEnd(handle: word, x: dword, len: dword, invalid: byte, outside: byte) returns (e: End)
      ensures e == Locate(extents, handle, x, len, invalid, outside)
    {
      if handle == 0 {
        return At(Conventional(x));
      }
      var i := SearchHandle(handle);
      if i == |extents| {
        return Bad(invalid);
      }
      if (x + len) % 0x1_0000_0000 > extents[i].size * 1024 {
        return Bad(outside);
      }
      return At((x + EMB_BASE + extents[i].offset * 1024) % 0x1_0000_0000);
    }

    method Copy(from: nat, to: nat, len: nat)
      requires from + len <= mem.Length && to + len <= mem.Length
      requires to == from || to + len <= from || from + len <= to
      modifies mem
      ensures forall k :: 0 <= k < mem.Length ==>
        mem[k] == if to <= k < to + len then old(mem[from + k - to]) else old(mem[k])
    {
      var i: nat := 0;
      while i < len
        invariant i <= len
        invariant forall k :: 0 <= k < mem.Length ==>
          mem[k] == if to <= k < to + i then old(mem[from + k - to]) else old(mem[k])
      {
        mem[to + i] := mem[from + i];
        i := i + 1;
      }
    }

    /** The shrinking half of the resize request. Success is not reported as such: AX keeps the
        caller's value and BL says "not implemented". */
    method ShrinkBlock(handle: word, kb: nat, axIn: word) returns (ax: word, bl: byte)
      requires Valid()
      requires forall i :: i == Find(extents, handle) && i < |extents| ==> kb <= extents[i].size
      modifies `extents
      ensures Valid() && Step(old(extents), Shrink(handle, kb), extents)
      ensures var i := Find(old(extents), handle);
        bl == if i == |old(extents)| then HANDLE_INVALID else if old(extents)[i].locked != 0 then BLOCK_LOCKED else NOT_IMPLEMENTED
      ensures ax == if bl == NOT_IMPLEMENTED then axIn else 0
    {
      var i := SearchHandle(handle);
      ax, bl := axIn, NOT_IMPLEMENTED;
      if i == |extents| {
        ax, bl := 0, HANDLE_INVALID;
      } else if extents[i].locked != 0 {
        ax, bl := 0, BLOCK_LOCKED;
      } else if extents[i].size > kb {
        var fresh_ := Extent(extents[i].size - kb, extents[i].offset + kb, 0, 0);
        extents := extents[..i] + [extents[i].(size := kb), fresh_] + extents[i + 1..];
      }
      StepInv(old(extents), Shrink(handle, kb), extents, total);
    }
  }

  /** A range of a block that the driver accepts lies inside the block if and only if offset plus
      length stay below 4 GB. */
  lemma LocateInside(es: seq<Extent>, total: nat, handle: word, x: dword, len: dword, invalid: byte, outside: byte)
    requires Tiled(es, 0, total) && Linear(total) < 0x8000_0000 && handle != 0
    requires Locate(es, handle, x, len, invalid, outside).At?
    ensures var a, i := Locate(es, handle, x, len, invalid, outside).address, Find(es, handle);
      && i < |es| && es[i].offset + es[i].size <= total
      && (Linear(es[i].offset) <= a && a + len <= Linear(es[i].offset + es[i].size) <==> x + len < 0x1_0000_0000)
  {
    var i := Find(es, handle);
    OffsetBound(es, 0, total, i);
    var base := EMB_BASE + es[i].offset * 1024;
    if x + len >= 0x1_0000_0000 && x + base >= 0x1_0000_0000 {
      assert (x + EMB_BASE + es[i].offset * 1024) % 0x1_0000_0000 == x + base - 0x1_0000_0000;
    }
  }

  /** Every block accepts a move of 4 GB less two bytes from offset 2, an even length, although the
      range does not lie in it. */
  lemma RangeCheckWraps(es: seq<Extent>, total: nat, handle: word, invalid: byte, outside: byte)
    requires Tiled(es, 0, total) && Linear(total) < 0x8000_0000 && handle != 0 && Find(es, handle) < |es|
    ensures 0xFFFF_FFFE % 2 == 0
    ensures var end, e := Locate(es, handle, 2, 0xFFFF_FFFE, invalid, outside), es[Find(es, handle)];
      end.At? && !(Linear(e.offset) <= end.address && end.address + 0xFFFF_FFFE <= Linear(e.offset + e.size))
  {
    assert (2 + 0xFFFF_FFFE) % 0x1_0000_0000 == 0;
    LocateInside(es, total, handle, 2, 0xFFFF_FFFE, invalid, outside);
  }

  /** The byte ranges of two extents are disjoint. */
  lemma {:induction false} ExtentsApart(es: seq<Extent>, a: nat, b: nat, i: nat, j: nat)
    requires Tiled(es, a, b) && i < j < |es|
    ensures es[i].offset + es[i].size <= es[j].offset
    decreases es
  {
    if i == 0 {
      OffsetBound(es[1..], a + es[0].size, b, j - 1);
    } else {
      ExtentsApart(es[1..], a + es[0].size, b, i - 1, j - 1);
    }
  }

  /** A move between two different blocks is never refused for overlap, and its destination
      bytes belong to no other block and not to conventional memory. */
  lemma MoveConfined(es: seq<Extent>, total: nat, src: word, s: dword, dst: word, d: dword, len: dword)
    requires Inv(es, total) && Linear(total) < 0x8000_0000 && src != 0 && dst != 0 && src != dst
    requires s + len < 0x1_0000_0000 && d + len < 0x1_0000_0000
    requires Locate(es, src, s, len, SRC_HANDLE_INVALID, SRC_OFFSET_INVALID).At?
    requires Locate(es, dst, d, len, DST_HANDLE_INVALID, DST_OFFSET_INVALID).At?
    ensures var from := Locate(es, src, s, len, SRC_HANDLE_INVALID, SRC_OFFSET_INVALID).address;
      var to := Locate(es, dst, d, len, DST_HANDLE_INVALID, DST_OFFSET_INVALID).address;
      && (from + len <= to || to + len <= from)
      && EMB_BASE <= to
      && forall e: Extent :: e in es && e.handle != dst ==>
           to + len <= Linear(e.offset) || Linear(e.offset + e.size) <= to
  {
    LocateInside(es, total, src, s, len, SRC_HANDLE_INVALID, SRC_OFFSET_INVALID);
    LocateInside(es, total, dst, d, len, DST_HANDLE_INVALID, DST_OFFSET_INVALID);
    var i := Find(es, dst);
    forall e: Extent | e in es && e.handle != dst
      ensures e.offset + e.size <= es[i].offset || es[i].offset + es[i].size <= e.offset
    {
      var j :| 0 <= j < |es| && es[j] == e;
      if i < j {
        ExtentsApart(es, 0, total, i, j);
      } else {
        ExtentsApart(es, 0, total, j, i);
      }
    }
    assert es[Find(es, src)] in es;
  }

  lemma OneExtent(kb: nat)
    ensures Inv([Extent(kb, 0, 0, 0)], kb)
  {
    assert [Extent(kb, 0, 0, 0)][1..] == [];
  }

  /** Extent i absorbs its right neighbour. */
  function MergePair(es: seq<Extent>, i: nat): seq<Extent>
    requires i + 1 < |es|
  {
    es[..i] + [es[i].(size := es[i].size + es[i + 1].size)] + es[i + 2..]
  }

  /** One round of the merge loop, seen from extent i. */
  lemma MergeStep(es: seq<Extent>, i: nat)
    requires i < |es|
    ensures if es[i].handle == 0 && i + 1 < |es| && es[i + 1].handle == 0
            then var m := MergePair(es, i); m[..i] == es[..i] && Merge(m[i..]) == Merge(es[i..])
            else es[..i] + Merge(es[i..]) == es[..i + 1] + Merge(es[i + 1..])
  {
    var t := es[i..];
    assert t[1..] == es[i + 1..];
    if es[i].handle == 0 && i + 1 < |es| && es[i + 1].handle == 0 {
      assert MergePair(es, i)[i..] == [t[0].(size := t[0].size + t[1].size)] + t[2..];
    } else {
      assert Merge(t) == [es[i]] + Merge(es[i + 1..]);
      assert es[..i + 1] == es[..i] + [es[i]];
    }
  }

  lemma PrefixSums(es: seq<Extent>, i: nat)
    requires i < |es|
    ensures FreeTotal(es[..i + 1]) == FreeTotal(es[..i]) + (if es[i].handle == 0 then es[i].size else 0)
    ensures FreeMax(es[..i + 1]) == if es[i].handle == 0 then Max(FreeMax(es[..i]), es[i].size) else FreeMax(es[..i])
    ensures MaxHandle(es[..i + 1]) == Max(MaxHandle(es[..i]), es[i].handle)
  {
    assert es[..i + 1] == es[..i] + [es[i]];
    Snoc(es[..i], es[i]);
  }

  lemma BestStep(es: seq<Extent>, n: nat, kb: nat, found: bool, i: nat)
    requires n < |es|
    requires if found then BestFit(es, n, kb, i) else forall j :: 0 <= j < n ==> !Fits(es[j], kb)
    ensures if !Fits(es[n], kb) then
              (if found then BestFit(es, n + 1, kb, i) else forall j :: 0 <= j < n + 1 ==> !Fits(es[j], kb))
            else if !found || es[n].size < es[i].size then BestFit(es, n + 1, kb, n)
            else BestFit(es, n + 1, kb, i)
  {
  }

  lemma {:induction false} Snoc(es: seq<Extent>, e: Extent)
    ensures FreeTotal(es + [e]) == FreeTotal(es) + (if e.handle == 0 then e.size else 0)
    ensures FreeMax(es + [e]) == if e.handle == 0 then Max(FreeMax(es), e.size) else FreeMax(es)
    ensures MaxHandle(es + [e]) == Max(MaxHandle(es), e.handle)
  {
    if es == [] {
      assert [e][1..] == [];
    } else {
      assert (es + [e])[1..] == es[1..] + [e];
      Snoc(es[1..], e);
    }
  }

  /** Every extent lies inside the arena. */
  lemma {:induction false} OffsetBound(es: seq<Extent>, a: nat, b: nat, i: nat)
    requires Tiled(es, a, b) && i < |es|
    ensures a <= es[i].offset && es[i].offset + es[i].size <= b
    decreases es
  {
    TiledOrder(es[1..], a + es[0].size, b);
    if i > 0 {
      OffsetBound(es[1..], a + es[0].size, b, i - 1);
    }
  }

  lemma {:induction false} TiledOrder(es: seq<Extent>, a: nat, b: nat)
    requires Tiled(es, a, b)
    ensures a <= b
    decreases es
  {
    if es != [] {
      TiledOrder(es[1..], a + es[0].size, b);
    }
  }

  lemma LockExact(es: seq<Extent>, h: nat)
    requires Distinct(es)
    ensures (exists e :: Holds(es, h, e) && e.locked < 255) <==> Find(es, h) < |es| && es[Find(es, h)].locked < 255
  {
    if e :| Holds(es, h, e) && e.locked < 255 {
      FindHolds(es, h, e);
    }
    var i := Find(es, h);
    if i < |es| {
      assert Holds(es, h, es[i]);
    }
  }
}
