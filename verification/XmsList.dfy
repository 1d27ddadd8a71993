/** The extended memory blocks of the XMS manager as a list of extents, in KB, and what each
    request does to it. */
module XmsList {
  /** handle 0 marks a free extent. */
  datatype Extent = Extent(size: nat, offset: nat, locked: nat, handle: nat)

  datatype Request =
    | Query
    | Alloc(kb: nat)
    | Free(handle: nat)
    | Lock(handle: nat)
    | Unlock(handle: nat)
    | Shrink(handle: nat, kb: nat)

  /** First extent with the handle, or the length when there is none or the handle is 0. */
  function Find(es: seq<Extent>, handle: nat): (i: nat)
    ensures i <= |es|
    ensures i < |es| ==> es[i].handle == handle != 0
    ensures forall j :: 0 <= j < i && handle != 0 ==> es[j].handle != handle
  {
    if es == [] || handle == 0 then |es|
    else if es[0].handle == handle then 0
    else 1 + Find(es[1..], handle)
  }

  function MaxHandle(es: seq<Extent>): (h: nat)
    ensures forall e :: e in es ==> e.handle <= h
  {
    if es == [] then 0
    else
      var h := MaxHandle(es[1..]);
      if es[0].handle > h then es[0].handle else h
  }

  ghost predicate Fits(e: Extent, kb: nat) {
    e.handle == 0 && kb <= e.size
  }

  /** Extent i is the smallest free one that fits, the earliest among equals. */
  ghost predicate BestFit(es: seq<Extent>, n: nat, kb: nat, i: nat)
    requires n <= |es|
  {
    && i < n && Fits(es[i], kb)
    && forall j :: 0 <= j < n && Fits(es[j], kb) ==> es[i].size < es[j].size || (es[i].size == es[j].size && i <= j)
  }

  /** Extent i cut down to kb, the rest following as a free extent. */
  function Cut(es: seq<Extent>, i: nat, kb: nat): seq<Extent>
    requires i < |es| && kb <= es[i].size
  {
    if es[i].size == kb then es
    else es[..i] + [es[i].(size := kb), Extent(es[i].size - kb, es[i].offset + kb, 0, 0)] + es[i + 1..]
  }

  /** Every run of free extents becomes one. */
  function Merge(es: seq<Extent>): seq<Extent>
    decreases |es|
  {
    if |es| < 2 then es
    else if es[0].handle == 0 && es[1].handle == 0 then
      Merge([es[0].(size := es[0].size + es[1].size)] + es[2..])
    else
      [es[0]] + Merge(es[1..])
  }

  function FreeTotal(es: seq<Extent>): nat {
    if es == [] then 0 else (if es[0].handle == 0 then es[0].size else 0) + FreeTotal(es[1..])
  }

  function FreeMax(es: seq<Extent>): nat {
    if es == [] then 0
    else if es[0].handle == 0 && es[0].size > FreeMax(es[1..]) then es[0].size
    else FreeMax(es[1..])
  }

  // ---- what must hold in every state ----

  /** The extents lie back to back from KB a up to exactly KB b. */
  ghost predicate Tiled(es: seq<Extent>, a: nat, b: nat) {
    if es == [] then a == b else es[0].offset == a && Tiled(es[1..], a + es[0].size, b)
  }

  ghost predicate Distinct(es: seq<Extent>) {
    forall i, j :: 0 <= i < j < |es| && es[i].handle != 0 ==> es[i].handle != es[j].handle
  }

  ghost predicate Sane(e: Extent) {
    e.locked <= 255 && e.handle <= 0xFFFF && (e.handle == 0 ==> e.locked == 0)
  }

  ghost predicate Inv(es: seq<Extent>, total: nat) {
    && Tiled(es, 0, total)
    && Distinct(es)
    && forall e :: e in es ==> Sane(e)
  }

  /** The state after a request. A failing request changes nothing, but running out of handles
      still leaves the chosen free extent cut in two. */
  ghost predicate Step(es: seq<Extent>, r: Request, es': seq<Extent>) {
    match r
    case Query => es' == Merge(es)
    case Alloc(kb) =>
      exists i: nat :: BestFit(es, |es|, kb, i) && es' ==
        if MaxHandle(es) == 0xFFFF then Cut(es, i, kb) else Granted(es, i, kb)
    case Free(h) =>
      es' == var i := Find(es, h); if i == |es| || es[i].locked != 0 then es else es[i := es[i].(handle := 0)]
    case Lock(h) =>
      es' == var i := Find(es, h); if i == |es| || es[i].locked >= 255 then es else es[i := es[i].(locked := es[i].locked + 1)]
    case Unlock(h) =>
      es' == var i := Find(es, h); if i == |es| || es[i].locked == 0 then es else es[i := es[i].(locked := es[i].locked - 1)]
    case Shrink(h, kb) =>
      es' == var i := Find(es, h); if i == |es| || es[i].locked != 0 || es[i].size <= kb then es else Cut(es, i, kb)
  }

  function Granted(es: seq<Extent>, i: nat, kb: nat): seq<Extent>
    requires i < |es| && kb <= es[i].size
  {
    var cut := Cut(es, i, kb);
    cut[i := cut[i].(handle := MaxHandle(es) + 1)]
  }

  // ---- lemmas ----

  lemma {:induction false} TiledConcat(s: seq<Extent>, t: seq<Extent>, a: nat, b: nat)
    ensures Tiled(s + t, a, b) <==> Tiled(s, a, a + Extents(s)) && Tiled(t, a + Extents(s), b)
    decreases s
  {
    if s == [] {
      assert s + t == t;
    } else {
      assert (s + t)[1..] == s[1..] + t;
      TiledConcat(s[1..], t, a + s[0].size, b);
    }
  }

  function Extents(es: seq<Extent>): nat {
    if es == [] then 0 else es[0].size + Extents(es[1..])
  }

  /** The extents from i on may be replaced by others that tile the same stretch. */
  lemma TiledTail(es: seq<Extent>, i: nat, t: seq<Extent>, a: nat, b: nat)
    requires i < |es| && Tiled(es, a, b)
    ensures es[i].offset == a + Extents(es[..i])
    ensures Tiled(es[i + 1..], es[i].offset + es[i].size, b)
    ensures Tiled(t, es[i].offset, b) ==> Tiled(es[..i] + t, a, b)
  {
    assert es == es[..i] + es[i..];
    assert es[i..][1..] == es[i + 1..];
    TiledConcat(es[..i], es[i..], a, b);
    TiledConcat(es[..i], t, a, b);
  }

  /** Changing extent i but not its place keeps the tiling. */
  lemma TiledUpdate(es: seq<Extent>, i: nat, e: Extent, a: nat, b: nat)
    requires i < |es| && Tiled(es, a, b) && e.size == es[i].size && e.offset == es[i].offset
    ensures Tiled(es[i := e], a, b)
  {
    var t := [e] + es[i + 1..];
    assert t[1..] == es[i + 1..];
    TiledTail(es, i, t, a, b);
    assert es[i := e] == es[..i] + t;
  }

  lemma TiledCut(es: seq<Extent>, i: nat, kb: nat, a: nat, b: nat)
    requires i < |es| && kb <= es[i].size && Tiled(es, a, b)
    ensures Tiled(Cut(es, i, kb), a, b)
  {
    if kb != es[i].size {
      var high := [Extent(es[i].size - kb, es[i].offset + kb, 0, 0)] + es[i + 1..];
      var t := [es[i].(size := kb)] + high;
      assert high[1..] == es[i + 1..] && t[1..] == high;
      TiledTail(es, i, t, a, b);
      assert Tiled(high, es[i].offset + kb, b);
      assert Cut(es, i, kb) == es[..i] + t;
    }
  }

  lemma {:induction false} TiledMerge(es: seq<Extent>, a: nat, b: nat)
    requires Tiled(es, a, b)
    ensures Tiled(Merge(es), a, b)
    decreases |es|
  {
    if |es| >= 2 {
      if es[0].handle == 0 && es[1].handle == 0 {
        var m := [es[0].(size := es[0].size + es[1].size)] + es[2..];
        assert m[1..] == es[1..][1..];
        TiledMerge(m, a, b);
      } else {
        TiledMerge(es[1..], a + es[0].size, b);
        assert Merge(es)[1..] == Merge(es[1..]);
      }
    }
  }

  // ---- merging ----

  ghost predicate NoFreePair(es: seq<Extent>) {
    forall i :: 0 <= i < |es| - 1 ==> es[i].handle != 0 || es[i + 1].handle != 0
  }

  /** Merging loses no extent in use and no free KB, and leaves no two free neighbours. */
  lemma {:induction false} MergeExact(es: seq<Extent>)
    ensures forall e: Extent :: e.handle != 0 ==> (e in Merge(es) <==> e in es)
    ensures NoFreePair(Merge(es))
    ensures FreeTotal(Merge(es)) == FreeTotal(es)
    ensures |Merge(es)| > 0 <==> |es| > 0
    ensures |es| > 0 && es[0].handle != 0 ==> Merge(es)[0] == es[0]
    ensures |es| > 0 && es[0].handle == 0 ==> Merge(es)[0].handle == 0
    decreases |es|
  {
    if |es| >= 2 {
      if es[0].handle == 0 && es[1].handle == 0 {
        var m := [es[0].(size := es[0].size + es[1].size)] + es[2..];
        assert m[1..] == es[2..] && es[1..][1..] == es[2..];
        assert es == [es[0], es[1]] + es[2..];
        MergeExact(m);
      } else {
        MergeExact(es[1..]);
        assert es == [es[0]] + es[1..];
        assert Merge(es)[1..] == Merge(es[1..]);
      }
    }
  }

  lemma DistinctCons(e: Extent, es: seq<Extent>)
    ensures Distinct([e] + es) <==> Distinct(es) && (e.handle == 0 || forall f :: f in es ==> f.handle != e.handle)
  {
    var s := [e] + es;
    if Distinct(s) {
      forall i, j | 0 <= i < j < |es| && es[i].handle != 0 ensures es[i].handle != es[j].handle {
        assert s[i + 1].handle != s[j + 1].handle;
      }
      if e.handle != 0 {
        forall f | f in es ensures f.handle != e.handle {
          var j :| 0 <= j < |es| && es[j] == f;
          assert s[0].handle != s[j + 1].handle;
        }
      }
    }
  }

  lemma {:induction false} DistinctMerge(es: seq<Extent>)
    requires Distinct(es)
    ensures Distinct(Merge(es))
    decreases |es|
  {
    if |es| >= 2 {
      assert es == [es[0]] + es[1..];
      DistinctCons(es[0], es[1..]);
      if es[0].handle == 0 && es[1].handle == 0 {
        assert es[1..] == [es[1]] + es[2..];
        DistinctCons(es[1], es[2..]);
        DistinctCons(es[0].(size := es[0].size + es[1].size), es[2..]);
        DistinctMerge([es[0].(size := es[0].size + es[1].size)] + es[2..]);
      } else {
        DistinctMerge(es[1..]);
        MergeExact(es[1..]);
        DistinctCons(es[0], Merge(es[1..]));
      }
    }
  }

  lemma {:induction false} SaneMerge(es: seq<Extent>)
    requires forall e :: e in es ==> Sane(e)
    ensures forall e :: e in Merge(es) ==> Sane(e)
    decreases |es|
  {
    if |es| >= 2 {
      assert es == [es[0], es[1]] + es[2..];
      if es[0].handle == 0 && es[1].handle == 0 {
        assert Sane(es[0]);
        SaneMerge([es[0].(size := es[0].size + es[1].size)] + es[2..]);
      } else {
        SaneMerge(es[1..]);
      }
    }
  }

  // ---- whole runs ----

  lemma DistinctCut(es: seq<Extent>, i: nat, kb: nat)
    requires i < |es| && kb <= es[i].size && Distinct(es)
    ensures Distinct(Cut(es, i, kb))
    ensures forall e :: e in Cut(es, i, kb) ==>
      e in es || e == es[i].(size := kb) || e == Extent(es[i].size - kb, es[i].offset + kb, 0, 0)
    ensures forall e :: e in es && e != es[i] ==> e in Cut(es, i, kb)
    ensures Cut(es, i, kb)[i] == es[i].(size := kb)
  {
    var c := Cut(es, i, kb);
    if kb != es[i].size {
      assert forall j :: 0 <= j < |c| ==> c[j].handle == if j <= i then es[j].handle else if j == i + 1 then 0 else es[j - 1].handle;
      forall e | e in es && e != es[i] ensures e in c {
        var j :| 0 <= j < |es| && es[j] == e;
        assert c[if j < i then j else j + 1] == e;
      }
    }
  }

  lemma DistinctPut(es: seq<Extent>, i: nat, e: Extent)
    requires i < |es| && Distinct(es)
    requires e.handle == 0 || e.handle == es[i].handle || forall f :: f in es ==> f.handle != e.handle
    ensures Distinct(es[i := e])
  {
  }

  lemma {:induction false} MaxHandleBound(es: seq<Extent>)
    requires forall e :: e in es ==> Sane(e)
    ensures MaxHandle(es) <= 0xFFFF
  {
    if es != [] {
      assert Sane(es[0]);
      MaxHandleBound(es[1..]);
    }
  }

  /** Tiling, distinct handles and lock bounds survive every request. */
  lemma StepInv(es: seq<Extent>, r: Request, es': seq<Extent>, total: nat)
    requires Inv(es, total) && Step(es, r, es')
    ensures Inv(es', total)
  {
    match r
    case Query =>
      TiledMerge(es, 0, total);
      DistinctMerge(es);
      SaneMerge(es);
    case Alloc(kb) => AllocInv(es, kb, es', total);
    case Shrink(h, kb) =>
      var i := Find(es, h);
      if i < |es| && es[i].size > kb {
        CutInv(es, i, kb, total);
      }
    case _ => CountInv(es, r, es', total);
  }

  lemma AllocInv(es: seq<Extent>, kb: nat, es': seq<Extent>, total: nat)
    requires Inv(es, total) && Step(es, Alloc(kb), es')
    ensures Inv(es', total)
  {
    var i: nat :| BestFit(es, |es|, kb, i) && es' ==
      if MaxHandle(es) == 0xFFFF then Cut(es, i, kb) else Granted(es, i, kb);
    MaxHandleBound(es);
    CutInv(es, i, kb, total);
    if MaxHandle(es) != 0xFFFF {
      GrantInv(es, i, kb, total);
    }
  }

  lemma CountInv(es: seq<Extent>, r: Request, es': seq<Extent>, total: nat)
    requires (r.Free? || r.Lock? || r.Unlock?) && Inv(es, total) && Step(es, r, es')
    ensures Inv(es', total)
  {
    var i := Find(es, r.handle);
    if es' != es {
      assert Sane(es[i]);
      UpdateInv(es, i, es'[i], total);
    }
  }

  lemma CutInv(es: seq<Extent>, i: nat, kb: nat, total: nat)
    requires Inv(es, total) && i < |es| && kb <= es[i].size
    ensures Inv(Cut(es, i, kb), total)
  {
    TiledCut(es, i, kb, 0, total);
    DistinctCut(es, i, kb);
    assert Sane(es[i]);
  }

  lemma UpdateInv(es: seq<Extent>, i: nat, e: Extent, total: nat)
    requires Inv(es, total) && i < |es| && Sane(e)
    requires e.size == es[i].size && e.offset == es[i].offset
    requires e.handle == 0 || e.handle == es[i].handle || forall f :: f in es ==> f.handle != e.handle
    ensures Inv(es[i := e], total)
  {
    TiledUpdate(es, i, e, 0, total);
    DistinctPut(es, i, e);
    forall f | f in es[i := e] ensures Sane(f) {
      assert f in es || f == e;
    }
  }

  lemma GrantInv(es: seq<Extent>, i: nat, kb: nat, total: nat)
    requires Inv(es, total) && i < |es| && Fits(es[i], kb) && MaxHandle(es) < 0xFFFF
    ensures Inv(Granted(es, i, kb), total)
  {
    var c := Cut(es, i, kb);
    CutInv(es, i, kb, total);
    DistinctCut(es, i, kb);
    assert Sane(es[i]);
    forall f | f in c ensures f.handle <= MaxHandle(es) {
      assert f in es || f.handle == es[i].handle || f.handle == 0;
      assert es[i] in es;
    }
    UpdateInv(c, i, c[i].(handle := MaxHandle(es) + 1), total);
  }

  /** The block behind handle h, if any. */
  ghost predicate Holds(es: seq<Extent>, h: nat, e: Extent) {
    h != 0 && e in es && e.handle == h
  }

  lemma FindHolds(es: seq<Extent>, h: nat, e: Extent)
    requires Distinct(es) && Holds(es, h, e)
    ensures Find(es, h) < |es| && es[Find(es, h)] == e
  {
    var j :| 0 <= j < |es| && es[j] == e;
    assert es[j].handle == h;
  }

  function LocksAfter(n: nat, r: Request, h: nat): nat {
    match r
    case Lock(x) => if x == h && n < 255 then n + 1 else n
    case Unlock(x) => if x == h && n > 0 then n - 1 else n
    case _ => n
  }

  /** A locked block keeps place and size through any request; only lock and unlock calls on
      it move its count. */
  lemma StepLocked(es: seq<Extent>, r: Request, es': seq<Extent>, total: nat, h: nat, e: Extent)
    requires Inv(es, total) && Step(es, r, es') && Holds(es, h, e) && e.locked > 0
    ensures Holds(es', h, e.(locked := LocksAfter(e.locked, r, h)))
  {
    FindHolds(es, h, e);
    match r
    case Query => MergeExact(es);
    case Alloc(kb) =>
      var i: nat :| BestFit(es, |es|, kb, i) && es' ==
        if MaxHandle(es) == 0xFFFF then Cut(es, i, kb) else Granted(es, i, kb);
      CutHolds(es, i, kb, h, e);
    case Shrink(x, kb) =>
      if es' != es {
        CutHolds(es, Find(es, x), kb, h, e);
      }
    case _ => CountHolds(es, r, es', h, e);
  }

  lemma CutHolds(es: seq<Extent>, i: nat, kb: nat, h: nat, e: Extent)
    requires i < |es| && kb <= es[i].size && Distinct(es) && Holds(es, h, e) && e != es[i]
    ensures Holds(Cut(es, i, kb), h, e)
    ensures es[i].handle == 0 ==> Holds(Granted(es, i, kb), h, e)
  {
    DistinctCut(es, i, kb);
    var c := Cut(es, i, kb);
    var j :| 0 <= j < |c| && c[j] == e;
    if es[i].handle == 0 {
      assert Granted(es, i, kb)[j] == e;
    }
  }

  lemma CountHolds(es: seq<Extent>, r: Request, es': seq<Extent>, h: nat, e: Extent)
    requires (r.Free? || r.Lock? || r.Unlock?) && Step(es, r, es')
    requires Distinct(es) && Holds(es, h, e) && e.locked > 0
    ensures Holds(es', h, e.(locked := LocksAfter(e.locked, r, h)))
  {
    FindHolds(es, h, e);
    var k, i := Find(es, h), Find(es, r.handle);
    if i != k {
      assert es'[k] == e;
    } else {
      assert es'[k] == e.(locked := LocksAfter(e.locked, r, h));
    }
  }

  ghost predicate Run(states: seq<seq<Extent>>, rs: seq<Request>, total: nat) {
    && |states| == |rs| + 1
    && Inv(states[0], total)
    && forall i :: 0 <= i < |rs| ==> Step(states[i], rs[i], states[i + 1])
  }

  function LocksOver(n: nat, rs: seq<Request>, h: nat): nat
    decreases |rs|
  {
    if rs == [] then n else LocksOver(LocksAfter(n, rs[0], h), rs[1..], h)
  }

  /** As long as its lock count has not returned to zero, a block stays where its lock call said
      it is, with its size, whatever runs in between; and all invariants hold throughout. */
  lemma {:induction false} LockedBlockStays(states: seq<seq<Extent>>, rs: seq<Request>, total: nat, h: nat, e: Extent)
    requires Run(states, rs, total) && Holds(states[0], h, e)
    requires forall k :: 0 <= k < |rs| ==> LocksOver(e.locked, rs[..k], h) > 0
    ensures Inv(states[|rs|], total)
    ensures Holds(states[|rs|], h, e.(locked := LocksOver(e.locked, rs, h)))
    decreases |rs|
  {
    if rs == [] {
      assert e.(locked := e.locked) == e;
    } else {
      assert rs[..0] == [];
      assert Step(states[0], rs[0], states[1]);
      StepLocked(states[0], rs[0], states[1], total, h, e);
      StepInv(states[0], rs[0], states[1], total);
      var e' := e.(locked := LocksAfter(e.locked, rs[0], h));
      assert Run(states[1..], rs[1..], total) by {
        forall i | 0 <= i < |rs[1..]| ensures Step(states[1..][i], rs[1..][i], states[1..][i + 1]) {
          assert Step(states[i + 1], rs[i + 1], states[i + 2]);
        }
      }
      forall k | 0 <= k < |rs[1..]| ensures LocksOver(e'.locked, rs[1..][..k], h) > 0 {
        assert LocksOver(e.locked, rs[..k + 1], h) > 0;
        assert rs[..k + 1][1..] == rs[1..][..k];
      }
      LockedBlockStays(states[1..], rs[1..], total, h, e');
    }
  }
}
