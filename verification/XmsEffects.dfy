/** What each XMS request does to the blocks in use, seen through their handles. */
module XmsEffects {
  import opened XmsList

  /** Replacing a block in use by another extent. */
  lemma PutMembers(es: seq<Extent>, i: nat, g: Extent, f: Extent)
    requires i < |es| && Distinct(es) && es[i].handle != 0 && f.handle != 0
    ensures f in es[i := g] <==> f == g || (f in es && f.handle != es[i].handle)
  {
    var r := es[i := g];
    if f in es && f.handle != es[i].handle {
      var j :| 0 <= j < |es| && es[j] == f;
      assert r[j] == f;
    }
    if f in r && f != g {
      var j :| 0 <= j < |r| && r[j] == f;
      assert es[j] == f;
    }
    assert r[i] == g;
  }

  lemma CutMembers(es: seq<Extent>, i: nat, kb: nat, f: Extent)
    requires i < |es| && kb < es[i].size && Distinct(es) && f.handle != 0
    ensures f in Cut(es, i, kb)
       <==> (es[i].handle != 0 && f == es[i].(size := kb)) || (f in es && f.handle != es[i].handle)
  {
    DistinctCut(es, i, kb);
    var c := Cut(es, i, kb);
    if f in es && f.handle == es[i].handle {
      FindHolds(es, f.handle, f);
      FindHolds(es, f.handle, es[i]);
    }
    if f in c && f.handle == es[i].handle {
      FindHolds(c, f.handle, f);
      FindHolds(c, f.handle, c[i]);
    }
    assert c[i] in c;
  }

  /** Which blocks are in use after a request other than an allocation: freeing takes an unlocked block
      away; locking and unlocking move the count of that block by one between 0 and 255; shrinking cuts
      an unlocked block that is larger; all other blocks stay as they are. */
  lemma UsedExact(es: seq<Extent>, r: Request, es': seq<Extent>, total: nat, f: Extent)
    requires Inv(es, total) && Step(es, r, es') && !r.Alloc? && f.handle != 0
    ensures f in es' <==>
      match r
      case Query => f in es
      case Free(h) => f in es && !(f.handle == h && f.locked == 0)
      case Lock(h) =>
        if f.handle != h then f in es
        else (f.locked == 255 && f in es) || (0 < f.locked <= 255 && f.(locked := f.locked - 1) in es)
      case Unlock(h) =>
        if f.handle != h then f in es
        else (f.locked == 0 && f in es) || f.(locked := f.locked + 1) in es
      case Shrink(h, kb) =>
        if f.handle != h then f in es
        else (f in es && (f.locked > 0 || f.size <= kb))
             || (f.locked == 0 && f.size == kb && exists size: nat :: size > kb && f.(size := size) in es)
  {
    match r
    case Query => MergeExact(es);
    case Shrink(h, kb) => ShrinkUsed(es, h, kb, es', f);
    case _ => CountUsed(es, r, es', total, f);
  }

  lemma Unique(es: seq<Extent>, i: nat, f: Extent)
    requires i < |es| && Distinct(es) && es[i].handle != 0 && f in es && f.handle == es[i].handle
    ensures f == es[i]
  {
    FindHolds(es, f.handle, f);
    FindHolds(es, f.handle, es[i]);
  }

  lemma ShrinkUsed(es: seq<Extent>, h: nat, kb: nat, es': seq<Extent>, f: Extent)
    requires Distinct(es) && Step(es, Shrink(h, kb), es') && f.handle != 0
    ensures f in es' <==>
      if f.handle != h then f in es
      else (f in es && (f.locked > 0 || f.size <= kb))
           || (f.locked == 0 && f.size == kb && exists size: nat :: size > kb && f.(size := size) in es)
  {
    var i := Find(es, h);
    if i < |es| {
      if es' != es {
        CutMembers(es, i, kb, f);
        assert es[i] in es && es[i].(size := es[i].size) == es[i];
      }
      if f in es && f.handle == h {
        Unique(es, i, f);
      }
      if size: nat :| f.handle == h && size > kb && f.(size := size) in es {
        Unique(es, i, f.(size := size));
      }
      if es' != es && f == es[i].(size := kb) {
        assert f.(size := es[i].size) == es[i];
      }
    }
  }

  lemma CountUsed(es: seq<Extent>, r: Request, es': seq<Extent>, total: nat, f: Extent)
    requires (r.Free? || r.Lock? || r.Unlock?) && Inv(es, total) && Step(es, r, es') && f.handle != 0
    ensures f in es' <==>
      if f.handle != r.handle then f in es
      else match r
        case Lock(h) => (f.locked == 255 && f in es) || (0 < f.locked <= 255 && f.(locked := f.locked - 1) in es)
        case Unlock(h) => (f.locked == 0 && f in es) || f.(locked := f.locked + 1) in es
        case _ => f in es && f.locked != 0
  {
    var i := Find(es, r.handle);
    if i < |es| {
      assert Sane(es[i]) && es[i] in es;
      PutMembers(es, i, es'[i], f);
      if f.handle == r.handle {
        if f in es {
          Unique(es, i, f);
        }
        if f.(locked := f.locked + 1) in es {
          Unique(es, i, f.(locked := f.locked + 1));
        }
        if f.locked > 0 && f.(locked := f.locked - 1) in es {
          Unique(es, i, f.(locked := f.locked - 1));
        }
        assert f == es[i].(locked := f.locked) ==> f.(locked := es[i].locked) == es[i];
      }
    }
  }

  /** An allocation adds one block, unlocked, of the size asked for, under a handle above all others;
      when the last handle is in use it adds none. All other blocks stay as they are. */
  lemma AllocUsed(es: seq<Extent>, kb: nat, es': seq<Extent>, total: nat)
    requires Inv(es, total) && Step(es, Alloc(kb), es')
    ensures exists new_: Extent ::
      && new_.size == kb && new_.locked == 0 && new_.handle == MaxHandle(es) + 1
      && forall f: Extent :: f.handle != 0 ==> (f in es' <==> f in es || (MaxHandle(es) < 0xFFFF && f == new_))
  {
    var i: nat :| BestFit(es, |es|, kb, i) && es' ==
      if MaxHandle(es) == 0xFFFF then Cut(es, i, kb) else Granted(es, i, kb);
    var new_ := es[i].(size := kb, handle := MaxHandle(es) + 1);
    assert Sane(es[i]);
    MaxHandleBound(es);
    forall f: Extent | f.handle != 0 ensures f in es' <==> f in es || (MaxHandle(es) < 0xFFFF && f == new_) {
      GrantMembers(es, i, kb, f);
    }
  }

  lemma GrantMembers(es: seq<Extent>, i: nat, kb: nat, f: Extent)
    requires i < |es| && Fits(es[i], kb) && Distinct(es) && f.handle != 0
    ensures f in Cut(es, i, kb) <==> f in es
    ensures f in Granted(es, i, kb) <==> f in es || f == es[i].(size := kb, handle := MaxHandle(es) + 1)
  {
    var c := Cut(es, i, kb);
    if kb < es[i].size {
      CutMembers(es, i, kb, f);
    }
    DistinctCut(es, i, kb);
    var g := Granted(es, i, kb);
    if f in c {
      var j :| 0 <= j < |c| && c[j] == f;
      assert g[j] == f;
    }
    assert g[i] == es[i].(size := kb, handle := MaxHandle(es) + 1);
    if f in g && f != g[i] {
      var j :| 0 <= j < |g| && g[j] == f;
      assert c[j] == f;
    }
  }
}
