/** Whole runs of the DOS memory services over memory images, with programs storing into
    their own blocks in between. */
module McbRuns {
  import opened Words
  import opened McbChain

  datatype State = State(mem: seq<byte>, p: nat, q: nat, blocks: seq<Block>)

  datatype Request =
    | Alloc(size: nat, owner: nat, strategy: nat)
    | Free(mcb: nat)
    | Resize(mcb: nat, size: nat)
    | FreeAll(owner: nat)
    | Store(k: nat, v: byte)

  ghost predicate Inv(s: State) {
    && 16 * s.q <= |s.mem|
    && 0 < s.p && s.q <= 0xFFFF
    && s.blocks != []
    && Chain(s.mem, s.p, s.q, s.blocks, true)
  }

  ghost predicate IsAt(s: State, mcb: nat, i: nat) {
    i < |s.blocks| && mcb == s.p + Span(s.blocks[..i])
  }

  /** The blocks request r leaves behind. */
  ghost predicate Rebuilt(s: State, r: Request, blocks: seq<Block>) {
    match r
    case Alloc(size, owner, st) =>
      if exists j :: 0 <= j < |s.blocks| && Fits(s.blocks[j], size)
      then exists i: nat :: Chosen(s.blocks, size, st, i) && blocks == AllocAt(s.blocks, i, owner, size, st)
      else blocks == s.blocks
    case Free(mcb) => exists i: nat :: IsAt(s, mcb, i) && blocks == FreeAt(s.blocks, i)
    case Resize(mcb, size) => exists i: nat :: IsAt(s, mcb, i) && blocks == ResizeAt(s.blocks, i, size)
    case FreeAll(owner) => blocks == FreeOwned(s.blocks, owner)
    case Store(_, _) => blocks == s.blocks
  }

  /** Request r takes s to s': the chain is rebuilt, live data stay, and a store hits live data only. */
  ghost predicate Step(s: State, r: Request, s': State) {
    && Inv(s')
    && s'.p == s.p && s'.q == s.q
    && Rebuilt(s, r, s'.blocks)
    && match r
       case Store(k, v) =>
         && k < |s.mem| && s'.mem == s.mem[k := v]
         && exists a: nat :: InData(Live(s.blocks, s.p), a, k)
       case _ => DataKept(s.mem, s'.mem, s'.blocks, s.p)
  }

  /** Storing into the data of a live block cannot break the chain. */
  lemma {:induction false} StoreKeepsChain(m: seq<byte>, p: nat, q: nat, bs: seq<Block>, a: nat, k: nat, v: byte, closed: bool)
    requires 16 * q <= |m| && Chain(m, p, q, bs, closed)
    requires InData(Live(bs, p), a, k)
    ensures k < 16 * q && Chain(m[k := v], p, q, bs, closed)
    decreases bs
  {
    var next := p + 1 + bs[0].size;
    LiveBounds(bs[1..], next);
    ChainSpan(m, next, q, bs[1..], closed);
    if a in Live(bs[1..], next) {
      StoreKeepsChain(m, next, q, bs[1..], a, k, v, closed);
    } else {
      ChainFrame(m, m[k := v], next, q, bs[1..], closed);
    }
  }

  /** Block a is released or resized by r. */
  predicate Releases(r: Request, a: nat, owner: nat) {
    match r
    case Free(mcb) => mcb == a
    case Resize(mcb, _) => mcb == a
    case FreeAll(o) => o == owner
    case _ => false
  }

  /** One request in the client's terms: at most one block appears, where none was; only the
      named blocks go or change size. */
  ghost predicate LiveStep(live: map<nat, Block>, r: Request, live': map<nat, Block>) {
    match r
    case Alloc(size, owner, _) => live' == live || exists a: nat :: a !in live && live' == live[a := Block(owner, size)]
    case Free(mcb) => live' == live - {mcb}
    case Resize(mcb, size) =>
      live' == live || exists got: nat :: got <= size && mcb in live && live' == live[mcb := Block(live[mcb].owner, got)]
    case FreeAll(owner) => live' == NotOf(live, owner)
    case Store(_, _) => live' == live
  }

  /** Every service on the chain refines the abstract allocator. */
  lemma StepLive(s: State, r: Request, s': State)
    requires Inv(s) && Step(s, r, s')
    ensures LiveStep(Live(s.blocks, s.p), r, Live(s'.blocks, s.p))
  {
    match r
    case Alloc(size, owner, st) => AllocStep(s, size, owner, st, s'.blocks);
    case Free(mcb) =>
      var i: nat :| IsAt(s, mcb, i) && s'.blocks == FreeAt(s.blocks, i);
      FreeLive(s.blocks, s.p, i);
    case Resize(mcb, size) => ResizeStep(s, mcb, size, s'.blocks);
    case FreeAll(owner) => FreeOwnedLive(s.blocks, s.p, owner);
    case Store(_, _) =>
  }

  lemma AllocStep(s: State, size: nat, owner: nat, st: nat, blocks: seq<Block>)
    requires Inv(s) && Rebuilt(s, Alloc(size, owner, st), blocks)
    ensures LiveStep(Live(s.blocks, s.p), Alloc(size, owner, st), Live(blocks, s.p))
  {
    if exists j :: 0 <= j < |s.blocks| && Fits(s.blocks[j], size) {
      var i: nat :| Chosen(s.blocks, size, st, i) && blocks == AllocAt(s.blocks, i, owner, size, st);
      AllocLive(s.blocks, s.p, i, owner, size, st);
    }
  }

  lemma ResizeStep(s: State, mcb: nat, size: nat, blocks: seq<Block>)
    requires Inv(s) && Rebuilt(s, Resize(mcb, size), blocks)
    ensures LiveStep(Live(s.blocks, s.p), Resize(mcb, size), Live(blocks, s.p))
  {
    hide Live, Reach, Span, Inv;
    var i: nat :| IsAt(s, mcb, i) && blocks == ResizeAt(s.blocks, i, size);
    ResizeLive(s.blocks, s.p, i, size);
    LiveKey(s.blocks, s.p, i);
    if s.blocks[i].owner != 0 {
      var live, got: nat := Live(s.blocks, s.p), Min(size, Reach(s.blocks, i));
      assert Live(blocks, s.p) == live[mcb := Block(live[mcb].owner, got)];
    }
  }

  lemma LiveStepKeeps(live: map<nat, Block>, r: Request, live': map<nat, Block>, a: nat)
    requires LiveStep(live, r, live') && a in live && !Releases(r, a, live[a].owner)
    ensures a in live' && live'[a] == live[a]
  {
  }

  /** What a byte holds after the stores of a run, if nothing else writes it. */
  function LastStored(rs: seq<Request>, k: nat, initial: byte): byte {
    if rs == [] then initial
    else match rs[0]
      case Store(j, v) => LastStored(rs[1..], k, if j == k then v else initial)
      case _ => LastStored(rs[1..], k, initial)
  }

  ghost predicate Run(states: seq<State>, rs: seq<Request>) {
    && |states| == |rs| + 1
    && Inv(states[0])
    && forall i :: 0 <= i < |rs| ==> Step(states[i], rs[i], states[i + 1])
  }

  lemma RunTail(states: seq<State>, rs: seq<Request>)
    requires Run(states, rs) && rs != []
    ensures Step(states[0], rs[0], states[1]) && Run(states[1..], rs[1..])
  {
    assert Step(states[0], rs[0], states[1]);
    forall i | 0 <= i < |rs[1..]| ensures Step(states[1..][i], rs[1..][i], states[1..][i + 1]) {
      assert Step(states[i + 1], rs[i + 1], states[i + 2]);
    }
  }

  /** Over any run, a block nobody releases stays where it is with its size, and its bytes
      behave as plain memory; the chain tiles the arena throughout. */
  lemma {:induction false} BlockSurvives(states: seq<State>, rs: seq<Request>, a: nat)
    requires Run(states, rs)
    requires a in Live(states[0].blocks, states[0].p)
    requires forall i :: 0 <= i < |rs| ==> !Releases(rs[i], a, Live(states[0].blocks, states[0].p)[a].owner)
    ensures var s, s' := states[0], states[|rs|];
      && Inv(s') && s'.p == s.p && s'.q == s.q
      && a in Live(s'.blocks, s.p) && Live(s'.blocks, s.p)[a] == Live(s.blocks, s.p)[a]
      && |s'.mem| == |s.mem|
      && forall k: nat :: InData(Live(s.blocks, s.p), a, k) && k < |s.mem| ==>
           s'.mem[k] == LastStored(rs, k, s.mem[k])
    decreases |rs|
  {
    hide Live, Chain, LiveStep, Rebuilt, Releases;
    if rs != [] {
      var s, s1 := states[0], states[1];
      RunTail(states, rs);
      StepLive(s, rs[0], s1);
      LiveStepKeeps(Live(s.blocks, s.p), rs[0], Live(s1.blocks, s.p), a);
      BlockSurvives(states[1..], rs[1..], a);
      forall k: nat | InData(Live(s.blocks, s.p), a, k) && k < |s.mem|
        ensures states[|rs|].mem[k] == LastStored(rs, k, s.mem[k])
      {
        assert InData(Live(s1.blocks, s.p), a, k);
      }
    }
  }

  // ---- a block that is resized on the way ----

  /** Request r frees block a. */
  predicate Frees(r: Request, a: nat, owner: nat) {
    !r.Resize? && Releases(r, a, owner)
  }

  lemma LiveStepHolds(live: map<nat, Block>, r: Request, live': map<nat, Block>, a: nat)
    requires LiveStep(live, r, live') && a in live && !Frees(r, a, live[a].owner)
    ensures a in live' && live'[a].owner == live[a].owner
    ensures live'[a].size == live[a].size || (r.Resize? && r.mcb == a && live'[a].size <= r.size)
  {
  }

  /** Byte k belongs to block a in every state of the run: it is below the smallest size the block has had. */
  ghost predicate AlwaysIn(states: seq<State>, a: nat, k: nat) {
    forall i :: 0 <= i < |states| ==> InData(Live(states[i].blocks, states[i].p), a, k)
  }

  /** Over any run a block nobody frees, whether resized or not, stays where it is with its owner, and
      the bytes it never gives up behave as plain memory. */
  lemma {:induction false} ResizedBlockStays(states: seq<State>, rs: seq<Request>, a: nat)
    requires Run(states, rs)
    requires a in Live(states[0].blocks, states[0].p)
    requires forall i :: 0 <= i < |rs| ==> !Frees(rs[i], a, Live(states[0].blocks, states[0].p)[a].owner)
    ensures var s, s' := states[0], states[|rs|];
      && Inv(s') && s'.p == s.p && |s'.mem| == |s.mem|
      && a in Live(s'.blocks, s.p) && Live(s'.blocks, s.p)[a].owner == Live(s.blocks, s.p)[a].owner
      && forall k: nat :: AlwaysIn(states, a, k) && k < |s.mem| ==> s'.mem[k] == LastStored(rs, k, s.mem[k])
    decreases |rs|
  {
    hide Live, Chain, LiveStep, Rebuilt, Frees;
    if rs != [] {
      var s, s1 := states[0], states[1];
      RunTail(states, rs);
      StepLive(s, rs[0], s1);
      LiveStepHolds(Live(s.blocks, s.p), rs[0], Live(s1.blocks, s.p), a);
      ResizedBlockStays(states[1..], rs[1..], a);
      forall k: nat | AlwaysIn(states, a, k) && k < |s.mem|
        ensures states[|rs|].mem[k] == LastStored(rs, k, s.mem[k])
      {
        assert InData(Live(s.blocks, s.p), a, k) && InData(Live(s1.blocks, s1.p), a, k);
        assert AlwaysIn(states[1..], a, k) by {
          forall i | 0 <= i < |states[1..]| ensures InData(Live(states[1..][i].blocks, states[1..][i].p), a, k) {
            assert states[1..][i] == states[i + 1];
          }
        }
        StepByte(s, rs[0], s1, a, k);
      }
    }
  }

  /** A byte in the block before and after a step changes only by a store to it. */
  lemma StepByte(s: State, r: Request, s': State, a: nat, k: nat)
    requires Inv(s) && Step(s, r, s') && k < |s.mem| == |s'.mem| && InData(Live(s'.blocks, s.p), a, k)
    ensures s'.mem[k] == LastStored([r], k, s.mem[k])
  {
    assert [r][1..] == [];
  }
}
