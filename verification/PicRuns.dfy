/** Properties of the interrupt controllers over whole runs. */
module PicRuns {
  import opened Wrappers
  import opened Pic

  datatype Event = PortWrite(port: nat, v: bv8) | EndOfIrq(num: nat) | Request(num: nat) | Poll

  function After(p: Pair, e: Event): Pair {
    match e
    case PortWrite(port, v) => Write(p, port, v)
    case EndOfIrq(num) => Eoi(p, num)
    case Request(num) => Trigger(p, num)
    case Poll => Handle(p)
  }

  function Run(p: Pair, es: seq<Event>): Pair
    decreases |es|
  {
    if es == [] then p else Run(After(p, es[0]), es[1..])
  }

  /** The interrupt line, 0 to 15, delivered to the processor by one event. */
  function Delivered(p: Pair, e: Event): Option<nat> {
    if e != Poll || MasterPick(p).None? then None
    else if MasterPick(p).value != CASCADE then MasterPick(p)
    else if SlavePick(p).Some? then Some(8 + SlavePick(p).value)
    else None
  }

  // ---- initialization ----

  ghost predicate SaneChip(c: Chip) {
    c.initializing <= 3 && (c.initializing != 0 ==> c.irr == {})
  }

  /** A chip being initialized requests nothing. */
  ghost predicate Sane(p: Pair) {
    SaneChip(p.master) && SaneChip(p.slave)
  }

  lemma {:induction false} ScanFound(c: Chip, smm: Lines, exempt: bool, i: nat)
    ensures var r := Scan(c, smm, exempt, i);
      r.Some? ==>
        && i <= r.value < 8 && r.value in c.irr
        && (!c.specialMask ==> r.value !in c.imr)
    decreases 8 - i
  {
    if i < 8 {
      ScanFound(c, smm, exempt, i + 1);
    }
  }

  lemma PollSound(p: Pair)
    requires Sane(p)
    ensures SlavePick(p).Some? ==> p.slave.initializing == 0 && SlavePick(p).value < 8 && SlavePick(p).value in p.slave.irr
    ensures MasterPick(p).Some? ==> p.master.initializing == 0 && MasterPick(p).value < 8 && MasterPick(p).value in Cascaded(p).master.irr
  {
    ScanFound(p.slave, p.slave.imr, false, 0);
    ScanFound(Cascaded(p).master, p.slave.imr, p.master.specialNest, 0);
  }

  lemma WriteSane(c: Chip, o: Order, v: bv8)
    requires SaneChip(c)
    ensures SaneChip(Command(c, o)) && SaneChip(Data(c, v))
  {
  }

  lemma StepSane(p: Pair, e: Event)
    requires Sane(p)
    ensures Sane(After(p, e))
  {
    match e
    case PortWrite(port, v) =>
      WriteSane(p.master, OrderOf(v), v);
      WriteSane(p.slave, OrderOf(v), v);
    case Poll => PollSound(p);
    case _ =>
  }

  /** An interrupt is delivered only for a requested line of a chip in operation, which outside
      special mask mode is unmasked, as is the cascade line in front of the slave. */
  lemma DeliveredSound(p: Pair, e: Event)
    requires Sane(p) && Delivered(p, e).Some?
    ensures var n := Delivered(p, e).value;
      var c, line := if n < 8 then p.master else p.slave, if n < 8 then n else n - 8;
      && n < 16 && n != CASCADE
      && c.initializing == 0 && line in c.irr
      && (!c.specialMask ==> line !in c.imr)
      && (n >= 8 && !p.master.specialMask ==> CASCADE !in p.master.imr)
    ensures Raised(p) == Some(if Delivered(p, e).value < 8 then Vector(p.master.base, Delivered(p, e).value)
                              else Vector(p.slave.base, Delivered(p, e).value - 8))
  {
    PollSound(p);
    ScanFound(p.slave, p.slave.imr, false, 0);
    ScanFound(Cascaded(p).master, p.slave.imr, p.master.specialNest, 0);
  }

  // ---- every delivery answers a request of its own ----

  /** The line is requested and not yet delivered. */
  predicate Waiting(c: Chip, line: nat) {
    line in c.irr || (c.initializing != 0 && line in c.pending)
  }

  predicate Outstanding(p: Pair, n: nat) {
    if n < 8 then Waiting(p.master, n) else Waiting(p.slave, n - 8)
  }

  function One(b: bool): nat {
    if b then 1 else 0
  }

  lemma WriteAddsNone(c: Chip, o: Order, v: bv8, line: nat)
    requires SaneChip(c)
    ensures Waiting(Command(c, o), line) ==> Waiting(c, line)
    ensures Waiting(Data(c, v), line) ==> Waiting(c, line)
  {
  }

  lemma TriggerAddsOne(c: Chip, line: nat, other: nat)
    ensures Waiting(TriggerChip(c, line), other) ==> Waiting(c, other) || other == line
  {
  }

  lemma AcceptTakesOne(c: Chip, line: nat, service: nat, other: nat)
    requires c.initializing == 0
    ensures Waiting(Accept(c, line, service), other) <==> Waiting(c, other) && other != line
  {
  }

  lemma PollTakesOne(p: Pair, n: nat)
    requires Sane(p) && n < 16 && n != CASCADE
    ensures One(Delivered(p, Poll) == Some(n)) + One(Outstanding(Handle(p), n)) == One(Outstanding(p, n))
  {
    PollSound(p);
    var q, i, k := Cascaded(p), MasterPick(p), SlavePick(p);
    TriggerAddsOne(p.master, CASCADE, n);
    if i.Some? {
      AcceptTakesOne(q.master, i.value, i.value, n);
      if k.Some? && n >= 8 {
        AcceptTakesOne(q.slave, k.value, CASCADE, n - 8);
      }
    }
  }

  lemma StepAccounts(p: Pair, e: Event, n: nat)
    requires Sane(p) && n < 16 && n != CASCADE
    ensures One(Delivered(p, e) == Some(n)) + One(Outstanding(After(p, e), n))
         <= One(Outstanding(p, n)) + One(e == Request(n))
  {
    match e
    case PortWrite(port, v) =>
      WriteAddsNone(p.master, OrderOf(v), v, n);
      WriteAddsNone(p.slave, OrderOf(v), v, if n < 8 then n else n - 8);
    case EndOfIrq(num) =>
    case Request(num) =>
      TriggerAddsOne(p.master, num, n);
      if num >= 8 && n >= 8 {
        TriggerAddsOne(p.slave, num - 8, n - 8);
      }
    case Poll => PollTakesOne(p, n);
  }

  function Deliveries(p: Pair, es: seq<Event>, n: nat): nat
    decreases |es|
  {
    if es == [] then 0 else One(Delivered(p, es[0]) == Some(n)) + Deliveries(After(p, es[0]), es[1..], n)
  }

  function Requests(es: seq<Event>, n: nat): nat {
    if es == [] then 0 else One(es[0] == Request(n)) + Requests(es[1..], n)
  }

  /** Over any run, in any mode, a line is delivered at most as often as it was requested, one
      delivery per request. */
  lemma {:induction false} NeverMoreThanRequested(p: Pair, es: seq<Event>, n: nat)
    requires Sane(p) && n < 16 && n != CASCADE
    ensures Deliveries(p, es, n) + One(Outstanding(Run(p, es), n)) <= One(Outstanding(p, n)) + Requests(es, n)
    ensures Sane(Run(p, es))
    decreases |es|
  {
    if es != [] {
      StepSane(p, es[0]);
      StepAccounts(p, es[0], n);
      NeverMoreThanRequested(After(p, es[0]), es[1..], n);
    }
  }

  // ---- fully nested mode ----

  /** Line k is the one a chip in fully nested mode must serve: requested, unmasked, above every
      line in service and above every other such request. */
  ghost predicate Foremost(c: Chip, k: nat) {
    && k < 8 && k in c.irr && k !in c.imr
    && (forall j :: j in c.isr ==> k < j)
    && (forall j: nat :: j < k && j in c.irr ==> j in c.imr)
  }

  /** Line j is in service and counts as such for the scan. */
  predicate Held(c: Chip, exempt: bool, j: nat) {
    j in c.isr && !(exempt && j == CASCADE)
  }

  /** The scan goes past line j. */
  predicate PassedOver(c: Chip, smm: Lines, exempt: bool, j: nat) {
    if Held(c, exempt, j) then c.specialMask && j in smm else j in c.irr ==> !c.specialMask && j in c.imr
  }

  /** In any mode the scan stops at line k if and only if k is requested, not in service and, outside
      special mask mode, not masked, and the scan goes past every line before it. */
  lemma {:induction false} ScanExact(c: Chip, smm: Lines, exempt: bool, i: nat, k: nat)
    ensures Scan(c, smm, exempt, i) == Some(k) <==>
      && i <= k < 8 && k in c.irr && !Held(c, exempt, k) && (c.specialMask || k !in c.imr)
      && forall j: nat :: i <= j < k ==> PassedOver(c, smm, exempt, j)
    decreases 8 - i
  {
    if i < 8 {
      ScanExact(c, smm, exempt, i + 1, k);
      if i < k {
        assert (forall j: nat :: i <= j < k ==> PassedOver(c, smm, exempt, j))
          <==> PassedOver(c, smm, exempt, i) && forall j: nat :: i + 1 <= j < k ==> PassedOver(c, smm, exempt, j);
      }
    }
  }

  /** Which line each chip picks, in any mode. The master's special mask mode goes by the slave's mask
      register, its special nested mode exempts line 2. */
  lemma PickExact(p: Pair, k: nat)
    ensures var c := p.slave;
      SlavePick(p) == Some(k) <==>
        && k < 8 && k in c.irr && k !in c.isr && (c.specialMask || k !in c.imr)
        && forall j: nat :: j < k ==> PassedOver(c, c.imr, false, j)
    ensures var c := Cascaded(p).master;
      MasterPick(p) == Some(k) <==>
        && k < 8 && k in c.irr && !Held(c, c.specialNest, k) && (c.specialMask || k !in c.imr)
        && forall j: nat :: j < k ==> PassedOver(c, p.slave.imr, c.specialNest, j)
  {
    CascadeKeepsBases(p);
    ScanExact(p.slave, p.slave.imr, false, 0, k);
    ScanExact(Cascaded(p).master, p.slave.imr, Cascaded(p).master.specialNest, 0, k);
  }

  ghost predicate Nested(c: Chip) {
    !c.specialMask && !c.specialNest && !c.autoEoi
  }

  /** The master dispatches a line exactly when it is the foremost one. */
  lemma DispatchExact(p: Pair, k: nat)
    requires Nested(p.master)
    ensures MasterPick(p) == Some(k) <==> Foremost(Cascaded(p).master, k)
  {
    var c := Cascaded(p).master;
    PickExact(p, k);
    forall j: nat | j < k ensures PassedOver(c, p.slave.imr, false, j) <==> j !in c.isr && (j in c.irr ==> j in c.imr) {
    }
  }

  /** Lines in service in the order they were dispatched, latest first, as events alone tell it:
      a dispatch pushes, a non-specific EOI pops, a specific EOI takes out its line. */
  function Served(stack: seq<nat>, p: Pair, e: Event): seq<nat> {
    match e
    case Poll => if MasterPick(p).Some? then [MasterPick(p).value] + stack else stack
    case Request(_) => stack
    case EndOfIrq(num) =>
      if num < 8 then Without(stack, num)
      else if Eoi(p, num).slave.isr == {} then Without(stack, CASCADE)
      else stack
    case PortWrite(port, v) =>
      if Decode(port) != MasterCommand then stack
      else Ordered(stack, OrderOf(v))
  }

  function Ordered(stack: seq<nat>, o: Order): seq<nat> {
    match o
    case Icw1 => []
    case RetireHighest => if stack == [] then [] else stack[1..]
    case Retire(line) => Without(stack, line)
    case _ => stack
  }

  function Without(s: seq<nat>, x: nat): seq<nat> {
    if s == [] then [] else if s[0] == x then Without(s[1..], x) else [s[0]] + Without(s[1..], x)
  }

  ghost predicate Increasing(s: seq<nat>) {
    forall i, j :: 0 <= i < j < |s| ==> s[i] < s[j]
  }

  /** The history is strictly increasing and names exactly the in-service bits. */
  ghost predicate Mirrors(stack: seq<nat>, isr: Lines) {
    Increasing(stack) && forall x: nat :: x in stack <==> x in isr
  }

  lemma {:induction false} WithoutMirrors(s: seq<nat>, x: nat)
    requires Increasing(s)
    ensures Increasing(Without(s, x))
    ensures forall y: nat :: y in Without(s, x) <==> y in s && y != x
  {
    if s != [] {
      var t := s[1..];
      assert Increasing(t);
      WithoutMirrors(t, x);
      assert forall y: nat :: y in s <==> y == s[0] || y in t;
      var r := Without(t, x);
      forall i | 0 <= i < |r| ensures s[0] < r[i] {
        assert r[i] in t;
        var k :| 0 <= k < |t| && t[k] == r[i];
        assert s[k + 1] == r[i];
      }
    }
  }

  lemma TopIsHead(stack: seq<nat>, isr: Lines)
    requires Mirrors(stack, isr)
    ensures if stack == [] then Top(isr, 0) == 8 else Top(isr, 0) == stack[0]
    ensures Mirrors(if stack == [] then [] else stack[1..], isr - {Top(isr, 0)})
  {
    var t := Top(isr, 0);
    if stack == [] {
      assert forall x: nat :: x in isr ==> x in stack;
    } else {
      assert stack[0] in isr;
      assert t in stack;
      var rest := stack[1..];
      assert forall x: nat :: x in stack <==> x == stack[0] || x in rest;
      forall x | x in rest ensures stack[0] < x {
        var i :| 0 <= i < |rest| && rest[i] == x;
        assert x == stack[i + 1];
      }
    }
  }

  lemma PushMirrors(stack: seq<nat>, isr: Lines, k: nat)
    requires Mirrors(stack, isr) && k < 8 && forall j :: j in isr ==> k < j
    ensures Mirrors([k] + stack, Set(isr, k))
  {
    forall i | 0 <= i < |stack| ensures k < stack[i] {
      assert stack[i] in stack;
    }
  }

  lemma CommandMirrors(stack: seq<nat>, c: Chip, o: Order)
    requires Mirrors(stack, c.isr)
    ensures Mirrors(Ordered(stack, o), Command(c, o).isr)
  {
    match o
    case RetireHighest => TopIsHead(stack, c.isr);
    case Retire(line) => WithoutMirrors(stack, line);
    case _ =>
  }

  lemma PollMirrors(stack: seq<nat>, p: Pair)
    requires Nested(p.master) && Mirrors(stack, p.master.isr)
    ensures Mirrors(Served(stack, p, Poll), After(p, Poll).master.isr)
    ensures MasterPick(p).Some? ==> forall x :: x in stack ==> MasterPick(p).value < x
  {
    if MasterPick(p).Some? {
      DispatchExact(p, MasterPick(p).value);
      PushMirrors(stack, p.master.isr, MasterPick(p).value);
    }
  }

  lemma EndMirrors(stack: seq<nat>, p: Pair, num: nat)
    requires Mirrors(stack, p.master.isr)
    ensures Mirrors(Served(stack, p, EndOfIrq(num)), After(p, EndOfIrq(num)).master.isr)
  {
    WithoutMirrors(stack, if num < 8 then num else CASCADE);
  }

  lemma ServedMirrors(stack: seq<nat>, p: Pair, e: Event)
    requires Nested(p.master) && Mirrors(stack, p.master.isr)
    ensures Mirrors(Served(stack, p, e), After(p, e).master.isr)
    ensures e == Poll && MasterPick(p).Some? ==> forall x :: x in stack ==> MasterPick(p).value < x
  {
    match e
    case Poll => PollMirrors(stack, p);
    case Request(_) =>
    case EndOfIrq(num) => EndMirrors(stack, p, num);
    case PortWrite(port, v) =>
      if Decode(port) == MasterCommand {
        CommandMirrors(stack, p.master, OrderOf(v));
      }
  }

  /** The master stays in fully nested mode all through the run. */
  ghost predicate NestedRun(p: Pair, es: seq<Event>)
    decreases |es|
  {
    Nested(p.master) && (es == [] || NestedRun(After(p, es[0]), es[1..]))
  }

  function History(stack: seq<nat>, p: Pair, es: seq<Event>): seq<nat>
    decreases |es|
  {
    if es == [] then stack else History(Served(stack, p, es[0]), After(p, es[0]), es[1..])
  }

  /** Over any run in fully nested mode the in-service register is a stack: its bits are the
      dispatch history, priorities rise strictly towards the latest dispatch, every dispatch
      outranks all lines in service, and the non-specific EOI retires the latest. */
  lemma {:induction false} ServiceIsStack(stack: seq<nat>, p: Pair, es: seq<Event>)
    requires NestedRun(p, es) && Mirrors(stack, p.master.isr)
    ensures var h, q := History(stack, p, es), Run(p, es);
      && Mirrors(h, q.master.isr)
      && (forall k :: MasterPick(q) == Some(k) ==> forall x :: x in h ==> k < x)
      && (h != [] ==> Command(q.master, RetireHighest).isr == q.master.isr - {h[0]})
    decreases |es|
  {
    if es == [] {
      TopIsHead(stack, p.master.isr);
      ServedMirrors(stack, p, Poll);
    } else {
      ServedMirrors(stack, p, es[0]);
      ServiceIsStack(Served(stack, p, es[0]), After(p, es[0]), es[1..]);
    }
  }

  lemma ServiceIsStackFromReset(es: seq<Event>)
    requires NestedRun(RESET, es)
    ensures Mirrors(History([], RESET, es), Run(RESET, es).master.isr)
  {
    ServiceIsStack([], RESET, es);
  }

  /** A dispatch of the cascade line without an interrupt: line 2 was requested earlier, but by
      now the slave has nothing it would serve. The line is in service all the same. */
  lemma SilentDispatch(p: Pair)
    requires Nested(p.master)
    ensures MasterPick(p).Some? && Raised(p).None? <==> SlavePick(p).None? && Foremost(p.master, CASCADE)
    ensures SlavePick(p).None? && Foremost(p.master, CASCADE) ==> CASCADE in Handle(p).master.isr
  {
    DispatchExact(p, CASCADE);
  }

  // ---- requests arriving during initialization ----

  /** Chip m (master or slave) is given no other initialization word than ICW2 and ICW3. */
  ghost predicate StillInitializing(p: Pair, m: bool, es: seq<Event>)
    decreases |es|
  {
    && ChipOf(p, m).initializing in {1, 2, 3}
    && (es == [] || (!Restarts(m, es[0]) && StillInitializing(After(p, es[0]), m, es[1..])))
  }

  predicate Restarts(m: bool, e: Event) {
    e.PortWrite? && Decode(e.port) == (if m then MasterCommand else SlaveCommand) && OrderOf(e.v) == Icw1
  }

  function ChipOf(p: Pair, m: bool): Chip {
    if m then p.master else p.slave
  }

  lemma WriteKeepsPending(c: Chip, o: Order, v: bv8)
    requires o != Icw1
    ensures Command(c, o).pending == c.pending && Data(c, v).pending == c.pending
  {
    hide LinesOf, Top;
  }

  lemma StepPending(p: Pair, m: bool, e: Event, n: nat)
    requires Sane(p) && StillInitializing(p, m, [e]) && n < 8 && !(m && n == CASCADE)
    ensures n in ChipOf(After(p, e), m).pending <==>
      n in ChipOf(p, m).pending || e == Request(if m then n else n + 8)
  {
    match e
    case PortWrite(port, v) =>
      WriteKeepsPending(ChipOf(p, m), if OrderOf(v) == Icw1 then NoOrder else OrderOf(v), v);
    case Request(num) =>
    case EndOfIrq(_) =>
    case Poll => PollSound(p);
  }

  /** However long initialization takes, ICW4 makes requested exactly the lines that asked since
      ICW1; until then the chip dispatches nothing. */
  lemma {:induction false} RequestsSurviveInit(p: Pair, m: bool, es: seq<Event>, v: bv8, n: nat)
    requires Sane(p) && StillInitializing(p, m, es) && n < 8 && !(m && n == CASCADE)
    ensures var c := ChipOf(Run(p, es), m);
      && c.irr == {}
      && (n in c.pending <==> n in ChipOf(p, m).pending || Requests(es, if m then n else n + 8) > 0)
      && (c.initializing == 3 ==> Data(c, v).initializing == 0 && Data(c, v).irr == c.pending)
    ensures forall i :: 0 <= i < |es| ==> Delivered(Run(p, es[..i]), es[i]) != Some(if m then n else n + 8)
    decreases |es|
  {
    if es != [] {
      var q := After(p, es[0]);
      StepSane(p, es[0]);
      PollSound(p);
      assert StillInitializing(p, m, [es[0]]) by {
        assert [es[0]][1..] == [];
      }
      StepPending(p, m, es[0], n);
      RequestsSurviveInit(q, m, es[1..], v, n);
      forall i | 0 <= i < |es| ensures Delivered(Run(p, es[..i]), es[i]) != Some(if m then n else n + 8) {
        if i == 0 {
          assert es[..0] == [];
        } else {
          assert es[..i][1..] == es[1..][..i - 1];
          assert es[i] == es[1..][i - 1];
        }
      }
    }
  }

  /** The four initialization words put a chip into operation with the base and modes they carry, no
      line masked, requested or in service; the next data write is the mask. The other chip is untouched. */
  lemma InitSequence(p: Pair, m: bool, command: nat, data: nat, v1: bv8, v2: bv8, v3: bv8, v4: bv8, mask: bv8, n: nat)
    requires Decode(command) == (if m then MasterCommand else SlaveCommand) && v1 & 0x10 != 0
    requires Decode(data) == (if m then MasterData else SlaveData) && n < 8
    ensures var q := Write(Write(Write(Write(p, command, v1), data, v2), data, v3), data, v4);
      var c := ChipOf(q, m);
      && c.initializing == 0 && c.base == v2 & 0xf8 && c.autoEoi == (v4 & 0x02 != 0) && c.specialNest == (v4 & 0x10 != 0)
      && c.imr == c.irr == c.isr == c.pending == {} && !c.specialMask && c.read == ReadIrr
      && ChipOf(q, !m) == ChipOf(p, !m)
      && (n in ChipOf(Write(q, data, mask), m).imr <==> mask & Mask(n) != 0)
  {
    assert OrderOf(v1) == Icw1;
    var q := Write(Write(Write(Write(p, command, v1), data, v2), data, v3), data, v4);
    assert ChipOf(Write(q, data, mask), m).imr == LinesOf(mask);
  }
}
