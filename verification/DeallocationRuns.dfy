/** Runs of a function whose buffers are freed where `Deallocations.AddDeallocations` says: every loop may go round any
    number of times, and a started program holds on to its operands until it is waited for. */
module DeallocationRuns {
  import opened Basics
  import opened Deallocations

  // -------------------------------------------------------------------------
  // Aliases and starts over the walk

  lemma {:induction false} AliasOrigin(p: seq<Op>, n: nat, v: Value) returns (i: nat, b: nat)
    requires n <= |p| && v in AliasesOf(p, n)
    ensures b <= i < n && v in p[i].results && AliasesOf(p, n)[v] in p[b].results
    decreases n
  {
    var m, op := AliasesOf(p, n - 1), p[n - 1];
    if op.kind.Derived? {
      if v in m && AliasesOf(p, n)[v] == m[v] {
        i, b := AliasOrigin(p, n - 1, v);
      } else {
        i, b := AliasOrigin(p, n - 1, op.operands[0]);
        i := n - 1;
      }
    } else if v in op.results {
      i, b := n - 1, n - 1;
    } else {
      i, b := AliasOrigin(p, n - 1, v);
    }
  }

  lemma {:induction false} AliasesStay(p: seq<Op>, n: nat, m: nat, v: Value)
    requires IsSsa(p) && n <= m <= |p| && v in AliasesOf(p, n)
    ensures v in AliasesOf(p, m) && AliasesOf(p, m)[v] == AliasesOf(p, n)[v]
    decreases m
  {
    hide IsSsa;
    if n < m {
      AliasesStay(p, n, m - 1, v);
      var i, b := AliasOrigin(p, m - 1, v);
      NotDefinedAgain(p, i, m - 1, v);
    }
  }

  lemma NotDefinedAgain(p: seq<Op>, i: nat, j: nat, v: Value)
    requires IsSsa(p) && i < j < |p| && v in p[i].results
    ensures v !in p[j].results
  {}

  /** The walk knows the start it has seen last. */
  lemma {:induction false} StartsSeen(p: seq<Op>, s: nat, n: nat)
    requires s < n <= |p| && p[s].kind.Start?
    ensures p[s].kind.inv in StartsOf(p, n) && StartsOf(p, n)[p[s].kind.inv] >= s
    decreases n
  {
    if s < n - 1 { StartsSeen(p, s, n - 1); }
  }

  lemma DefinedOnce(p: seq<Op>, b: nat, j: nat, r: Value)
    requires IsSsa(p) && b < |p| && j < |p| && r in p[b].results && r in p[j].results
    ensures b == j
  {}

  lemma DefinedBefore(p: seq<Op>, i: nat, d: nat, v: Value)
    requires IsSsa(p) && i < |p| && d < |p| && v in p[i].results && v in p[d].operands
    ensures i < d
  {}

  lemma TouchedValue(p: seq<Op>, d: nat, j: nat) returns (v: Value)
    requires Touches(p, d, j)
    ensures j <= d < |p| && p[j].kind.Allocation? && |p[j].results| == 1 && p[j].results[0] in p[j].results
    ensures v in OperandsOf(p, d) && v in AliasesOf(p, d + 1) && AliasesOf(p, d + 1)[v] == p[j].results[0]
    ensures !p[d].kind.Wait? ==> v in p[d].operands
  {
    v :| v in OperandsOf(p, d) && v in AliasesOf(p, d + 1) && AliasesOf(p, d + 1)[v] == p[j].results[0];
    hide AliasesOf;
  }

  /** A buffer is used only after its allocation. */
  lemma TouchedLater(p: seq<Op>, d: nat, j: nat)
    requires IsSsa(p) && Touches(p, d, j)
    ensures j < d < |p| && p[j].kind.Allocation? && IsAllocation(p, j, p[j].results[0])
  {
    hide IsSsa;
    hide Touches;
    hide AliasesOf;
    hide OperandsOf;
    var v := TouchedValue(p, d, j);
    var i, b := AliasOrigin(p, d + 1, v);
    DefinedOnce(p, b, j, p[j].results[0]);
    if d == j { DefinedBefore(p, i, d, v); }
  }

  lemma {:induction false} WaitOperands(p: seq<Op>, s: nat, e: nat)
    requires s < e < |p| && p[s].kind.Start? && p[e].kind == Wait(p[s].kind.inv)
    requires p[s].kind.inv in StartsOf(p, e) && StartsOf(p, e)[p[s].kind.inv] == s
    ensures OperandsOf(p, e) == OperandsOf(p, s)
  {}

  /** Whoever waits for a program uses what its start uses. */
  lemma {:induction false} WaitTouches(p: seq<Op>, s: nat, e: nat, j: nat)
    requires IsSsa(p) && s < e < |p| && p[s].kind.Start? && p[e].kind == Wait(p[s].kind.inv) && Touches(p, s, j)
    requires p[s].kind.inv in StartsOf(p, e) && StartsOf(p, e)[p[s].kind.inv] == s
    ensures Touches(p, e, j)
  {
    hide AliasesOf;
    hide StartsOf;
    hide IsSsa;
    hide OperandsOf;
    WaitOperands(p, s, e);
    var v :| v in OperandsOf(p, s) && v in AliasesOf(p, s + 1) && AliasesOf(p, s + 1)[v] == p[j].results[0];
    AliasesStay(p, s + 1, e + 1, v);
  }

  // -------------------------------------------------------------------------
  // What the maps of the walk mean

  /** `v`, a result of one of the first `n` operations, is derived from `b` in any number of steps, or is `b`. */
  ghost predicate Behind(p: seq<Op>, n: nat, v: Value, b: Value)
    requires n <= |p|
    decreases n
  {
    exists i :: 0 <= i < n && v in p[i].results
                && if p[i].kind.Derived? then |p[i].operands| > 0 && Behind(p, i, p[i].operands[0], b) else v == b
  }

  lemma {:induction false} BehindResult(p: seq<Op>, n: nat, v: Value, b: Value)
    requires IsSsa(p) && 0 < n <= |p| && v in p[n - 1].results
    ensures var op := p[n - 1];
            Behind(p, n, v, b) <==>
            if op.kind.Derived? then |op.operands| > 0 && Behind(p, n - 1, op.operands[0], b) else v == b
  {}

  lemma {:induction false} BehindOther(p: seq<Op>, n: nat, v: Value, b: Value)
    requires 0 < n <= |p| && v !in p[n - 1].results
    ensures Behind(p, n, v, b) <==> Behind(p, n - 1, v, b)
  {}

  lemma {:induction false} NotYetDefined(p: seq<Op>, n: nat, v: Value)
    requires IsSsa(p) && n < |p| && v in p[n].results
    ensures v !in AliasesOf(p, n)
  {
    if v in AliasesOf(p, n) {
      var i, b := AliasOrigin(p, n, v);
      NotDefinedAgain(p, i, n, v);
    }
  }

  lemma AliasesNext(p: seq<Op>, n: nat, v: Value, b: Value)
    requires IsSsa(p) && 0 < n <= |p|
    ensures var op, before, now := p[n - 1], AliasesOf(p, n - 1), AliasesOf(p, n);
            (v in now && now[v] == b) <==>
            if v !in op.results then v in before && before[v] == b
            else if op.kind.Derived? then |op.operands| > 0 && op.operands[0] in before && before[op.operands[0]] == b
            else v == b
  {
    if v in p[n - 1].results { NotYetDefined(p, n - 1, v); }
    WalkStep(p, n - 1);
    hide IsSsa;
    hide AliasesOf;
  }

  /** The alias map holds what is behind every value. */
  lemma {:induction false} AliasesAreBehind(p: seq<Op>, n: nat, v: Value, b: Value)
    requires IsSsa(p) && n <= |p|
    ensures Behind(p, n, v, b) <==> v in AliasesOf(p, n) && AliasesOf(p, n)[v] == b
    decreases n
  {
    if n > 0 {
      hide *;
      AliasesNext(p, n, v, b);
      if v !in p[n - 1].results {
        BehindOther(p, n, v, b);
        AliasesAreBehind(p, n - 1, v, b);
      } else {
        BehindResult(p, n, v, b);
        if p[n - 1].kind.Derived? && |p[n - 1].operands| > 0 { AliasesAreBehind(p, n - 1, p[n - 1].operands[0], b); }
      }
    }
  }

  /** `s` is the last start of an invocation before operation `d`. */
  ghost predicate LastStart(p: seq<Op>, inv: Invocation, s: nat, d: nat) {
    s < d <= |p| && p[s].kind == Start(inv) && forall t :: s < t < d ==> p[t].kind != Start(inv)
  }

  lemma {:induction false} StartsAreLast(p: seq<Op>, d: nat, inv: Invocation, s: nat)
    requires d <= |p|
    ensures LastStart(p, inv, s, d) <==> inv in StartsOf(p, d) && StartsOf(p, d)[inv] == s
    decreases d
  {
    if d > 0 && p[d - 1].kind != Start(inv) {
      StartsAreLast(p, d - 1, inv, s);
      assert LastStart(p, inv, s, d) <==> LastStart(p, inv, s, d - 1);
    }
  }

  /** Operation `d` has `v` as an operand, or waits for a program that was started with it. */
  ghost predicate Uses(p: seq<Op>, d: nat, v: Value)
    requires d < |p|
  {
    if p[d].kind.Wait? then exists s: nat :: LastStart(p, p[d].kind.inv, s, d) && v in p[s].operands else v in p[d].operands
  }

  lemma UsesOperands(p: seq<Op>, d: nat, v: Value)
    requires d < |p|
    ensures Uses(p, d, v) <==> v in OperandsOf(p, d)
  {
    if p[d].kind.Wait? {
      var inv := p[d].kind.inv;
      if s: nat :| LastStart(p, inv, s, d) && v in p[s].operands { StartsAreLast(p, d, inv, s); }
      if inv in StartsOf(p, d) { StartsAreLast(p, d, inv, StartsOf(p, d)[inv]); }
    }
  }

  /** An operation touches the buffer of an allocation exactly if it uses a value that is the buffer or is derived from it in
      any number of steps, itself or as the wait for a program started with one. */
  lemma {:induction false} TouchesMeans(p: seq<Op>, d: nat, j: nat)
    requires IsSsa(p) && d < |p|
    ensures Touches(p, d, j) <==>
            j <= d && p[j].kind.Allocation? && exists v :: Uses(p, d, v) && Behind(p, d + 1, v, p[j].results[0])
  {
    if j <= d && p[j].kind.Allocation? {
      var a := p[j].results[0];
      hide AliasesOf;
      hide OperandsOf;
      hide Behind;
      hide Uses;
      forall v ensures Uses(p, d, v) && Behind(p, d + 1, v, a) <==>
                       v in OperandsOf(p, d) && v in AliasesOf(p, d + 1) && AliasesOf(p, d + 1)[v] == a
      {
        UsesOperands(p, d, v);
        AliasesAreBehind(p, d + 1, v, a);
      }
    }
  }

  /** No buffer is freed behind a terminator. */
  lemma NothingAfterTerminators(p: seq<Op>, after: seq<seq<Value>>, u: nat)
    requires IsForest(p) && IsSsa(p) && Analysable(p) && Inserted(p, after) && u < |p| && p[u].terminator
    requires forall i :: 0 <= i < |p| ==> p[i].parent != u
    ensures after[u] == []
  {
    assert StepOk(p, u);
    if after[u] != [] {
      var a := after[u][0];
      assert a in after[u] && FreedAfter(p, u, after[u]);
      var j: nat :| IsAllocation(p, j, a) && IsLastUser(p, j, u);
      var d: nat :| Touches(p, d, j) && Under(p, d, u) && forall e: nat :: Touches(p, e, j) ==> e <= d;
      OnlyItself(p, d, u);
      assert false;
    }
  }

  lemma {:induction false} OnlyItself(p: seq<Op>, d: nat, u: nat)
    requires IsForest(p) && Under(p, d, u) && forall i :: 0 <= i < |p| ==> p[i].parent != u
    ensures d == u
    decreases |p| - d
  {
    if d != u {
      OnlyItself(p, p[d].parent, u);
    }
  }

  // -------------------------------------------------------------------------
  // Runs

  /** One execution of an operation: its region is run any number of times, each time through all its operations. */
  datatype Exec = Exec(op: nat, body: Iterations)
  datatype Iterations = Stop | Again(first: Execs, rest: Iterations)
  datatype Execs = Nil | Cons(head: Exec, tail: Execs)

  /** The buffers allocated and not yet freed, and the starts not yet waited for. */
  datatype Memory = Memory(live: set<Value>, flying: set<nat>)

  ghost predicate UsesLive(p: seq<Op>, d: nat, live: set<Value>) {
    forall j: nat, a :: IsAllocation(p, j, a) && Touches(p, d, j) ==> a in live
  }

  ghost predicate InUse(p: seq<Op>, a: Value, flying: set<nat>) {
    exists j: nat, s: nat :: IsAllocation(p, j, a) && s in flying && Touches(p, s, j)
  }

  /** Frees buffers; stuck on one that is not live or that a started program may still use. */
  ghost function FreeAll(p: seq<Op>, m: Memory, frees: seq<Value>): Option<Memory>
    decreases |frees|
  {
    if frees == [] then Some(m)
    else if frees[0] !in m.live || InUse(p, frees[0], m.flying) then None
    else FreeAll(p, m.(live := m.live - {frees[0]}), frees[1..])
  }

  /** The programs of an invocation that are started and not waited for. */
  ghost function InFlight(p: seq<Op>, flying: set<nat>, inv: Invocation): set<nat> {
    set s | s in flying && s < |p| && p[s].kind == Start(inv)
  }

  /** Stuck on allocating what is live and on starting an invocation that is in flight. */
  ghost function Effect(p: seq<Op>, d: nat, m: Memory): Option<Memory>
    requires d < |p|
  {
    match p[d].kind
    case Allocation =>
      if |p[d].results| != 1 || p[d].results[0] in m.live then None else Some(m.(live := m.live + {p[d].results[0]}))
    case Start(inv) => if InFlight(p, m.flying, inv) == {} then Some(m.(flying := m.flying + {d})) else None
    case Wait(inv) => Some(m.(flying := m.flying - InFlight(p, m.flying, inv)))
    case _ => Some(m)
  }

  /** An operation needs its operands before and after its region, then takes effect; the frees follow it. */
  ghost function RunOp(p: seq<Op>, after: seq<seq<Value>>, e: Exec, m: Memory): Option<Memory>
    requires |after| == |p|
    decreases e
  {
    if e.op >= |p| || !UsesLive(p, e.op, m.live) then None else
    match RunIterations(p, after, e.body, m)
    case None => None
    case Some(m1) =>
      if !UsesLive(p, e.op, m1.live) then None else
      match Effect(p, e.op, m1)
      case None => None
      case Some(m2) => FreeAll(p, m2, after[e.op])
  }

  ghost function RunIterations(p: seq<Op>, after: seq<seq<Value>>, it: Iterations, m: Memory): Option<Memory>
    requires |after| == |p|
    decreases it
  {
    match it
    case Stop => Some(m)
    case Again(first, rest) =>
      match RunExecs(p, after, first, m)
      case None => None
      case Some(m1) => RunIterations(p, after, rest, m1)
  }

  ghost function RunExecs(p: seq<Op>, after: seq<seq<Value>>, es: Execs, m: Memory): Option<Memory>
    requires |after| == |p|
    decreases es
  {
    match es
    case Nil => Some(m)
    case Cons(e, rest) =>
      match RunOp(p, after, e, m)
      case None => None
      case Some(m1) => RunExecs(p, after, rest, m1)
  }

  /** The executions are those of the operations of region `k` from `i` on, in order. */
  ghost predicate WellExecs(p: seq<Op>, k: nat, i: nat, es: Execs)
    decreases es
  {
    match es
    case Nil => NoChild(p, k, i, |p|)
    case Cons(e, rest) =>
      && i <= e.op < |p| && p[e.op].parent == k && NoChild(p, k, i, e.op)
      && WellIterations(p, e.op, e.body)
      && WellExecs(p, k, e.op + 1, rest)
  }

  ghost predicate WellIterations(p: seq<Op>, k: nat, it: Iterations)
    decreases it
  {
    it.Stop? || (WellExecs(p, k, 0, it.first) && WellIterations(p, k, it.rest))
  }

  ghost predicate NoChild(p: seq<Op>, k: nat, i: nat, n: nat) {
    forall c :: i <= c < n && c < |p| ==> p[c].parent != k
  }

  /** `e` waits, later in the same region, for the program that `s` starts: no operation between them starts it again. */
  ghost predicate WaitsFor(p: seq<Op>, e: nat, s: nat) {
    && s < e < |p| && p[e].parent == p[s].parent && p[s].kind.Start? && p[e].kind == Wait(p[s].kind.inv)
    && p[s].kind.inv in StartsOf(p, e) && StartsOf(p, e)[p[s].kind.inv] == s
  }

  lemma WaitsForMeans(p: seq<Op>, e: nat, s: nat)
    ensures WaitsFor(p, e, s) <==>
            && s < e < |p| && p[e].parent == p[s].parent && p[s].kind.Start? && p[e].kind == Wait(p[s].kind.inv)
            && forall t :: s < t < e ==> p[t].kind != p[s].kind
  {
    if s < e < |p| && p[s].kind.Start? { StartsAreLast(p, e, p[s].kind.inv, s); }
  }

  /** Every program that is started is waited for later in the same region. */
  ghost predicate Waited(p: seq<Op>) {
    forall s: nat :: s < |p| && p[s].kind.Start? ==> exists e: nat :: WaitsFor(p, e, s)
  }

  // -------------------------------------------------------------------------
  // What holds in the middle of a region

  ghost predicate Inner(p: seq<Op>, d: nat, k: nat)
    requires IsForest(p)
  {
    d != k && Under(p, d, k)
  }

  /** Started before region `k` and waited for after it. */
  ghost predicate Pending(p: seq<Op>, k: nat, s: nat)
    requires IsForest(p)
  {
    s < k && s < |p| && p[s].kind.Start? && !Inner(p, s, k) && exists e: nat :: k <= e && WaitsFor(p, e, s)
  }

  /** On entry to region `k`. */
  ghost predicate Ready(p: seq<Op>, k: nat, m: Memory)
    requires IsForest(p)
  {
    && (forall d: nat, j: nat, a :: Inner(p, d, k) && IsAllocation(p, j, a) && Touches(p, d, j) && !Inner(p, j, k) ==>
      a in m.live)
    && (forall j: nat, a :: Inner(p, j, k) && IsAllocation(p, j, a) ==> a !in m.live)
    && (forall s :: s in m.flying ==> Pending(p, k, s))
  }

  /** Allocated by `j` in this run of region `k` and not yet freed before operation `i`. */
  ghost predicate Held(p: seq<Op>, k: nat, j: nat, i: nat)
    requires IsForest(p)
  {
    j < i && j < |p| && p[j].parent == k && exists w: nat :: i <= w && IsLastUser(p, j, w)
  }

  ghost predicate Flying(p: seq<Op>, k: nat, s: nat, i: nat) {
    s < i && s < |p| && p[s].parent == k && p[s].kind.Start? && forall e: nat :: e < i ==> !WaitsFor(p, e, s)
  }

  ghost predicate LiveAt(p: seq<Op>, k: nat, i: nat, base: set<Value>, live: set<Value>)
    requires IsForest(p)
  {
    forall a :: a in live <==> a in base || exists j: nat :: IsAllocation(p, j, a) && Held(p, k, j, i)
  }

  /** Before operation `i` of region `k`, entered with `base`. */
  ghost predicate At(p: seq<Op>, k: nat, i: nat, base: Memory, m: Memory)
    requires IsForest(p)
  {
    && LiveAt(p, k, i, base.live, m.live)
    && forall s :: s in m.flying ==> s in base.flying || Flying(p, k, s, i)
  }

  lemma NothingRunYet(p: seq<Op>, k: nat, m: Memory)
    requires IsForest(p)
    ensures At(p, k, 0, m, m)
  {}

  lemma HeldOverGap(p: seq<Op>, k: nat, i: nat, c: nat, j: nat)
    requires IsForest(p) && i <= c && NoChild(p, k, i, c)
    ensures Held(p, k, j, i) <==> Held(p, k, j, c)
  {
    hide Touches;
    hide Under;
    if Held(p, k, j, i) {
      var w: nat :| i <= w && IsLastUser(p, j, w);
      assert c <= w;
    }
  }

  lemma FlyingOverGap(p: seq<Op>, k: nat, i: nat, c: nat, s: nat)
    requires i <= c && NoChild(p, k, i, c) && Flying(p, k, s, i)
    ensures Flying(p, k, s, c)
  {}

  lemma AtOverGap(p: seq<Op>, k: nat, i: nat, c: nat, base: Memory, m: Memory)
    requires IsForest(p) && i <= c && NoChild(p, k, i, c) && At(p, k, i, base, m)
    ensures At(p, k, c, base, m)
  {
    hide Held;
    hide Flying;
    hide IsAllocation;
    forall j: nat ensures Held(p, k, j, i) <==> Held(p, k, j, c) { HeldOverGap(p, k, i, c, j); }
    forall s: nat | Flying(p, k, s, i) ensures Flying(p, k, s, c) { FlyingOverGap(p, k, i, c, s); }
  }

  lemma EndOfRegion(p: seq<Op>, k: nat, i: nat, base: Memory, m: Memory)
    requires IsForest(p) && Waited(p) && NoChild(p, k, i, |p|) && At(p, k, i, base, m)
    ensures m.live == base.live && m.flying <= base.flying
  {
    forall j: nat ensures !Held(p, k, j, i) { NotHeldAtEnd(p, k, i, j); }
    forall s: nat ensures !Flying(p, k, s, i) { NotFlyingAtEnd(p, k, i, s); }
    hide Held;
    hide Flying;
    hide IsForest;
    hide Waited;
  }

  lemma NotHeldAtEnd(p: seq<Op>, k: nat, i: nat, j: nat)
    requires IsForest(p) && NoChild(p, k, i, |p|)
    ensures !Held(p, k, j, i)
  {
    hide Touches;
    hide Under;
    hide IsForest;
    forall w: nat | j < |p| && p[j].parent == k && IsLastUser(p, j, w) ensures w < i {}
  }

  lemma NotFlyingAtEnd(p: seq<Op>, k: nat, i: nat, s: nat)
    requires Waited(p) && NoChild(p, k, i, |p|)
    ensures !Flying(p, k, s, i)
  {
    if s < |p| && p[s].kind.Start? && p[s].parent == k {
      var e: nat :| WaitsFor(p, e, s);
      assert e < i;
    }
  }

  // -------------------------------------------------------------------------
  // Scopes

  lemma {:induction false} InnerParent(p: seq<Op>, d: nat, k: nat)
    requires IsForest(p) && d < |p|
    ensures Inner(p, d, k) ==> Under(p, p[d].parent, k) && p[d].parent <= k
  {
    if Inner(p, d, k) { UnderIsLater(p, p[d].parent, k); }
  }

  /** The child of `k` that an operation lies under. */
  lemma {:induction false} InnerChild(p: seq<Op>, d: nat, w: nat, k: nat)
    requires IsForest(p) && w < |p| && p[w].parent == k && Under(p, d, w)
    ensures Inner(p, d, k)
  {
    UnderIsLater(p, d, w);
    UnderTransitive(p, d, w, k);
  }

  /** What an operation under `c` can use of the region of `c` was allocated in that region before `c`. */
  lemma {:induction false} UsedFromOutside(p: seq<Op>, k: nat, c: nat, d: nat, j: nat)
    requires IsForest(p) && c < |p| && p[c].parent == k && Under(p, d, c) && j < d
    requires j < |p| && Inner(p, j, k) && !Inner(p, j, c) && InScope(p, d, p[j].parent)
    ensures p[j].parent == k && j < c
  {
    var w :| 0 <= w < |p| && Under(p, d, w) && p[w].parent == p[j].parent;
    UnderIsLater(p, d, c);
    InnerParent(p, j, k);
    SiblingsShareScope(p, d, c, w, j);
    Comparable(p, d, c, w);
    if w != c {
      UnderIsLater(p, k, w);
    }
  }

  lemma {:induction false} SiblingsShareScope(p: seq<Op>, d: nat, c: nat, w: nat, j: nat)
    requires IsForest(p) && w < |p| && j < |p| && Under(p, d, c) && Under(p, d, w) && p[w].parent == p[j].parent
    ensures w < c ==> Under(p, j, c)
  {
    if w < c {
      Comparable(p, d, w, c);
    }
  }

  /** An operation uses nothing that is allocated in its own region. */
  lemma UsesNoInner(p: seq<Op>, c: nat, j: nat)
    requires IsForest(p) && IsSsa(p) && c < |p| && StepOk(p, c) && Touches(p, c, j)
    ensures !Inner(p, j, c)
  {
    TouchedLater(p, c, j);
    hide Touches;
    hide OperandsOf;
    hide IsSsa;
    var w :| 0 <= w < |p| && Under(p, c, w) && p[w].parent == p[j].parent;
    UnderIsLater(p, c, w);
    InnerParent(p, j, c);
  }

  // -------------------------------------------------------------------------
  // Last users

  lemma {:induction false} LastTouch(p: seq<Op>, j: nat, n: nat, d0: nat) returns (d: nat)
    requires d0 < n && Touches(p, d0, j)
    ensures d < n && Touches(p, d, j) && forall e: nat :: e < n && Touches(p, e, j) ==> e <= d
    decreases n
  {
    hide Touches;
    if Touches(p, n - 1, j) { d := n - 1; } else { d := LastTouch(p, j, n - 1, d0); }
  }

  lemma LastUserExists(p: seq<Op>, j: nat, d0: nat) returns (d: nat, w: nat)
    requires IsForest(p) && Touches(p, d0, j) && forall d: nat :: d < |p| ==> StepOk(p, d)
    ensures IsLastUser(p, j, w) && Touches(p, d, j) && Under(p, d, w)
    ensures forall e: nat :: Touches(p, e, j) ==> e <= d
  {
    TouchesAreLater(p, j);
    d := LastTouch(p, j, |p|, d0);
    hide Touches;
    hide OperandsOf;
    hide AliasesOf;
    assert StepOk(p, d);
    w :| w < |p| && Under(p, d, w) && p[w].parent == p[j].parent;
    assert forall e: nat :: Touches(p, e, j) ==> e <= d;
    AllocatesAt(p, d, j);
  }

  lemma AllocatesAt(p: seq<Op>, d: nat, j: nat)
    requires Touches(p, d, j)
    ensures j < |p|
  {}

  /** What is used from `c` on has its last user there. */
  lemma {:induction false} HeldWhenUsed(p: seq<Op>, k: nat, c: nat, d: nat, j: nat)
    requires IsForest(p) && forall d: nat :: d < |p| ==> StepOk(p, d)
    requires c < |p| && p[c].parent == k && Under(p, d, c) && Touches(p, d, j) && j < c && p[j].parent == k
    ensures Held(p, k, j, c)
  {
    var e, w := LastUserExists(p, j, d);
    hide Touches;
    hide StepOk;
    assert p[w].parent == k;
    ChildrenInOrder(p, d, e, c, w);
  }

  /** What operations under `c` use from outside `c` is live when `c` begins. */
  lemma {:induction false} UsedIsLive(p: seq<Op>, k: nat, c: nat, base: Memory, m: Memory, d: nat, j: nat, a: Value)
    requires IsForest(p) && IsSsa(p) && forall d: nat :: d < |p| ==> StepOk(p, d)
    requires c < |p| && p[c].parent == k && Ready(p, k, base) && At(p, k, c, base, m)
    requires Under(p, d, c) && IsAllocation(p, j, a) && Touches(p, d, j) && !Inner(p, j, c)
    ensures a in m.live
  {
    TouchedLater(p, d, j);
    InnerChild(p, d, c, k);
    hide Touches;
    hide IsSsa;
    hide OperandsOf;
    hide AliasesOf;
    hide IsAllocation;
    if Inner(p, j, k) {
      assert StepOk(p, d);
      UsedFromOutside(p, k, c, d, j);
      HeldWhenUsed(p, k, c, d, j);
    }
  }

  lemma NotFromBase(p: seq<Op>, k: nat, c: nat, base: Memory, m: Memory, j: nat, a: Value)
    requires IsForest(p) && IsSsa(p) && Ready(p, k, base) && At(p, k, c, base, m)
    requires IsAllocation(p, j, a) && Inner(p, j, k) && !Held(p, k, j, c)
    ensures a !in m.live
  {
    hide Touches;
    hide Held;
    AllocatedOnce(p, j, a);
  }

  /** Region `c` can be entered where `c` is reached. */
  lemma ReadyBelow(p: seq<Op>, k: nat, c: nat, base: Memory, m: Memory)
    requires IsForest(p) && IsSsa(p) && Waited(p) && forall d: nat :: d < |p| ==> StepOk(p, d)
    requires c < |p| && p[c].parent == k && Ready(p, k, base) && At(p, k, c, base, m)
    ensures Ready(p, c, m) && UsesLive(p, c, m.live)
  {
    hide StepOk;
    hide IsSsa;
    hide IsForest;
    hide Touches;
    forall d: nat, j: nat, a | Inner(p, d, c) && IsAllocation(p, j, a) && Touches(p, d, j) && !Inner(p, j, c)
      ensures a in m.live
    {
      UsedIsLive(p, k, c, base, m, d, j, a);
    }
    forall j: nat, a | IsAllocation(p, j, a) && Touches(p, c, j) ensures a in m.live {
      UsesNoInner(p, c, j);
      UsedIsLive(p, k, c, base, m, c, j, a);
    }
    forall j: nat, a | Inner(p, j, c) && IsAllocation(p, j, a) ensures a !in m.live {
      NotChild(p, k, c, j);
      NotFromBase(p, k, c, base, m, j, a);
    }
    forall s: nat | s in m.flying ensures Pending(p, c, s) { PendingBelow(p, k, c, base, m, s); }
  }

  lemma PendingBelow(p: seq<Op>, k: nat, c: nat, base: Memory, m: Memory, s: nat)
    requires IsForest(p) && Waited(p) && c < |p| && p[c].parent == k && Ready(p, k, base) && At(p, k, c, base, m)
    requires s in m.flying
    ensures Pending(p, c, s)
  {
    hide WaitsFor;
    if s in base.flying {
      PendingOuter(p, k, c, s);
    } else {
      assert Flying(p, k, s, c);
      var e: nat :| WaitsFor(p, e, s);
      if Inner(p, s, c) { NotChild(p, k, c, s); }
    }
  }

  lemma PendingOuter(p: seq<Op>, k: nat, c: nat, s: nat)
    requires IsForest(p) && c < |p| && p[c].parent == k && Pending(p, k, s)
    ensures Pending(p, c, s)
  {
    hide WaitsFor;
    InnerSelf(p, c, k);
    if c <= s { Contiguous(p, c, s, k); }
    if Inner(p, s, c) { NotChild(p, k, c, s); }
  }

  lemma NotChild(p: seq<Op>, k: nat, c: nat, j: nat)
    requires IsForest(p) && c < |p| && p[c].parent == k && Inner(p, j, c)
    ensures Inner(p, j, k) && j < |p| && p[j].parent != k
  {
    UnderIsLater(p, j, c);
    InnerParent(p, j, c);
    InnerChild(p, j, c, k);
  }

  // -------------------------------------------------------------------------
  // One operation

  lemma {:induction false} FreesAll(p: seq<Op>, m: Memory, frees: seq<Value>)
    requires forall a :: a in frees ==> a in m.live && !InUse(p, a, m.flying)
    requires forall x, y :: 0 <= x < y < |frees| ==> frees[x] != frees[y]
    ensures FreeAll(p, m, frees) == Some(Memory(m.live - (set a | a in frees), m.flying))
    decreases |frees|
  {
    hide InUse;
    if frees == [] {
      assert m.live - (set a | a in frees) == m.live;
    } else {
      var m1 := m.(live := m.live - {frees[0]});
      FreesAll(p, m1, frees[1..]);
      assert frees == [frees[0]] + frees[1..];
      assert m1.live - (set a | a in frees[1..]) == m.live - (set a | a in frees);
    }
  }

  /** A buffer is not in use once the last operation of its region that uses it is over. */
  lemma FreedIsIdle(p: seq<Op>, k: nat, c: nat, base: Memory, s: nat, j: nat)
    requires IsForest(p) && IsSsa(p) && Waited(p) && forall d: nat :: d < |p| ==> StepOk(p, d)
    requires c < |p| && p[c].parent == k && Ready(p, k, base) && IsLastUser(p, j, c)
    requires s in base.flying || Flying(p, k, s, c + 1)
    ensures !Touches(p, s, j)
  {
    if Touches(p, s, j) {
      TouchesAreLater(p, j);
      var d: nat :| Touches(p, d, j) && Under(p, d, c) && forall e: nat :: Touches(p, e, j) ==> e <= d;
      UnderIsLater(p, d, c);
      hide Touches;
      hide OperandsOf;
      if Flying(p, k, s, c + 1) {
        var e: nat :| WaitsFor(p, e, s);
        WaitTouches(p, s, e, j);
        assert false;
      } else {
        assert StepOk(p, s) && InScope(p, s, p[j].parent);
        var w: nat :| w < |p| && Under(p, s, w) && p[w].parent == k;
        InnerChild(p, s, w, k);
        assert false;
      }
    }
  }

  lemma LastUserIsLater(p: seq<Op>, j: nat, c: nat)
    requires IsForest(p) && IsSsa(p) && IsLastUser(p, j, c)
    ensures j < c && p[j].parent == p[c].parent && IsAllocation(p, j, p[j].results[0])
  {
    var d: nat :| Touches(p, d, j) && Under(p, d, c);
    UnderIsLater(p, d, c);
    TouchedLater(p, d, j);
  }

  lemma FreedNow(p: seq<Op>, k: nat, c: nat, base: Memory, m: Memory, frees: seq<Value>, j: nat, a: Value)
    requires IsForest(p) && IsSsa(p) && Waited(p) && forall d: nat :: d < |p| ==> StepOk(p, d)
    requires c < |p| && p[c].parent == k && Ready(p, k, base)
    requires LiveAt(p, k, c, base.live, m.live) && forall s :: s in m.flying ==> s in base.flying || Flying(p, k, s, c + 1)
    requires IsAllocation(p, j, a) && IsLastUser(p, j, c)
    ensures a in m.live && a !in base.live && !InUse(p, a, m.flying)
  {
    LastUserIsLater(p, j, c);
    assert Held(p, k, j, c);
    InnerSelf(p, j, k);
    AllocatedOnce(p, j, a);
    hide IsLastUser;
    hide Touches;
    hide Flying;
    hide StepOk;
    hide Waited;
    forall s: nat | s in m.flying ensures !Touches(p, s, j) {
      FreedIsIdle(p, k, c, base, s, j);
    }
  }

  lemma InnerSelf(p: seq<Op>, j: nat, k: nat)
    requires IsForest(p) && j < |p| && p[j].parent == k
    ensures Inner(p, j, k)
  {}

  /** What is held after `c`: what was held before it or allocated by it, but for what it is the last user of. */
  lemma HeldAfter(p: seq<Op>, k: nat, c: nat, j: nat)
    requires IsForest(p) && IsSsa(p) && c < |p| && p[c].parent == k
    requires p[c].kind.Allocation? ==> exists w: nat :: IsLastUser(p, c, w)
    ensures Held(p, k, j, c + 1) <==> (Held(p, k, j, c) || (j == c && p[c].kind.Allocation?)) && !IsLastUser(p, j, c)
  {
    hide Touches;
    hide Under;
    hide IsForest;
    forall w: nat | IsLastUser(p, j, w) ensures j < w && p[j].kind.Allocation? { LastUserIsLater(p, j, w); }
    forall w: nat | IsLastUser(p, j, w) && IsLastUser(p, j, c) ensures w == c { LastUserIsOne(p, j, c, w); }
    hide IsLastUser;
    if Held(p, k, j, c) {
      var w: nat :| c <= w && IsLastUser(p, j, w);
      assert w == c || c + 1 <= w;
    }
    if j == c && p[c].kind.Allocation? {
      var w: nat :| IsLastUser(p, c, w);
      assert c + 1 <= w;
    }
    if Held(p, k, j, c + 1) {
      var w: nat :| c + 1 <= w && IsLastUser(p, j, w);
      assert c <= w;
    }
  }

  lemma FlyingAfter(p: seq<Op>, k: nat, c: nat, s: nat)
    requires c < |p| && !WaitsFor(p, c, s)
    ensures Flying(p, k, s, c) ==> Flying(p, k, s, c + 1)
  {}

  /** A program that is waited for after `c` is not started by `c`. */
  lemma NotStartedTwice(p: seq<Op>, k: nat, c: nat, base: Memory, m: Memory, s: nat)
    requires IsForest(p) && Waited(p) && c < |p| && p[c].parent == k && p[c].kind.Start?
    requires Ready(p, k, base) && At(p, k, c, base, m) && s in m.flying && s < |p|
    ensures p[s].kind != p[c].kind
  {
    PendingBelow(p, k, c, base, m, s);
    hide IsForest;
    hide Waited;
    hide Ready;
    hide At;
    hide Inner;
    hide WaitsFor;
    var e: nat :| c <= e && WaitsFor(p, e, s);
    NotBetween(p, s, c, e);
  }

  lemma NotBetween(p: seq<Op>, s: nat, c: nat, e: nat)
    requires WaitsFor(p, e, s) && s < c <= e && p[c].kind.Start?
    ensures p[s].kind != p[c].kind
  {
    if c < e { StartsSeen(p, c, e); }
  }

  lemma EffectOnLive(p: seq<Op>, k: nat, c: nat, base: Memory, m: Memory)
    requires IsForest(p) && IsSsa(p) && Waited(p) && c < |p| && p[c].parent == k
    requires Ready(p, k, base) && At(p, k, c, base, m)
    ensures p[c].kind.Allocation? ==> |p[c].results| == 1 && p[c].results[0] !in m.live
    ensures p[c].kind.Start? ==> InFlight(p, m.flying, p[c].kind.inv) == {}
  {
    if p[c].kind.Allocation? {
      AllocationAt(p, c);
      InnerSelf(p, c, k);
      NotFromBase(p, k, c, base, m, c, p[c].results[0]);
    }
    if p[c].kind.Start? {
      hide Ready;
      hide At;
      hide Waited;
      hide IsForest;
      forall s: nat | s in m.flying && s < |p| ensures p[s].kind != p[c].kind { NotStartedTwice(p, k, c, base, m, s); }
      assert InFlight(p, m.flying, p[c].kind.inv) == {};
    }
  }

  lemma EffectOnFlying(p: seq<Op>, k: nat, c: nat, m: Memory, m2: Memory, s: nat)
    requires c < |p| && p[c].parent == k && Effect(p, c, m) == Some(m2) && s in m2.flying
    ensures if s in m.flying then Flying(p, k, s, c) ==> Flying(p, k, s, c + 1) else Flying(p, k, s, c + 1)
  {
    if s !in m.flying {
      assert s == c && p[c].kind.Start?;
    } else if Flying(p, k, s, c) {
      assert !WaitsFor(p, c, s);
      FlyingAfter(p, k, c, s);
    }
  }

  lemma EffectOf(p: seq<Op>, c: nat, m: Memory) returns (m2: Memory)
    requires c < |p|
    requires p[c].kind.Allocation? ==> |p[c].results| == 1 && p[c].results[0] !in m.live
    requires p[c].kind.Start? ==> InFlight(p, m.flying, p[c].kind.inv) == {}
    ensures Effect(p, c, m) == Some(m2)
    ensures m2.live == m.live + (if p[c].kind.Allocation? then {p[c].results[0]} else {})
  {
    hide InFlight;
    m2 := Effect(p, c, m).value;
  }

  /** The effect of `c` on what is live and in flight. */
  lemma EffectHappens(p: seq<Op>, k: nat, c: nat, base: Memory, m: Memory) returns (m2: Memory)
    requires IsForest(p) && IsSsa(p) && Waited(p) && c < |p| && p[c].parent == k
    requires Ready(p, k, base) && At(p, k, c, base, m)
    ensures Effect(p, c, m) == Some(m2)
    ensures m2.live == m.live + (if p[c].kind.Allocation? then {p[c].results[0]} else {})
    ensures forall s :: s in m2.flying ==> s in base.flying || Flying(p, k, s, c + 1)
  {
    EffectOnLive(p, k, c, base, m);
    hide Effect;
    hide Ready;
    hide IsSsa;
    hide LiveAt;
    hide Waited;
    hide IsForest;
    hide Flying;
    hide InFlight;
    m2 := EffectOf(p, c, m);
    forall s: nat | s in m2.flying ensures s in base.flying || Flying(p, k, s, c + 1) {
      EffectOnFlying(p, k, c, m, m2, s);
    }
  }

  /** After `c` and the frees that follow it. */
  lemma Completes(
        p: seq<Op>, frees: seq<Value>, k: nat, c: nat, base: Memory, m: Memory) returns (m2: Memory, m3: Memory)
    requires IsForest(p) && IsSsa(p) && Waited(p) && Analysable(p)
    requires c < |p| && p[c].parent == k && FreedAfter(p, c, frees)
    requires Ready(p, k, base) && At(p, k, c, base, m)
    ensures Effect(p, c, m) == Some(m2) && FreeAll(p, m2, frees) == Some(m3)
    ensures At(p, k, c + 1, base, m3)
  {
    m2 := EffectHappens(p, k, c, base, m);
    forall a | a in frees ensures a in m.live && a !in base.live && !InUse(p, a, m2.flying) {
      var j: nat :| IsAllocation(p, j, a) && IsLastUser(p, j, c);
      FreedNow(p, k, c, base, Memory(m.live, m2.flying), frees, j, a);
    }
    FreesAll(p, m2, frees);
    m3 := Memory(m2.live - (set a | a in frees), m2.flying);
    LiveAfter(p, frees, k, c, base.live, m.live, m3.live);
  }

  lemma LiveAfter(p: seq<Op>, frees: seq<Value>, k: nat, c: nat, base: set<Value>, live: set<Value>, live3: set<Value>)
    requires IsForest(p) && IsSsa(p) && Analysable(p)
    requires c < |p| && p[c].parent == k && FreedAfter(p, c, frees) && LiveAt(p, k, c, base, live)
    requires forall a :: a in frees ==> a !in base
    requires live3 == live + (if p[c].kind.Allocation? then {p[c].results[0]} else {}) - (set a | a in frees)
    ensures LiveAt(p, k, c + 1, base, live3)
  {
    if p[c].kind.Allocation? {
      AllocationAt(p, c);
      UsedToTheEnd(p, c);
    }
    forall j: nat
      ensures Held(p, k, j, c + 1) <==> (Held(p, k, j, c) || (j == c && p[c].kind.Allocation?)) && !IsLastUser(p, j, c)
    {
      HeldAfter(p, k, c, j);
    }
    hide Held;
    hide IsLastUser;
    hide Analysable;
    hide IsForest;
    forall a ensures a in live3 <==> a in base || exists j: nat :: IsAllocation(p, j, a) && Held(p, k, j, c + 1) {
      if j: nat :| IsAllocation(p, j, a) {
        LiveAfterAt(p, frees, k, c, base, live, live3, j, a);
      } else {
        assert a !in frees;
      }
    }
  }

  lemma LiveAfterAt(
      p: seq<Op>, frees: seq<Value>, k: nat, c: nat, base: set<Value>, live: set<Value>, live3: set<Value>, j: nat, a: Value)
    requires IsForest(p) && IsSsa(p) && c < |p| && FreedAfter(p, c, frees) && LiveAt(p, k, c, base, live)
    requires forall x :: x in frees ==> x !in base
    requires p[c].kind.Allocation? ==> |p[c].results| == 1 && IsAllocation(p, c, p[c].results[0])
    requires live3 == live + (if p[c].kind.Allocation? then {p[c].results[0]} else {}) - (set x | x in frees)
    requires IsAllocation(p, j, a)
    requires Held(p, k, j, c + 1) <==> (Held(p, k, j, c) || (j == c && p[c].kind.Allocation?)) && !IsLastUser(p, j, c)
    ensures a in live3 <==> a in base || Held(p, k, j, c + 1)
    ensures forall i: nat :: IsAllocation(p, i, a) ==> i == j
  {
    AllocatedOnce(p, j, a);
    hide Held;
    hide IsLastUser;
    hide IsForest;
    hide IsSsa;
    assert a in frees <==> IsLastUser(p, j, c);
    assert a in live <==> a in base || Held(p, k, j, c);
  }

  lemma UsedToTheEnd(p: seq<Op>, j: nat)
    requires IsForest(p) && Analysable(p) && j < |p| && p[j].kind.Allocation?
    ensures exists w: nat :: IsLastUser(p, j, w)
  {
    assert Used(p, j);
    var d: nat :| Touches(p, d, j);
    hide Touches;
    hide StepOk;
    var e, w := LastUserExists(p, j, d);
  }

  // -------------------------------------------------------------------------
  // Whole runs

  /** A region leaves as live what it found, and nothing of its own in flight. */
  lemma {:induction false} ExecsFinish(
      p: seq<Op>, after: seq<seq<Value>>, k: nat, i: nat, es: Execs, base: Memory, m: Memory) returns (end: Memory)
    requires IsForest(p) && IsSsa(p) && Waited(p) && Analysable(p) && Inserted(p, after)
    requires WellExecs(p, k, i, es) && Ready(p, k, base) && At(p, k, i, base, m)
    ensures RunExecs(p, after, es, m) == Some(end) && end.live == base.live && end.flying <= base.flying
    decreases es
  {
    hide At;
    hide Ready;
    hide IsForest;
    hide IsSsa;
    hide Waited;
    hide Analysable;
    hide FreedAfter;
    hide UsesLive;
    hide Effect;
    match es
    case Nil =>
      EndOfRegion(p, k, i, base, m);
      end := m;
    case Cons(e, rest) =>
      var c := e.op;
      AtOverGap(p, k, i, c, base, m);
      StepsOk(p);
      ReadyBelow(p, k, c, base, m);
      var m1 := IterationsFinish(p, after, c, e.body, m);
      AtFewerFlying(p, k, c, base, m, m1);
      var m2, m3 := Completes(p, after[c], k, c, base, m1);
      end := ExecsFinish(p, after, k, c + 1, rest, base, m3);
  }

  lemma {:induction false} IterationsFinish(p: seq<Op>, after: seq<seq<Value>>, k: nat, it: Iterations, m: Memory)
    returns (end: Memory)
    requires IsForest(p) && IsSsa(p) && Waited(p) && Analysable(p) && Inserted(p, after)
    requires WellIterations(p, k, it) && Ready(p, k, m)
    ensures RunIterations(p, after, it, m) == Some(end) && end.live == m.live && end.flying <= m.flying
    decreases it
  {
    hide At;
    hide Ready;
    hide IsForest;
    hide IsSsa;
    hide Waited;
    hide Analysable;
    hide Inserted;
    hide WellExecs;
    match it
    case Stop => end := m;
    case Again(first, rest) =>
      NothingRunYet(p, k, m);
      var m1 := ExecsFinish(p, after, k, 0, first, m, m);
      ReadyFewerFlying(p, k, m, m1);
      end := IterationsFinish(p, after, k, rest, m1);
  }

  lemma StepsOk(p: seq<Op>)
    requires IsForest(p) && Analysable(p)
    ensures forall d: nat :: d < |p| ==> StepOk(p, d)
  {}

  lemma AtFewerFlying(p: seq<Op>, k: nat, i: nat, base: Memory, m: Memory, m1: Memory)
    requires IsForest(p) && At(p, k, i, base, m) && m1.live == m.live && m1.flying <= m.flying
    ensures At(p, k, i, base, m1)
  {}

  lemma ReadyFewerFlying(p: seq<Op>, k: nat, m: Memory, m1: Memory)
    requires IsForest(p) && Ready(p, k, m) && m1.live == m.live && m1.flying <= m.flying
    ensures Ready(p, k, m1)
  {}

  /** Whatever the loops do, a run of the function is never stuck, so no buffer is used, by an operation or by a program in
      flight, unless it is allocated and not yet freed; and at the end everything is freed and waited for. */
  lemma {:induction false} EveryRunFreesAll(p: seq<Op>, after: seq<seq<Value>>, run: Execs)
    requires IsForest(p) && IsSsa(p) && Waited(p) && Analysable(p) && Inserted(p, after)
    requires WellExecs(p, |p|, 0, run)
    ensures RunExecs(p, after, run, Memory({}, {})) == Some(Memory({}, {}))
  {
    var m := Memory({}, {});
    NothingBefore(p);
    NothingRunYet(p, |p|, m);
    var end := ExecsFinish(p, after, |p|, 0, run, m, m);
    assert end == m;
  }

  /** At the top of the function there is nothing outside. */
  lemma NothingBefore(p: seq<Op>)
    requires IsForest(p) && IsSsa(p)
    ensures Ready(p, |p|, Memory({}, {}))
  {
    forall d: nat, j: nat | Touches(p, d, j) ensures Inner(p, j, |p|) {
      InnerTop(p, j);
    }
  }

  lemma {:induction false} InnerTop(p: seq<Op>, j: nat)
    requires IsForest(p) && j < |p|
    ensures Inner(p, j, |p|)
    decreases |p| - j
  {
    if p[j].parent < |p| { InnerTop(p, p[j].parent); }
  }

  lemma {:induction false} FreesNothingInUse(p: seq<Op>, m: Memory, frees: seq<Value>, a: Value)
    requires a in frees && InUse(p, a, m.flying)
    ensures FreeAll(p, m, frees) == None
    decreases |frees|
  {
    if frees[0] != a {
      assert frees == [frees[0]] + frees[1..];
      FreesNothingInUse(p, m.(live := m.live - {frees[0]}), frees[1..], a);
    }
  }

  /** Why starts must be waited for: a start that is itself the last user of a buffer has it freed while it runs. */
  lemma {:induction false} LastStartIsStuck(
        p: seq<Op>, after: seq<seq<Value>>, s: nat, j: nat, body: Iterations, m: Memory)
    requires IsForest(p) && IsSsa(p) && Inserted(p, after)
    requires s < |p| && p[s].kind.Start? && Touches(p, s, j) && IsLastUser(p, j, s)
    ensures RunOp(p, after, Exec(s, body), m) == None
  {
    LastUserIsLater(p, j, s);
    var a := p[j].results[0];
    assert FreedAfter(p, s, after[s]) && a in after[s];
    var m1 := RunIterations(p, after, body, m);
    if m1.Some? && InFlight(p, m1.value.flying, p[s].kind.inv) == {} {
      var m2 := m1.value.(flying := m1.value.flying + {s});
      assert InUse(p, a, m2.flying);
      FreesNothingInUse(p, m2, after[s], a);
    }
  }
}
