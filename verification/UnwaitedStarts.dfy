/** Why every program has to be waited for in the region that starts it: otherwise some run starts it again while it is in
    flight, frees what it uses, or ends before it. */
module UnwaitedStarts {
  import opened Basics
  import opened Deallocations
  import opened DeallocationRuns

  /** No other operation starts the invocation of `s`. */
  ghost predicate OnlyStart(p: seq<Op>, s: nat) {
    s < |p| && p[s].kind.Start? && forall t :: 0 <= t < |p| && p[t].kind == p[s].kind ==> t == s
  }

  /** Every invocation is started by one operation only. */
  ghost predicate OneStartEach(p: seq<Op>) {
    forall s: nat :: s < |p| && p[s].kind.Start? ==> OnlyStart(p, s)
  }

  /** No operation of the region of `s` waits for it. */
  ghost predicate Unwaited(p: seq<Op>, s: nat) {
    OnlyStart(p, s) && forall e :: 0 <= e < |p| && p[e].parent == p[s].parent ==> p[e].kind != Wait(p[s].kind.inv)
  }

  /** A run is fine if it is not stuck and leaves nothing allocated or in flight. */
  ghost predicate Fine(p: seq<Op>, after: seq<seq<Value>>, run: Execs)
    requires |after| == |p|
  {
    RunExecs(p, after, run, Memory({}, {})) == Some(Memory({}, {}))
  }

  // -------------------------------------------------------------------------
  // What the analysis accepts

  lemma {:induction false} StartsAreThere(p: seq<Op>, n: nat, inv: Invocation)
    requires n <= |p| && inv in StartsOf(p, n)
    ensures StartsOf(p, n)[inv] < n && p[StartsOf(p, n)[inv]].kind == Start(inv)
  {}

  /** In a program that can be analysed the only start of an invocation is waited for exactly if some operation of its
      region waits for it. */
  lemma WaitedOrNot(p: seq<Op>, s: nat)
    requires IsForest(p) && Analysable(p) && OnlyStart(p, s)
    ensures Unwaited(p, s) <==> forall e: nat :: !WaitsFor(p, e, s)
  {
    forall e: nat | e < |p| && p[e].parent == p[s].parent && p[e].kind == Wait(p[s].kind.inv) ensures WaitsFor(p, e, s) {
      WaitIsLater(p, s, e);
    }
  }

  /** A wait comes after the only start of its invocation, and is for it. */
  lemma {:induction false} WaitIsLater(p: seq<Op>, s: nat, e: nat)
    requires IsForest(p) && Analysable(p) && OnlyStart(p, s) && e < |p| && p[e].kind == Wait(p[s].kind.inv)
    ensures s < e && p[s].kind.inv in StartsOf(p, e) && StartsOf(p, e)[p[s].kind.inv] == s
  {
    assert StepOk(p, e);
    StartsAreThere(p, e, p[s].kind.inv);
  }

  // -------------------------------------------------------------------------
  // A region run once

  /** The operations of region `k` from `i` on: `x` with the given body, all others without going through their regions. */
  ghost function Once(p: seq<Op>, k: nat, i: nat, x: nat, body: Iterations): Execs
    decreases |p| - i
  {
    if i >= |p| then Nil
    else if p[i].parent == k then Cons(Exec(i, if i == x then body else Stop), Once(p, k, i + 1, x, body))
    else Once(p, k, i + 1, x, body)
  }

  lemma {:induction false} OnceIsWell(p: seq<Op>, k: nat, i: nat, x: nat, body: Iterations)
    requires WellIterations(p, x, body)
    ensures WellExecs(p, k, i, Once(p, k, i, x, body))
    decreases |p| - i
  {
    if i < |p| {
      OnceIsWell(p, k, i + 1, x, body);
      if p[i].parent != k { SkipsOne(p, k, i, Once(p, k, i + 1, x, body)); }
    }
  }

  lemma SkipsOne(p: seq<Op>, k: nat, i: nat, es: Execs)
    requires i < |p| && p[i].parent != k && WellExecs(p, k, i + 1, es)
    ensures WellExecs(p, k, i, es)
  {}

  lemma {:induction false} FreesKeepFlying(p: seq<Op>, m: Memory, frees: seq<Value>)
    ensures FreeAll(p, m, frees).Some? ==> FreeAll(p, m, frees).value.flying == m.flying
    decreases |frees|
  {
    if frees != [] { FreesKeepFlying(p, m.(live := m.live - {frees[0]}), frees[1..]); }
  }

  /** An operation that is not a wait for `s`, run without its region, leaves `s` in flight. */
  lemma {:induction false} StaysInFlight(p: seq<Op>, after: seq<seq<Value>>, c: nat, s: nat, m: Memory)
    requires |after| == |p| && c < |p| && OnlyStart(p, s) && p[c].kind != Wait(p[s].kind.inv) && s in m.flying
    ensures var r := RunOp(p, after, Exec(c, Stop), m); r.Some? ==> s in r.value.flying && c != s
  {
    assert s in InFlight(p, m.flying, p[s].kind.inv);
    var m2 := Effect(p, c, m);
    if m2.Some? {
      FreesKeepFlying(p, m2.value, after[c]);
    }
  }

  /** Running `s` leaves it in flight. */
  lemma {:induction false} GetsInFlight(p: seq<Op>, after: seq<seq<Value>>, s: nat, m: Memory)
    requires |after| == |p| && s < |p| && p[s].kind.Start?
    ensures var r := RunOp(p, after, Exec(s, Stop), m); r.Some? ==> s in r.value.flying
  {
    var m2 := Effect(p, s, m);
    if m2.Some? {
      FreesKeepFlying(p, m2.value, after[s]);
    }
  }

  /** Nothing in its region ends `s`: after the region is run once `s` is in flight, and it cannot be run again. */
  lemma {:induction false} LeavesInFlight(p: seq<Op>, after: seq<seq<Value>>, s: nat, i: nat, m: Memory)
    requires |after| == |p| && Unwaited(p, s)
    ensures var r := RunExecs(p, after, Once(p, p[s].parent, i, s, Stop), m);
            && (r.Some? && (i <= s || s in m.flying) ==> s in r.value.flying)
            && (r.Some? && s in m.flying ==> s < i)
    decreases |p| - i
  {
    hide RunOp;
    if i < |p| {
      if p[i].parent == p[s].parent {
        var m1 := RunOp(p, after, Exec(i, Stop), m);
        if m1.Some? {
          if i == s { GetsInFlight(p, after, s, m); }
          if s in m.flying { StaysInFlight(p, after, i, s, m); }
          LeavesInFlight(p, after, s, i + 1, m1.value);
        }
      } else {
        LeavesInFlight(p, after, s, i + 1, m);
      }
    }
  }

  // -------------------------------------------------------------------------
  // From a region to the whole function

  /** The run that goes through the operations around `c` once, and through `c` with the given body. */
  ghost function Through(p: seq<Op>, c: nat, body: Iterations): Execs
    requires IsForest(p) && c < |p|
    decreases |p| - c
  {
    var es := Once(p, p[c].parent, 0, c, body);
    if p[c].parent == |p| then es else Through(p, p[c].parent, Again(es, Stop))
  }

  lemma {:induction false} ThroughIsWell(p: seq<Op>, c: nat, body: Iterations)
    requires IsForest(p) && c < |p| && WellIterations(p, c, body)
    ensures WellExecs(p, |p|, 0, Through(p, c, body))
    decreases |p| - c
  {
    OnceIsWell(p, p[c].parent, 0, c, body);
    if p[c].parent < |p| {
      ThroughIsWell(p, p[c].parent, Again(Once(p, p[c].parent, 0, c, body), Stop));
    }
  }

  /** Whatever the state, these iterations get stuck. */
  ghost predicate Stuck(p: seq<Op>, after: seq<seq<Value>>, body: Iterations)
    requires |after| == |p|
  {
    forall m :: RunIterations(p, after, body, m) == None
  }

  lemma {:induction false} OnceIsStuck(
      p: seq<Op>, after: seq<seq<Value>>, c: nat, body: Iterations, i: nat, m: Memory)
    requires |after| == |p| && c < |p| && i <= c && Stuck(p, after, body)
    ensures RunExecs(p, after, Once(p, p[c].parent, i, c, body), m) == None
    decreases |p| - i
  {
    if i == c {
      assert RunIterations(p, after, body, m) == None;
      assert RunOp(p, after, Exec(c, body), m) == None;
    } else if p[i].parent == p[c].parent {
      var m1 := RunOp(p, after, Exec(i, Stop), m);
      if m1.Some? { OnceIsStuck(p, after, c, body, i + 1, m1.value); }
    } else {
      OnceIsStuck(p, after, c, body, i + 1, m);
    }
  }

  lemma {:induction false} ThroughIsStuck(p: seq<Op>, after: seq<seq<Value>>, c: nat, body: Iterations, m: Memory)
    requires IsForest(p) && |after| == |p| && c < |p| && Stuck(p, after, body)
    ensures RunExecs(p, after, Through(p, c, body), m) == None
    decreases |p| - c
  {
    var es := Once(p, p[c].parent, 0, c, body);
    if p[c].parent == |p| {
      OnceIsStuck(p, after, c, body, 0, m);
    } else {
      var around := Again(es, Stop);
      forall m1 ensures RunIterations(p, after, around, m1) == None { OnceIsStuck(p, after, c, body, 0, m1); }
      ThroughIsStuck(p, after, p[c].parent, around, m);
    }
  }

  /** A region that starts a program and does not wait for it cannot be run twice. */
  lemma {:induction false} TwiceIsStuck(p: seq<Op>, after: seq<seq<Value>>, s: nat)
    requires |after| == |p| && Unwaited(p, s)
    ensures var es := Once(p, p[s].parent, 0, s, Stop); Stuck(p, after, Again(es, Again(es, Stop)))
  {
    var es := Once(p, p[s].parent, 0, s, Stop);
    forall m ensures RunIterations(p, after, Again(es, Again(es, Stop)), m) == None {
      LeavesInFlight(p, after, s, 0, m);
      var m1 := RunExecs(p, after, es, m);
      if m1.Some? {
        LeavesInFlight(p, after, s, 0, m1.value);
        assert RunExecs(p, after, es, m1.value) == None;
        assert RunIterations(p, after, Again(es, Stop), m1.value) == None;
      }
    }
  }

  // -------------------------------------------------------------------------
  // The converse

  /** A run that goes wrong: at the top of the function `s` is in flight at the end; in an inner region, which is run
      twice, `s` is started while it is in flight. */
  lemma UnwaitedGoesWrong(p: seq<Op>, after: seq<seq<Value>>, s: nat) returns (run: Execs)
    requires IsForest(p) && |after| == |p| && Unwaited(p, s)
    ensures WellExecs(p, |p|, 0, run) && !Fine(p, after, run)
  {
    var k := p[s].parent;
    var es := Once(p, k, 0, s, Stop);
    OnceIsWell(p, k, 0, s, Stop);
    if k == |p| {
      run := es;
      LeavesInFlight(p, after, s, 0, Memory({}, {}));
    } else {
      var twice := Again(es, Again(es, Stop));
      assert WellIterations(p, k, Again(es, Stop));
      TwiceIsStuck(p, after, s);
      ThroughIsWell(p, k, twice);
      ThroughIsStuck(p, after, k, twice, Memory({}, {}));
      run := Through(p, k, twice);
    }
  }

  /** For a function that starts every invocation in one place: all its runs are fine if and only if every program is
      waited for later in the region that starts it. */
  lemma {:induction false} FineExactlyIfWaited(p: seq<Op>, after: seq<seq<Value>>)
    requires IsForest(p) && IsSsa(p) && Analysable(p) && Inserted(p, after) && OneStartEach(p)
    ensures Waited(p) <==> forall run :: WellExecs(p, |p|, 0, run) ==> Fine(p, after, run)
  {
    if Waited(p) {
      forall run | WellExecs(p, |p|, 0, run) ensures Fine(p, after, run) { EveryRunFreesAll(p, after, run); }
    } else {
      var s: nat :| s < |p| && p[s].kind.Start? && !exists e: nat :: WaitsFor(p, e, s);
      assert OnlyStart(p, s);
      WaitedOrNot(p, s);
      var run := UnwaitedGoesWrong(p, after, s);
    }
  }
}
