/** Assignment of slices to the programs of a straight-line region. */
module SliceScheduling {
  import opened Basics
  import opened ForallUnrolling

  /** What the defining operation of an invocation says: whether it is a create_invocation, and its executor if it has one. */
  type Ids<!N> = map<N, Option<nat>>

  // -------------------------------------------------------------------------
  // Programs in flight

  /** The invocations started and not yet waited for after the first `k` operations. */
  ghost function InFlight<N>(ops: seq<Op<N>>, k: nat): set<N>
    requires k <= |ops| && HasInvocations(ops)
  {
    if k == 0 then {}
    else if ops[k - 1].kind.Start? then InFlight(ops, k - 1) + {ops[k - 1].operands[0]}
    else if ops[k - 1].kind.Wait? then InFlight(ops, k - 1) - {ops[k - 1].operands[0]}
    else InFlight(ops, k - 1)
  }

  ghost predicate HasInvocations<N>(ops: seq<Op<N>>) {
    forall k :: 0 <= k < |ops| && !ops[k].kind.Other? ==> |ops[k].operands| > 0
  }

  /** Every wait is for a program in flight. */
  ghost predicate WaitsMatch<N>(ops: seq<Op<N>>)
    requires HasInvocations(ops)
  {
    forall k :: 0 <= k < |ops| && ops[k].kind.Wait? ==> ops[k].operands[0] in InFlight(ops, k)
  }

  ghost predicate Assigned<N>(ids: Ids<N>, x: N, e: nat) {
    x in ids && ids[x] == Some(e)
  }

  ghost predicate HasSlice<N>(ids: Ids<N>, x: N, count: nat) {
    exists e: nat :: e < count && Assigned(ids, x, e)
  }

  /** Programs in flight have a slice each, and no two the same. */
  ghost predicate Exclusive<N(!new)>(ids: Ids<N>, flying: set<N>, count: nat) {
    && (forall x :: x in flying ==> HasSlice(ids, x, count))
    && forall x, y, e: nat :: x in flying && y in flying && Assigned(ids, x, e) && Assigned(ids, y, e) ==> x == y
  }

  ghost predicate Runs<N(!new)>(ids: Ids<N>, flying: set<N>, e: nat) {
    exists x :: x in flying && Assigned(ids, x, e)
  }

  /** `busy` says which slices run a program in flight. */
  ghost predicate BusyIs<N(!new)>(ids: Ids<N>, flying: set<N>, busy: seq<bool>) {
    forall e: nat :: e < |busy| ==> (busy[e] <==> Runs(ids, flying, e))
  }

  // -------------------------------------------------------------------------
  // The scheduler

  /** The first slice that is not busy, if any. */
  method FirstFree(busy: seq<bool>) returns (e: nat)
    ensures e <= |busy|
    ensures e < |busy| ==> !busy[e]
    ensures forall f :: 0 <= f < e ==> busy[f]
  {
    e := 0;
    while e < |busy| && busy[e]
      invariant e <= |busy| && forall f :: 0 <= f < e ==> busy[f]
    {
      e := e + 1;
    }
  }

  /** Ids are only added, to invocations that are started. */
  ghost predicate Extends<N(!new)>(ids: Ids<N>, ids0: Ids<N>, ops: seq<Op<N>>, k: nat)
    requires k <= |ops| && HasInvocations(ops)
  {
    && ids.Keys == ids0.Keys
    && (forall x :: x in ids0 && ids0[x].Some? ==> ids[x] == ids0[x])
    && (forall x :: x in ids0 && ids[x] != ids0[x] ==> StartedBefore(ops, k, x))
  }

  ghost predicate StartedBefore<N>(ops: seq<Op<N>>, k: nat, x: N)
    requires k <= |ops| && HasInvocations(ops)
  {
    exists j :: 0 <= j < k && ops[j].kind.Start? && ops[j].operands[0] == x
  }

  /** Starting a program on slice `e`. */
  lemma StartOn<N(!new)>(ids: Ids<N>, flying: set<N>, busy: seq<bool>, x: N, e: nat)
    requires Exclusive(ids, flying, |busy|) && BusyIs(ids, flying, busy)
    requires x in ids && (ids[x] == None || ids[x] == Some(e)) && e < |busy| && !busy[e]
    ensures Exclusive(ids[x := Some(e)], flying + {x}, |busy|)
    ensures BusyIs(ids[x := Some(e)], flying + {x}, busy[e := true])
  {
    var ids1 := ids[x := Some(e)];
    assert !Runs(ids, flying, e);
    assert forall y :: y in flying ==> !Assigned(ids, y, e);
    assert forall y :: y in flying ==> HasSlice(ids, y, |busy|);
    assert x !in flying;
    forall y | y in flying ensures HasSlice(ids1, y, |busy|) {
      assert HasSlice(ids, y, |busy|);
      var f: nat :| f < |busy| && Assigned(ids, y, f);
      assert Assigned(ids1, y, f);
    }
    assert Assigned(ids1, x, e);
    forall y, z, f: nat | y in flying + {x} && z in flying + {x} && Assigned(ids1, y, f) && Assigned(ids1, z, f)
        ensures y == z {
      if y != x {
        assert Assigned(ids, y, f);
      }
      if z != x {
        assert Assigned(ids, z, f);
      }
    }
    forall f: nat | f < |busy| ensures busy[e := true][f] <==> Runs(ids1, flying + {x}, f) {
      if y :| y in flying && Assigned(ids, y, f) {
        assert Assigned(ids1, y, f);
      }
      if y :| y in flying && Assigned(ids1, y, f) {
        assert Assigned(ids, y, f);
      }
    }
  }

  /** Waiting for a program on slice `e`. */
  lemma WaitOn<N(!new)>(ids: Ids<N>, flying: set<N>, busy: seq<bool>, x: N, e: nat)
    requires Exclusive(ids, flying, |busy|) && BusyIs(ids, flying, busy)
    requires Assigned(ids, x, e) && x in flying && e < |busy|
    ensures Exclusive(ids, flying - {x}, |busy|)
    ensures BusyIs(ids, flying - {x}, busy[e := false])
  {
    forall f: nat | f < |busy| ensures busy[e := false][f] <==> Runs(ids, flying - {x}, f) {
      if f != e {
        if y :| y in flying && Assigned(ids, y, f) {
          assert y in flying - {x};
        }
      }
    }
  }

  /** A program that gets a slice was never in flight without one. */
  lemma {:induction false} StaysExclusive<N(!new)>(ops: seq<Op<N>>, ids: Ids<N>, j: nat, x: N, e: nat, count: nat)
    requires HasInvocations(ops) && j <= |ops| && Exclusive(ids, InFlight(ops, j), count)
    requires x in ids && (ids[x] == None || ids[x] == Some(e))
    ensures Exclusive(ids[x := Some(e)], InFlight(ops, j), count)
  {
    var flying := InFlight(ops, j);
    forall y | y in flying ensures HasSlice(ids[x := Some(e)], y, count) && (y == x ==> ids[x] == Some(e)) {
      assert HasSlice(ids, y, count);
      var f: nat :| f < count && Assigned(ids, y, f);
      assert Assigned(ids[x := Some(e)], y, f);
    }
    forall y, f: nat | y in flying && Assigned(ids[x := Some(e)], y, f) ensures Assigned(ids, y, f) {}
  }

  lemma ExtendsOn<N(!new)>(ids: Ids<N>, ids0: Ids<N>, ops: seq<Op<N>>, k: nat)
    requires k < |ops| && HasInvocations(ops) && Extends(ids, ids0, ops, k)
    ensures Extends(ids, ids0, ops, k + 1)
  {
    forall x | StartedBefore(ops, k, x) ensures StartedBefore(ops, k + 1, x) {}
  }

  lemma ExtendsStart<N(!new)>(ids: Ids<N>, ids0: Ids<N>, ops: seq<Op<N>>, k: nat, e: nat)
    requires k < |ops| && HasInvocations(ops) && ops[k].kind.Start? && Extends(ids, ids0, ops, k)
    requires ops[k].operands[0] in ids && (ids[ops[k].operands[0]] == None || ids[ops[k].operands[0]] == Some(e))
    ensures Extends(ids[ops[k].operands[0] := Some(e)], ids0, ops, k + 1)
  {
    assert StartedBefore(ops, k + 1, ops[k].operands[0]);
    ExtendsOn(ids, ids0, ops, k);
  }

  lemma NothingStarted<N(!new)>(ops: seq<Op<N>>, ids: Ids<N>, busy: seq<bool>)
    requires HasInvocations(ops) && forall e :: 0 <= e < |busy| ==> !busy[e]
    ensures Extends(ids, ids, ops, 0) && BusyIs(ids, {}, busy) && Exclusive(ids, {}, |busy|)
  {}

  // -------------------------------------------------------------------------
  // How many programs fit

  /** Every invocation is created without a slice and started once. */
  ghost predicate StartedOnce<N(!new)>(ops: seq<Op<N>>, ids: Ids<N>)
    requires HasInvocations(ops)
  {
    && (forall k :: 0 <= k < |ops| && ops[k].kind.Start? ==> ops[k].operands[0] in ids && ids[ops[k].operands[0]] == None)
    && forall k, l :: 0 <= k < l < |ops| && ops[k].kind.Start? && ops[l].kind.Start? ==>
                        ops[k].operands[0] != ops[l].operands[0]
  }

  ghost predicate NeverMoreThan<N>(ops: seq<Op<N>>, count: nat)
    requires HasInvocations(ops)
  {
    forall k :: 0 <= k <= |ops| ==> |InFlight(ops, k)| <= count
  }

  lemma LowerSlice<N(!new)>(ids: Ids<N>, z: N, count: nat)
    requires HasSlice(ids, z, count) && count > 0 && !Assigned(ids, z, count - 1)
    ensures HasSlice(ids, z, count - 1)
  {
    var e: nat :| e < count && Assigned(ids, z, e);
    assert e < count - 1;
  }

  lemma OneSliceLess<N(!new)>(ids: Ids<N>, flying: set<N>, x: N, count: nat)
    requires count > 0 && Exclusive(ids, flying, count) && x in flying && Assigned(ids, x, count - 1)
    ensures Exclusive(ids, flying - {x}, count - 1)
  {
    forall z | z in flying - {x} ensures HasSlice(ids, z, count - 1) { LowerSlice(ids, z, count); }
  }

  /** Programs with a slice of their own each are no more than the slices. */
  lemma {:induction false} AtMostSlices<N(!new)>(ids: Ids<N>, flying: set<N>, count: nat)
    requires Exclusive(ids, flying, count)
    ensures |flying| <= count
    decreases count
  {
    hide HasSlice;
    if flying != {} {
      SomeSlice(ids, flying, count);
      if x :| x in flying && Assigned(ids, x, count - 1) {
        OneSliceLess(ids, flying, x, count);
        AtMostSlices(ids, flying - {x}, count - 1);
      } else {
        forall z | z in flying ensures HasSlice(ids, z, count - 1) { LowerSlice(ids, z, count); }
        AtMostSlices(ids, flying, count - 1);
      }
    }
  }

  lemma SomeSlice<N(!new)>(ids: Ids<N>, flying: set<N>, count: nat)
    requires Exclusive(ids, flying, count) && flying != {}
    ensures count > 0
  {
    var y :| y in flying;
    assert HasSlice(ids, y, count);
  }

  /** When all slices are busy there are as many programs in flight. */
  lemma {:induction false} AllSlicesBusy<N(!new)>(ids: Ids<N>, flying: set<N>, count: nat)
    requires forall e: nat :: e < count ==> Runs(ids, flying, e)
    ensures |flying| >= count
    decreases count
  {
    if count > 0 {
      assert Runs(ids, flying, count - 1);
      var x :| x in flying && Assigned(ids, x, count - 1);
      forall e: nat | e < count - 1 ensures Runs(ids, flying - {x}, e) {
        assert Runs(ids, flying, e);
        var y :| y in flying && Assigned(ids, y, e);
        assert y in flying - {x};
      }
      AllSlicesBusy(ids, flying - {x}, count - 1);
    }
  }

  lemma {:induction false} InFlightStarted<N>(ops: seq<Op<N>>, k: nat, x: N)
    requires HasInvocations(ops) && k <= |ops| && x in InFlight(ops, k)
    ensures StartedBefore(ops, k, x)
    decreases k
  {
    if !(ops[k - 1].kind.Start? && ops[k - 1].operands[0] == x) {
      InFlightStarted(ops, k - 1, x);
      var j :| 0 <= j < k - 1 && ops[j].kind.Start? && ops[j].operands[0] == x;
    }
  }

  /** If a start finds all slices busy then it would be one program too many. */
  lemma {:induction false} OneTooMany<N(!new)>(ops: seq<Op<N>>, ids: Ids<N>, ids0: Ids<N>, busy: seq<bool>, k: nat)
    requires HasInvocations(ops) && StartedOnce(ops, ids0) && k < |ops| && ops[k].kind.Start?
    requires BusyIs(ids, InFlight(ops, k), busy) && forall e :: 0 <= e < |busy| ==> busy[e]
    ensures !NeverMoreThan(ops, |busy|)
  {
    AllSlicesBusy(ids, InFlight(ops, k), |busy|);
    var x := ops[k].operands[0];
    if x in InFlight(ops, k) { InFlightStarted(ops, k, x); }
    assert |InFlight(ops, k + 1)| == |InFlight(ops, k)| + 1;
  }

  lemma WaitHasSlice<N(!new)>(ids: Ids<N>, flying: set<N>, count: nat, x: N)
    requires Exclusive(ids, flying, count) && x in flying
    ensures x in ids && ids[x].Some? && ids[x].value < count
  {
    assert HasSlice(ids, x, count);
  }

  lemma NotStartedYet<N(!new)>(ops: seq<Op<N>>, ids: Ids<N>, ids0: Ids<N>, k: nat)
    requires HasInvocations(ops) && StartedOnce(ops, ids0) && k < |ops| && ops[k].kind.Start?
    requires Extends(ids, ids0, ops, k)
    ensures ops[k].operands[0] in ids && ids[ops[k].operands[0]] == None
  {}

  lemma {:induction false} ExclusiveFits<N(!new)>(ops: seq<Op<N>>, ids: Ids<N>, count: nat)
    requires HasInvocations(ops) && forall k :: 0 <= k <= |ops| ==> Exclusive(ids, InFlight(ops, k), count)
    ensures NeverMoreThan(ops, count)
  {
    hide Exclusive;
    forall k | 0 <= k <= |ops| ensures |InFlight(ops, k)| <= count { AtMostSlices(ids, InFlight(ops, k), count); }
  }

  /** `x` has the first slice that no program in flight runs on. */
  ghost predicate FirstFit<N(!new)>(ids: Ids<N>, flying: set<N>, x: N) {
    exists e: nat :: Assigned(ids, x, e) && !Runs(ids, flying, e) && forall f: nat :: f < e ==> Runs(ids, flying, f)
  }

  /** Operation `k` starts a program that has no slice yet. */
  ghost predicate Placed<N>(ops: seq<Op<N>>, ids0: Ids<N>, k: nat)
    requires HasInvocations(ops) && k < |ops|
  {
    ops[k].kind.Start? && ops[k].operands[0] in ids0 && ids0[ops[k].operands[0]] == None
    && !StartedBefore(ops, k, ops[k].operands[0])
  }

  ghost predicate AllFirstFit<N(!new)>(ops: seq<Op<N>>, ids0: Ids<N>, ids: Ids<N>, n: nat)
    requires HasInvocations(ops) && n <= |ops|
  {
    forall k :: 0 <= k < n && Placed(ops, ids0, k) ==> FirstFit(ids, InFlight(ops, k), ops[k].operands[0])
  }

  /** Programs in flight have their slices already, so a new assignment does not concern them. */
  lemma RunsStays<N(!new)>(ids: Ids<N>, flying: set<N>, x: N, e: nat, count: nat)
    requires Exclusive(ids, flying, count) && x in ids && (ids[x] == None || ids[x] == Some(e))
    ensures forall f: nat :: Runs(ids[x := Some(e)], flying, f) <==> Runs(ids, flying, f)
  {
    var ids1 := ids[x := Some(e)];
    assert forall y :: y in flying ==> HasSlice(ids, y, count);
    forall f: nat ensures Runs(ids1, flying, f) <==> Runs(ids, flying, f) {
      if y :| y in flying && Assigned(ids, y, f) { assert Assigned(ids1, y, f); }
      if y :| y in flying && Assigned(ids1, y, f) { assert Assigned(ids, y, f); }
    }
  }

  lemma FitStays<N(!new)>(ids: Ids<N>, flying: set<N>, z: N, x: N, e: nat, count: nat)
    requires Exclusive(ids, flying, count) && x in ids && (ids[x] == None || ids[x] == Some(e))
    requires FirstFit(ids, flying, z)
    ensures FirstFit(ids[x := Some(e)], flying, z)
  {
    RunsStays(ids, flying, x, e, count);
    var g: nat :| Assigned(ids, z, g) && !Runs(ids, flying, g) && forall f: nat :: f < g ==> Runs(ids, flying, f);
    var ids1 := ids[x := Some(e)];
    assert Assigned(ids1, z, g) && !Runs(ids1, flying, g);
    forall f: nat | f < g ensures Runs(ids1, flying, f) { assert Runs(ids, flying, f); }
  }

  lemma {:induction false} FitsStay<N(
        !new)>(ops: seq<Op<N>>, ids0: Ids<N>, ids: Ids<N>, k: nat, x: N, e: nat, count: nat)
    requires HasInvocations(ops) && k <= |ops| && AllFirstFit(ops, ids0, ids, k)
    requires x in ids && (ids[x] == None || ids[x] == Some(e))
    requires forall j :: 0 <= j <= k ==> Exclusive(ids, InFlight(ops, j), count)
    ensures AllFirstFit(ops, ids0, ids[x := Some(e)], k)
  {
    hide Exclusive;
    hide FirstFit;
    forall j | 0 <= j < k && Placed(ops, ids0, j)
      ensures FirstFit(ids[x := Some(e)], InFlight(ops, j), ops[j].operands[0])
    {
      FitStays(ids, InFlight(ops, j), ops[j].operands[0], x, e, count);
    }
  }

  /** The first slice that is not busy is the first that no program in flight runs on. */
  lemma FitsNow<N(!new)>(ids: Ids<N>, flying: set<N>, busy: seq<bool>, x: N, e: nat)
    requires Exclusive(ids, flying, |busy|) && BusyIs(ids, flying, busy) && x in ids && ids[x] == None
    requires e < |busy| && !busy[e] && forall f :: 0 <= f < e ==> busy[f]
    ensures FirstFit(ids[x := Some(e)], flying, x)
  {
    RunsStays(ids, flying, x, e, |busy|);
    var ids1 := ids[x := Some(e)];
    assert Assigned(ids1, x, e) && !Runs(ids, flying, e) && !Runs(ids1, flying, e);
    assert forall f: nat :: f < e ==> Runs(ids1, flying, f) by {
      forall f: nat | f < e ensures Runs(ids1, flying, f) { assert busy[f] && Runs(ids, flying, f); }
    }
  }

  lemma NotPlaced<N(!new)>(ops: seq<Op<N>>, ids0: Ids<N>, ids: Ids<N>, k: nat)
    requires HasInvocations(ops) && k < |ops| && Extends(ids, ids0, ops, k)
    ensures Placed(ops, ids0, k) ==> ids[ops[k].operands[0]] == None
  {}

  // -------------------------------------------------------------------------
  // Exactly when a start succeeds

  ghost predicate LowestFree<N(!new)>(ids: Ids<N>, flying: set<N>, count: nat, e: nat) {
    e < count && !Runs(ids, flying, e) && forall f: nat :: f < e ==> Runs(ids, flying, f)
  }

  /** With never more than `most` programs in flight, only the first `most` slices are used. */
  lemma FirstSlicesOnly<N(!new)>(ops: seq<Op<N>>, ids0: Ids<N>, ids: Ids<N>, most: nat, k: nat)
    requires HasInvocations(ops) && AllFirstFit(ops, ids0, ids, |ops|) && NeverMoreThan(ops, most)
    requires k < |ops| && Placed(ops, ids0, k)
    ensures HasSlice(ids, ops[k].operands[0], most)
  {
    var x, flying := ops[k].operands[0], InFlight(ops, k);
    assert FirstFit(ids, flying, x);
    var e: nat :| Assigned(ids, x, e) && !Runs(ids, flying, e) && forall f: nat :: f < e ==> Runs(ids, flying, f);
    AllSlicesBusy(ids, flying, e);
    if x in flying { InFlightStarted(ops, k, x); }
    assert |InFlight(ops, k + 1)| == |flying| + 1;
  }

  /** The slices after the first `k` operations: a program that is started without one gets the lowest on which no
      program in flight runs, and keeps it. */
  ghost function IdsAfter<N(!new)>(ops: seq<Op<N>>, count: nat, ids0: Ids<N>, k: nat): Ids<N>
    requires HasInvocations(ops) && k <= |ops|
  {
    if k == 0 then ids0 else
    var ids, flying := IdsAfter(ops, count, ids0, k - 1), InFlight(ops, k - 1);
    if Placed(ops, ids0, k - 1) then
      if e: nat :| LowestFree(ids, flying, count, e) then ids[ops[k - 1].operands[0] := Some(e)] else ids
    else ids
  }

  /** A program without a slice can start if fewer programs are in flight than there are slices. One that has a slice,
      given beforehand or by an earlier start, can start if no program in flight runs on it. */
  ghost predicate Startable<N(!new)>(ops: seq<Op<N>>, count: nat, ids0: Ids<N>, k: nat)
    requires HasInvocations(ops) && k < |ops| && ops[k].kind.Start?
  {
    var x, ids := ops[k].operands[0], IdsAfter(ops, count, ids0, k);
    && x in ids0
    && if Placed(ops, ids0, k) then |InFlight(ops, k)| < count
       else HasSlice(ids, x, count) && forall e: nat :: Assigned(ids, x, e) ==> !Runs(ids, InFlight(ops, k), e)
  }

  ghost predicate AllStartable<N(!new)>(ops: seq<Op<N>>, count: nat, ids0: Ids<N>, n: nat)
    requires HasInvocations(ops) && n <= |ops|
  {
    forall k :: 0 <= k < n && ops[k].kind.Start? ==> Startable(ops, count, ids0, k)
  }

  /** The scan has come to `k` with exactly these slices, and all that was started has one. */
  ghost predicate Scanned<N(!new)>(ops: seq<Op<N>>, count: nat, ids0: Ids<N>, ids: Ids<N>, k: nat)
    requires HasInvocations(ops) && k <= |ops|
  {
    && ids == IdsAfter(ops, count, ids0, k) && AllStartable(ops, count, ids0, k)
    && forall x :: StartedBefore(ops, k, x) ==> x in ids && ids[x].Some?
  }

  /** With a slice to spare, fewer programs are in flight than there are slices. */
  lemma {:induction false} SliceToSpare<N(!new)>(ids: Ids<N>, flying: set<N>, count: nat, e: nat)
    requires Exclusive(ids, flying, count) && e < count && !Runs(ids, flying, e)
    ensures |flying| < count
    decreases count
  {
    if x :| x in flying && Assigned(ids, x, count - 1) {
      OneSliceLess(ids, flying, x, count);
      assert !Runs(ids, flying - {x}, e);
      SliceToSpare(ids, flying - {x}, count - 1, e);
    } else {
      forall z | z in flying ensures HasSlice(ids, z, count - 1) { LowerSlice(ids, z, count); }
      AtMostSlices(ids, flying, count - 1);
    }
  }

  /** A slice is free exactly if fewer programs are in flight than there are slices. */
  lemma SomeSliceIsFree<N(!new)>(ids: Ids<N>, flying: set<N>, busy: seq<bool>)
    requires Exclusive(ids, flying, |busy|) && BusyIs(ids, flying, busy)
    ensures |flying| < |busy| <==> exists e :: 0 <= e < |busy| && !busy[e]
  {
    if e: nat :| e < |busy| && !busy[e] {
      assert !Runs(ids, flying, e);
      SliceToSpare(ids, flying, |busy|, e);
    } else {
      AllSlicesBusy(ids, flying, |busy|);
    }
  }

  /** What the scan looks at says whether the next start can succeed. */
  lemma {:induction false} CanStart<N(!new)>(ops: seq<Op<N>>, ids0: Ids<N>, ids: Ids<N>, busy: seq<bool>, k: nat)
    requires HasInvocations(ops) && k < |ops| && ops[k].kind.Start?
    requires Scanned(ops, |busy|, ids0, ids, k) && Extends(ids, ids0, ops, k)
    requires Exclusive(ids, InFlight(ops, k), |busy|) && BusyIs(ids, InFlight(ops, k), busy)
    ensures var x := ops[k].operands[0];
            Startable(ops, |busy|, ids0, k) <==>
            x in ids && if ids[x] == None then exists e :: 0 <= e < |busy| && !busy[e]
                        else ids[x].value < |busy| && !busy[ids[x].value]
  {
    var x := ops[k].operands[0];
    if x in ids {
      assert Placed(ops, ids0, k) <==> ids[x] == None;
      if ids[x] == None {
        SomeSliceIsFree(ids, InFlight(ops, k), busy);
      } else {
        assert Assigned(ids, x, ids[x].value);
      }
    }
  }

  lemma LowestIsOne<N(!new)>(ids: Ids<N>, flying: set<N>, busy: seq<bool>, e: nat)
    requires BusyIs(ids, flying, busy) && e < |busy| && !busy[e] && forall f :: 0 <= f < e ==> busy[f]
    ensures forall f: nat :: LowestFree(ids, flying, |busy|, f) <==> f == e
  {
    hide Runs;
    forall f: nat | LowestFree(ids, flying, |busy|, f) ensures f == e {
      assert Runs(ids, flying, e) <==> busy[e];
      assert Runs(ids, flying, f) <==> busy[f];
    }
  }

  lemma NextIds<N(!new)>(ops: seq<Op<N>>, count: nat, ids0: Ids<N>, k: nat, e: nat)
    requires HasInvocations(ops) && k < |ops| && ops[k].kind.Start? && ops[k].operands[0] in ids0
    requires Placed(ops, ids0, k) ==>
               forall f: nat :: LowestFree(IdsAfter(ops, count, ids0, k), InFlight(ops, k), count, f) <==> f == e
    requires !Placed(ops, ids0, k) ==> Assigned(IdsAfter(ops, count, ids0, k), ops[k].operands[0], e)
    ensures IdsAfter(ops, count, ids0, k + 1) == IdsAfter(ops, count, ids0, k)[ops[k].operands[0] := Some(e)]
  {
    hide Placed;
    hide LowestFree;
    hide InFlight;
    var ids, flying := IdsAfter(ops, count, ids0, k), InFlight(ops, k);
    if Placed(ops, ids0, k) {
      assert LowestFree(ids, flying, count, e);
    } else {
      assert ids[ops[k].operands[0] := Some(e)] == ids;
    }
  }

  lemma OneMoreStarted<N>(ops: seq<Op<N>>, k: nat, y: N)
    requires HasInvocations(ops) && k < |ops| && StartedBefore(ops, k + 1, y)
    ensures StartedBefore(ops, k, y) || (ops[k].kind.Start? && ops[k].operands[0] == y)
  {}

  /** A start that succeeds leaves the slices of the specification. */
  lemma {:induction false} ScannedStart<N(
        !new)>(ops: seq<Op<N>>, ids0: Ids<N>, ids: Ids<N>, busy: seq<bool>, k: nat, e: nat)
    requires HasInvocations(ops) && k < |ops| && ops[k].kind.Start?
    requires Scanned(ops, |busy|, ids0, ids, k) && Extends(ids, ids0, ops, k) && BusyIs(ids, InFlight(ops, k), busy)
    requires Startable(ops, |busy|, ids0, k) && e < |busy| && !busy[e] && ops[k].operands[0] in ids
    requires ids[ops[k].operands[0]] == Some(e) || (ids[ops[k].operands[0]] == None && forall f :: 0 <= f < e ==> busy[f])
    ensures Scanned(ops, |busy|, ids0, ids[ops[k].operands[0] := Some(e)], k + 1)
  {
    var x := ops[k].operands[0];
    assert Placed(ops, ids0, k) <==> ids[x] == None;
    hide Placed;
    hide Startable;
    hide StartedBefore;
    hide InFlight;
    hide LowestFree;
    if ids[x] == None { LowestIsOne(ids, InFlight(ops, k), busy, e); }
    NextIds(ops, |busy|, ids0, k, e);
    hide BusyIs;
    hide Extends;
    hide IdsAfter;
    forall y | StartedBefore(ops, k + 1, y) ensures y == x || StartedBefore(ops, k, y) { OneMoreStarted(ops, k, y); }
  }

  lemma ScannedOther<N(!new)>(ops: seq<Op<N>>, count: nat, ids0: Ids<N>, ids: Ids<N>, k: nat)
    requires HasInvocations(ops) && k < |ops| && !ops[k].kind.Start? && Scanned(ops, count, ids0, ids, k)
    ensures Scanned(ops, count, ids0, ids, k + 1)
  {
    hide Startable;
    forall y | StartedBefore(ops, k + 1, y) ensures StartedBefore(ops, k, y) {}
  }

  lemma NothingScanned<N(!new)>(ops: seq<Op<N>>, count: nat, ids: Ids<N>)
    requires HasInvocations(ops)
    ensures Scanned(ops, count, ids, ids, 0)
  {}

  lemma {:induction false} ScannedTo<N(!new)>(ops: seq<Op<N>>, count: nat, ids0: Ids<N>, ids: Ids<N>)
    requires HasInvocations(ops) && Scanned(ops, count, ids0, ids, |ops|)
    ensures ids == IdsAfter(ops, count, ids0, |ops|) && AllStartable(ops, count, ids0, |ops|)
  {}

  lemma NotAllStartable<N(!new)>(ops: seq<Op<N>>, count: nat, ids0: Ids<N>, k: nat)
    requires HasInvocations(ops) && k < |ops| && ops[k].kind.Start? && !Startable(ops, count, ids0, k)
    ensures !AllStartable(ops, count, ids0, |ops|)
  {}

  /** Gives every started program without a slice the first free one. It fails when there is none, when a given slice is
      taken, or when an invocation is not known or a wait is for one that has no slice. */
  method Schedule<N(==,!new)>(ops: seq<Op<N>>, count: nat, ids0: Ids<N>) returns (ok: bool, ids: Ids<N>)
    requires HasInvocations(ops)
    ensures ok ==> Extends(ids, ids0, ops, |ops|)
    ensures WaitsMatch(ops) ==> (ok <==> AllStartable(ops, count, ids0, |ops|))
    ensures ok && WaitsMatch(ops) ==> ids == IdsAfter(ops, count, ids0, |ops|)
    ensures ok && WaitsMatch(ops) ==> forall k :: 0 <= k <= |ops| ==> Exclusive(ids, InFlight(ops, k), count)
    ensures ok && WaitsMatch(ops) ==> AllFirstFit(ops, ids0, ids, |ops|)
    ensures WaitsMatch(ops) && StartedOnce(ops, ids0) ==> (ok <==> NeverMoreThan(ops, count))
  {
    hide Exclusive;
    hide BusyIs;
    hide Extends;
    hide StartedOnce;
    hide NeverMoreThan;
    hide FirstFit;
    hide Placed;
    hide Scanned;
    hide AllStartable;
    hide Startable;
    hide InFlight;
    hide AllFirstFit;
    ids := ids0;
    var busy := seq(count, _ => false);
    NothingStarted(ops, ids0, busy);
    NothingScanned(ops, count, ids0);
    NothingFits(ops, ids0);
    for k := 0 to |ops|
      invariant |busy| == count
      invariant Extends(ids, ids0, ops, k)
      invariant WaitsMatch(ops) ==> BusyIs(ids, InFlight(ops, k), busy) && Scanned(ops, count, ids0, ids, k)
      invariant WaitsMatch(ops) ==> forall j :: 0 <= j <= k ==> Exclusive(ids, InFlight(ops, j), count)
      invariant WaitsMatch(ops) ==> AllFirstFit(ops, ids0, ids, k)
    {
      if ops[k].kind.Start? {
        var x := ops[k].operands[0];
        if StartedOnce(ops, ids0) { NotStartedYet(ops, ids, ids0, k); }
        if WaitsMatch(ops) {
          CanStart(ops, ids0, ids, busy, k);
          if !Startable(ops, count, ids0, k) { NotAllStartable(ops, count, ids0, k); }
        }
        if x !in ids {
          return false, ids;
        }
        var e;
        if ids[x] == None {
          e := FirstFree(busy);
          if e == |busy| {
            if WaitsMatch(ops) && StartedOnce(ops, ids0) { OneTooMany(ops, ids, ids0, busy, k); }
            return false, ids;
          }
        } else {
          e := ids[x].value;
          if e >= |busy| || busy[e] {
            return false, ids;
          }
        }
        if WaitsMatch(ops) {
          ScannedStart(ops, ids0, ids, busy, k, e);
          FitsOn(ops, ids0, ids, busy, k, e);
          FlightStarted(ops, k);
          StartOn(ids, InFlight(ops, k), busy, x, e);
          forall j | 0 <= j <= k ensures Exclusive(ids[x := Some(e)], InFlight(ops, j), count) {
            StaysExclusive(ops, ids, j, x, e, count);
          }
        }
        ExtendsStart(ids, ids0, ops, k, e);
        ids := ids[x := Some(e)];
        busy := busy[e := true];
      } else if ops[k].kind.Wait? {
        var x := ops[k].operands[0];
        if WaitsMatch(ops) {
          WaitHasSlice(ids, InFlight(ops, k), count, x);
          ScannedOther(ops, count, ids0, ids, k);
          FitsNothing(ops, ids0, ids, k);
          FlightEnded(ops, k);
        }
        if x !in ids || ids[x] == None || ids[x].value >= |busy| {
          return false, ids;
        }
        if WaitsMatch(ops) { WaitOn(ids, InFlight(ops, k), busy, x, ids[x].value); }
        ExtendsOn(ids, ids0, ops, k);
        busy := busy[ids[x].value := false];
      } else {
        if WaitsMatch(ops) {
          ScannedOther(ops, count, ids0, ids, k);
          FitsNothing(ops, ids0, ids, k);
          FlightEnded(ops, k);
        }
        ExtendsOn(ids, ids0, ops, k);
      }
    }
    ok := true;
    if WaitsMatch(ops) {
      ExclusiveFits(ops, ids, count);
      ScannedTo(ops, count, ids0, ids);
    }
  }

  lemma {:induction false} NothingFits<N(!new)>(ops: seq<Op<N>>, ids: Ids<N>)
    requires HasInvocations(ops)
    ensures AllFirstFit(ops, ids, ids, 0) && InFlight(ops, 0) == {}
  {}

  lemma {:induction false} FlightStarted<N>(ops: seq<Op<N>>, k: nat)
    requires HasInvocations(ops) && k < |ops| && ops[k].kind.Start?
    ensures InFlight(ops, k + 1) == InFlight(ops, k) + {ops[k].operands[0]}
  {}

  lemma {:induction false} FlightEnded<N>(ops: seq<Op<N>>, k: nat)
    requires HasInvocations(ops) && k < |ops| && !ops[k].kind.Start?
    ensures InFlight(ops, k + 1) == if ops[k].kind.Wait? then InFlight(ops, k) - {ops[k].operands[0]} else InFlight(ops, k)
  {}

  lemma FitsNothing<N(!new)>(ops: seq<Op<N>>, ids0: Ids<N>, ids: Ids<N>, k: nat)
    requires HasInvocations(ops) && k < |ops| && !ops[k].kind.Start? && AllFirstFit(ops, ids0, ids, k)
    ensures AllFirstFit(ops, ids0, ids, k + 1)
  {
    hide FirstFit;
  }

  lemma {:induction false} FitsOn<N(!new)>(ops: seq<Op<N>>, ids0: Ids<N>, ids: Ids<N>, busy: seq<bool>, k: nat, e: nat)
    requires HasInvocations(ops) && k < |ops| && ops[k].kind.Start? && AllFirstFit(ops, ids0, ids, k)
    requires Extends(ids, ids0, ops, k) && BusyIs(ids, InFlight(ops, k), busy)
    requires forall j :: 0 <= j <= k ==> Exclusive(ids, InFlight(ops, j), |busy|)
    requires ops[k].operands[0] in ids && e < |busy| && !busy[e]
    requires ids[ops[k].operands[0]] == Some(e) || (ids[ops[k].operands[0]] == None && forall f :: 0 <= f < e ==> busy[f])
    ensures AllFirstFit(ops, ids0, ids[ops[k].operands[0] := Some(e)], k + 1)
  {
    hide Exclusive;
    hide BusyIs;
    hide FirstFit;
    var x := ops[k].operands[0];
    NotPlaced(ops, ids0, ids, k);
    hide Placed;
    FitsStay(ops, ids0, ids, k, x, e, |busy|);
    if ids[x] == None { FitsNow(ids, InFlight(ops, k), busy, x, e); }
  }

  /** Starts and waits for `x`, then starts `y` and `x` again. */
  function Restart<N>(x: N, y: N): seq<Op<N>> {
    [Op(Start, [x], []), Op(Wait, [x], []), Op(Start, [y], []), Op(Start, [x], [])]
  }

  lemma RestartFlights<N>(x: N, y: N)
    ensures HasInvocations(Restart(x, y))
    ensures InFlight(Restart(x, y), 0) == {} && InFlight(Restart(x, y), 1) == {x} && InFlight(Restart(x, y), 2) == {}
    ensures InFlight(Restart(x, y), 3) == {y} && InFlight(Restart(x, y), 4) == {x, y}
  {
    var ops := Restart(x, y);
    assert InFlight(ops, 1) == {x};
    assert InFlight(ops, 2) == {};
    assert InFlight(ops, 3) == {y};
  }

  lemma RestartIds<N(!new)>(x: N, y: N)
    requires x != y
    ensures HasInvocations(Restart(x, y))
    ensures IdsAfter(Restart(x, y), 2, map[x := None, y := None], 3) == map[x := Some(0), y := Some(0)]
    ensures !Placed(Restart(x, y), map[x := None, y := None], 3)
  {
    var ops, ids0: Ids<N> := Restart(x, y), map[x := None, y := None];
    RestartFlights(x, y);
    hide InFlight;
    var ids1: Ids<N> := map[x := Some(0), y := None];
    assert IdsAfter(ops, 2, ids0, 1) == ids1 by { FirstOnNone(ops, ids0, ids0, 0, x); }
    assert StartedBefore(ops, 3, x);
    assert IdsAfter(ops, 2, ids0, 2) == ids1;
    assert Placed(ops, ids0, 2);
    FirstOnNone(ops, ids0, ids1, 2, y);
  }

  /** Two programs at a time, on two slices, and still a start fails: `x` ran on slice 0 and has to run there again, but
      `y` got that slice meanwhile, although slice 1 is free. */
  lemma RestartFails<N(!new)>(x: N, y: N)
    requires x != y
    ensures var ops, ids0: Ids<N> := Restart(x, y), map[x := None, y := None];
            HasInvocations(ops) && WaitsMatch(ops) && NeverMoreThan(ops, 2) && !AllStartable(ops, 2, ids0, 4)
  {
    var ops, ids0: Ids<N> := Restart(x, y), map[x := None, y := None];
    RestartFlights(x, y);
    RestartIds(x, y);
    hide InFlight;
    hide IdsAfter;
    assert forall k :: 0 <= k < 4 && ops[k].kind.Wait? ==> k == 1;
    forall k: nat | k <= 4 ensures |InFlight(ops, k)| <= 2 { assert k == 0 || k == 1 || k == 2 || k == 3 || k == 4; }
    var ids := IdsAfter(ops, 2, ids0, 3);
    assert Assigned(ids, x, 0) && Assigned(ids, y, 0) && Runs(ids, {y}, 0);
    assert !Startable(ops, 2, ids0, 3);
  }

  /** With nothing in flight a program gets slice 0. */
  lemma FirstOnNone<N(!new)>(ops: seq<Op<N>>, ids0: Ids<N>, ids: Ids<N>, k: nat, x: N)
    requires HasInvocations(ops) && k < |ops| && Placed(ops, ids0, k) && ops[k].operands[0] == x
    requires InFlight(ops, k) == {} && IdsAfter(ops, 2, ids0, k) == ids
    ensures IdsAfter(ops, 2, ids0, k + 1) == ids[x := Some(0)]
  {
    assert LowestFree(ids, {}, 2, 0);
    assert !Runs(ids, {}, 0);
    assert forall f: nat :: LowestFree(ids, {}, 2, f) ==> f == 0;
  }

  // -------------------------------------------------------------------------
  // Unrolled loops

  function OpsOf(steps: seq<Step>): (r: seq<Op<Ref>>)
    ensures |r| == |steps|
  {
    seq(|steps|, k requires 0 <= k < |steps| => steps[k].op)
  }

  /** The body starts a program only when the last one has been waited for; it creates and starts each invocation once. */
  ghost predicate Alternating(body: seq<Op<Name>>) {
    && HasInvocations(body) && WaitsMatch(body)
    && (forall k :: 0 <= k < |body| && !body[k].kind.Other? ==> body[k].operands[0].Local?)
    && (forall k :: 0 <= k < |body| && body[k].kind.Start? ==> InFlight(body, k) == {})
    && (forall k, l :: 0 <= k < l < |body| && body[k].kind.Start? && body[l].kind.Start? ==>
          body[k].operands[0] != body[l].operands[0])
  }

  /** Iteration `r.iteration` has `r` in flight. */
  ghost predicate FliesIn(steps: seq<Step>, body: seq<Op<Name>>, k: nat, r: Ref)
    requires k <= |steps| && HasInvocations(body)
  {
    && r.Instance? && Reached(steps, k, r.iteration) <= |body|
    && Local(r.v) in InFlight(body, Reached(steps, k, r.iteration))
  }

  lemma StepInvocation(steps: seq<Step>, body: seq<Op<Name>>, factor: nat)
    requires IsUnrolled(steps, body, factor) && HasInvocations(body)
    ensures HasInvocations(OpsOf(steps))
  {
    forall k | 0 <= k < |steps| && !steps[k].op.kind.Other? ensures |steps[k].op.operands| > 0 {
      NextStep(steps, body, factor, k);
    }
  }

  /** One step changes what is in flight in its own iteration only. */
  lemma FliesNext(steps: seq<Step>, body: seq<Op<Name>>, k: nat, i: nat, n: nat, r: Ref)
    requires HasInvocations(body) && k < |steps| && n < |body| && steps[k] == InstanceOf(i, body[n])
    requires Reached(steps, k, i) == n && Reached(steps, k + 1, i) == n + 1
    requires forall j: nat :: j != i ==> Reached(steps, k + 1, j) == Reached(steps, k, j)
    requires !body[n].kind.Other? ==> body[n].operands[0].Local?
    ensures FliesIn(steps, body, k + 1, r) <==>
              if body[n].kind.Start? then FliesIn(steps, body, k, r) || r == InIteration(i, body[n].operands[0])
              else if body[n].kind.Wait? then FliesIn(steps, body, k, r) && r != InIteration(i, body[n].operands[0])
              else FliesIn(steps, body, k, r)
  {
    hide Reached;
    if r.Instance? && r.iteration != i {
      assert Reached(steps, k + 1, r.iteration) == Reached(steps, k, r.iteration);
    }
  }

  /** In flight are, in every iteration, those of the body at the point it has reached. */
  lemma {:induction false} InFlightByIteration(steps: seq<Step>, body: seq<Op<Name>>, factor: nat, k: nat)
    requires IsUnrolled(steps, body, factor) && Alternating(body) && k <= |steps| && HasInvocations(OpsOf(steps))
    ensures forall r :: r in InFlight(OpsOf(steps), k) <==> FliesIn(steps, body, k, r)
    decreases k
  {
    if k == 0 {
      assert forall r :: !FliesIn(steps, body, 0, r);
    } else {
      InFlightByIteration(steps, body, factor, k - 1);
      NextStep(steps, body, factor, k - 1);
      var i := steps[k - 1].iteration;
      var n := Reached(steps, k - 1, i);
      assert !body[n].kind.Other? ==> steps[k - 1].op.operands[0] == InIteration(i, body[n].operands[0]);
      hide IsUnrolled;
      hide Reached;
      hide FliesIn;
      forall r ensures r in InFlight(OpsOf(steps), k) <==> FliesIn(steps, body, k, r) {
        FliesNext(steps, body, k - 1, i, n, r);
      }
    }
  }

  lemma {:induction false} OneAtATime(body: seq<Op<Name>>, k: nat)
    requires Alternating(body) && k <= |body|
    ensures forall x, y :: x in InFlight(body, k) && y in InFlight(body, k) ==> x == y
    decreases k
  {
    if k > 0 { OneAtATime(body, k - 1); }
  }

  /** References of different iterations only are no more than the iterations. */
  lemma {:induction false} OnePerIteration(refs: set<Ref>, n: nat)
    requires forall r :: r in refs ==> r.Instance? && r.iteration < n
    requires forall r, s :: r in refs && s in refs && r.iteration == s.iteration ==> r == s
    ensures |refs| <= n
    decreases n
  {
    if n == 0 {
      assert forall r :: r !in refs;
      assert refs == {};
    } else if r :| r in refs && r.iteration == n - 1 {
      OnePerIteration(refs - {r}, n - 1);
    } else {
      OnePerIteration(refs, n - 1);
    }
  }

  lemma FliesInFactor(steps: seq<Step>, body: seq<Op<Name>>, factor: nat, k: nat, r: Ref)
    requires IsUnrolled(steps, body, factor) && HasInvocations(body) && k <= |steps| && FliesIn(steps, body, k, r)
    ensures r.iteration < factor
  {
    ReachedOutside(steps, body, factor, k, r.iteration);
  }

  lemma ReachedOutside(steps: seq<Step>, body: seq<Op<Name>>, factor: nat, k: nat, i: nat)
    requires IsUnrolled(steps, body, factor) && k <= |steps|
    ensures i >= factor ==> Reached(steps, k, i) == 0
  {
    assert steps == steps[..k] + steps[k..];
    ProjectionOfSum(steps[..k], steps[k..], i);
  }

  /** An unrolled loop has no more programs in flight than iterations, and waits only for programs in flight. */
  lemma UnrolledFits(steps: seq<Step>, body: seq<Op<Name>>, factor: nat)
    requires IsUnrolled(steps, body, factor) && Alternating(body)
    ensures HasInvocations(OpsOf(steps)) && WaitsMatch(OpsOf(steps)) && NeverMoreThan(OpsOf(steps), factor)
  {
    StepInvocation(steps, body, factor);
    var ops := OpsOf(steps);
    forall k | 0 <= k < |ops| && ops[k].kind.Wait? ensures ops[k].operands[0] in InFlight(ops, k) {
      InFlightByIteration(steps, body, factor, k);
      NextStep(steps, body, factor, k);
      assert FliesIn(steps, body, k, ops[k].operands[0]);
    }
    forall k: nat | k <= |ops| ensures |InFlight(ops, k)| <= factor {
      InFlightByIteration(steps, body, factor, k);
      forall r, s | r in InFlight(ops, k) && s in InFlight(ops, k) && r.iteration == s.iteration ensures r == s {
        OneAtATime(body, Reached(steps, k, r.iteration));
      }
      forall r | r in InFlight(ops, k) ensures r.iteration < factor { FliesInFactor(steps, body, factor, k, r); }
      OnePerIteration(InFlight(ops, k), factor);
    }
  }

  /** The invocations of an unrolled loop are started once each. */
  lemma UnrolledStartsOnce(steps: seq<Step>, body: seq<Op<Name>>, factor: nat, ids: Ids<Ref>)
    requires IsUnrolled(steps, body, factor) && Alternating(body) && HasInvocations(OpsOf(steps))
    requires forall k :: 0 <= k < |steps| && OpsOf(steps)[k].kind.Start? ==>
               OpsOf(steps)[k].operands[0] in ids && ids[OpsOf(steps)[k].operands[0]] == None
    ensures StartedOnce(OpsOf(steps), ids)
  {
    var ops := OpsOf(steps);
    forall k, l | 0 <= k < l < |ops| && ops[k].kind.Start? && ops[l].kind.Start?
        ensures ops[k].operands[0] != ops[l].operands[0] {
      NextStep(steps, body, factor, k);
      NextStep(steps, body, factor, l);
      if steps[k].iteration == steps[l].iteration {
        ReachedGrows(steps, body, factor, k + 1, l, steps[k].iteration);
      }
    }
  }

  lemma {:induction false} ReachedGrows(steps: seq<Step>, body: seq<Op<Name>>, factor: nat, k: nat, l: nat, i: nat)
    requires IsUnrolled(steps, body, factor) && k <= l <= |steps|
    ensures Reached(steps, k, i) <= Reached(steps, l, i)
    decreases l
  {
    if k < l {
      ReachedGrows(steps, body, factor, k, l - 1, i);
      NextStep(steps, body, factor, l - 1);
    }
  }

  /** A parallel loop whose body alternates starts and waits is unrolled and scheduled: with at least as many slices as
      iterations every program gets a slice, and no two programs share one while in flight. */
  method UnrollAndSchedule(body: seq<Op<Name>>, factor: nat, count: nat, ids0: Ids<Ref>)
    returns (steps: seq<Step>, ok: bool, ids: Ids<Ref>)
    requires WellFormed(body) && HasInvocations(body) && Alternating(body) && 1 <= factor <= count
    requires forall i, n :: 0 <= i < factor && n in ResultsOf(body) ==>
              InIteration(i, n) in ids0 && ids0[InIteration(i, n)] == None
    requires forall k :: 0 <= k < |body| && body[k].kind.Start? ==> body[k].operands[0] in ResultsOf(body)
    ensures ok && HasInvocations(OpsOf(steps))
    ensures forall k :: 0 <= k <= |steps| ==> Exclusive(ids, InFlight(OpsOf(steps), k), count)
  {
    hide Alternating;
    hide Exclusive;
    steps := Unroll(body, factor);
    UnrolledIs(body, factor);
    UnrolledFits(steps, body, factor);
    var ops := OpsOf(steps);
    forall k | 0 <= k < |steps| && ops[k].kind.Start?
      ensures ops[k].operands[0] in ids0 && ids0[ops[k].operands[0]] == None
    {
      StartedHere(steps, body, factor, k);
    }
    UnrolledStartsOnce(steps, body, factor, ids0);
    ok, ids := Schedule(ops, count, ids0);
  }

  ghost function ResultsOf(body: seq<Op<Name>>): set<Name> {
    set k, n | 0 <= k < |body| && n in body[k].results :: n
  }

  lemma {:induction false} UnrolledIs(body: seq<Op<Name>>, factor: nat)
    ensures IsUnrolled(BySegment(body, |body|, factor), body, factor)
  {
    forall i: nat ensures Projection(BySegment(body, |body|, factor), i) == if i < factor then Iteration(i, body) else [] {
      EachIterationInOrder(body, |body|, factor, i);
      assert body[..|body|] == body;
    }
  }

  lemma StartedHere(steps: seq<Step>, body: seq<Op<Name>>, factor: nat, k: nat)
    requires IsUnrolled(steps, body, factor) && k < |steps| && HasInvocations(body) && steps[k].op.kind.Start?
    ensures exists n: nat :: n < |body| && body[n].kind.Start? && steps[k].op.operands != []
                             && steps[k].op.operands[0] == InIteration(steps[k].iteration, body[n].operands[0])
    ensures steps[k].iteration < factor
  {
    NextStep(steps, body, factor, k);
    var n := Reached(steps, k, steps[k].iteration);
    assert body[n].kind.Start?;
  }
}
