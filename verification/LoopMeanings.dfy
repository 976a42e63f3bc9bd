/** What a parallel loop means, said of its body alone: which values the operations of an iteration get. */
module LoopMeanings {
  import opened Basics
  import opened ForallUnrolling

  /** What surrounds the loop and what its operations compute: `outside` are the values defined around it, `number` those of
      the induction variable, and `compute` gives the results of an operation, which may depend on the iteration, on its
      place in the body, on its kind and on what it gets. */
  datatype World<!V> = World(
    outside: nat -> V, number: nat -> V, compute: (nat, nat, Kind, seq<Option<V>>, nat) -> V)

  /** What one operation got and what it defined. */
  datatype Event<V> = Event(kind: Kind, inputs: seq<Option<V>>, outputs: seq<V>)

  ghost function Outputs<V>(w: World<V>, i: nat, n: nat, kind: Kind, inputs: seq<Option<V>>, count: nat): (r: seq<V>)
    ensures |r| == count
  {
    seq(count, j requires 0 <= j < count => w.compute(i, n, kind, inputs, j))
  }

  // -------------------------------------------------------------------------
  // The body

  /** What a name stands for in iteration `i` when the iteration has computed `locals`. */
  ghost function ValueOf<V>(w: World<V>, i: nat, locals: map<nat, V>, n: Name): Option<V> {
    match n
    case Outside(v) => Some(w.outside(v))
    case Induction => Some(w.number(i))
    case Local(v) => if v in locals then Some(locals[v]) else None
  }

  ghost function ValuesOf<V>(w: World<V>, i: nat, locals: map<nat, V>, ns: seq<Name>): seq<Option<V>> {
    seq(|ns|, j requires 0 <= j < |ns| => ValueOf(w, i, locals, ns[j]))
  }

  ghost function Define<V>(locals: map<nat, V>, results: seq<Name>, values: seq<V>): map<nat, V>
    requires |results| == |values|
    decreases |results|
  {
    if results == [] then locals
    else
      var last := |results| - 1;
      var before := Define(locals, results[..last], values[..last]);
      if results[last].Local? then before[results[last].v := values[last]] else before
  }

  ghost function EventOf<V>(w: World<V>, i: nat, n: nat, locals: map<nat, V>, op: Op<Name>): Event<V> {
    var inputs := ValuesOf(w, i, locals, op.operands);
    Event(op.kind, inputs, Outputs(w, i, n, op.kind, inputs, |op.results|))
  }

  /** What iteration `i` has computed after `n` operations of the body. */
  ghost function Locals<V>(w: World<V>, i: nat, body: seq<Op<Name>>, n: nat): map<nat, V>
    requires n <= |body|
    decreases n
  {
    if n == 0 then map[]
    else
      var before := Locals(w, i, body, n - 1);
      var e := EventOf(w, i, n - 1, before, body[n - 1]);
      Define(before, body[n - 1].results, e.outputs)
  }

  /** What the first `n` operations of the body do in iteration `i`. */
  ghost function BodyEvents<V>(w: World<V>, i: nat, body: seq<Op<Name>>, n: nat): (r: seq<Tagged<Event<V>>>)
    requires n <= |body|
    ensures |r| == n && forall k :: 0 <= k < n ==> r[k].iteration == i
    decreases n
  {
    if n == 0 then []
    else BodyEvents(w, i, body, n - 1) + [Tagged(i, EventOf(w, i, n - 1, Locals(w, i, body, n - 1), body[n - 1]))]
  }

  /** The loop: its iterations one after another. */
  ghost function LoopEvents<V>(w: World<V>, body: seq<Op<Name>>, iterations: nat): seq<Tagged<Event<V>>> {
    if iterations == 0 then []
    else LoopEvents(w, body, iterations - 1) + BodyEvents(w, iterations - 1, body, |body|)
  }

  // -------------------------------------------------------------------------
  // The unrolled loop

  /** What a reference stands for: the steps before have computed `store`, and what they have not is that around the loop. */
  ghost function Load<V>(w: World<V>, store: map<Ref, V>, r: Ref): Option<V> {
    if r in store then Some(store[r])
    else
      match r
      case Global(v) => Some(w.outside(v))
      case Index(i) => Some(w.number(i))
      case Instance(_, _) => None
  }

  ghost function LoadAll<V>(w: World<V>, store: map<Ref, V>, rs: seq<Ref>): seq<Option<V>> {
    seq(|rs|, j requires 0 <= j < |rs| => Load(w, store, rs[j]))
  }

  ghost function Save<V>(store: map<Ref, V>, results: seq<Ref>, values: seq<V>): map<Ref, V>
    requires |results| == |values|
    decreases |results|
  {
    if results == [] then store
    else
      var last := |results| - 1;
      Save(store, results[..last], values[..last])[results[last] := values[last]]
  }

  ghost function StepEvent<V>(w: World<V>, n: nat, store: map<Ref, V>, x: Step): Event<V> {
    var inputs := LoadAll(w, store, x.op.operands);
    Event(x.op.kind, inputs, Outputs(w, x.iteration, n, x.op.kind, inputs, |x.op.results|))
  }

  /** What the first `k` steps have computed. */
  ghost function Store<V>(w: World<V>, steps: seq<Step>, k: nat): map<Ref, V>
    requires k <= |steps|
    decreases k
  {
    if k == 0 then map[]
    else
      var before, x := Store(w, steps, k - 1), steps[k - 1];
      Save(before, x.op.results, StepEvent(w, Reached(steps, k - 1, x.iteration), before, x).outputs)
  }

  /** What the first `k` steps do, each as the next operation of its iteration. */
  ghost function StepEvents<V>(w: World<V>, steps: seq<Step>, k: nat): seq<Tagged<Event<V>>>
    requires k <= |steps|
    decreases k
  {
    if k == 0 then []
    else
      var x := steps[k - 1];
      StepEvents(w, steps, k - 1)
      + [Tagged(x.iteration, StepEvent(w, Reached(steps, k - 1, x.iteration), Store(w, steps, k - 1), x))]
  }

  // -------------------------------------------------------------------------
  // They are the same

  /** `store` holds for iteration `i` just what it has computed. */
  ghost predicate Holds<V>(store: map<Ref, V>, i: nat, locals: map<nat, V>) {
    forall v :: (Instance(i, v) in store <==> v in locals) && (v in locals ==> store[Instance(i, v)] == locals[v])
  }

  ghost predicate OnlyInstances<V>(store: map<Ref, V>) {
    forall r :: r in store ==> r.Instance?
  }

  lemma SameInputs<V>(w: World<V>, store: map<Ref, V>, i: nat, locals: map<nat, V>, ns: seq<Name>)
    requires Holds(store, i, locals) && OnlyInstances(store)
    ensures LoadAll(w, store, AllIn(i, ns)) == ValuesOf(w, i, locals, ns)
  {
    forall j | 0 <= j < |ns| ensures Load(w, store, InIteration(i, ns[j])) == ValueOf(w, i, locals, ns[j]) {}
  }

  lemma SameEvent<V>(w: World<V>, n: nat, store: map<Ref, V>, i: nat, locals: map<nat, V>, op: Op<Name>)
    requires Holds(store, i, locals) && OnlyInstances(store)
    ensures StepEvent(w, n, store, InstanceOf(i, op)) == EventOf(w, i, n, locals, op)
  {
    SameInputs(w, store, i, locals, op.operands);
  }

  /** Results are saved where the same iteration finds them, and no other. */
  lemma {:induction false} SaveHolds<V>(
      store: map<Ref, V>, i: nat, locals: map<nat, V>, results: seq<Name>, values: seq<V>)
    requires |results| == |values| && (forall n :: n in results ==> n.Local?)
    requires Holds(store, i, locals) && OnlyInstances(store)
    ensures OnlyInstances(Save(store, AllIn(i, results), values))
    ensures Holds(Save(store, AllIn(i, results), values), i, Define(locals, results, values))
    ensures forall r :: (r in store || r in Save(store, AllIn(i, results), values)) && r.Instance? && r.iteration != i ==>
              r in store && r in Save(store, AllIn(i, results), values)
              && Save(store, AllIn(i, results), values)[r] == store[r]
    decreases |results|
  {
    if results != [] {
      var last := |results| - 1;
      assert AllIn(i, results)[..last] == AllIn(i, results[..last]);
      assert results[last] in results;
      SaveHolds(store, i, locals, results[..last], values[..last]);
    }
  }

  /** One step defines the results of its operation for its own iteration. */
  lemma {:induction false} SaveStep<V>(
      w: World<V>, n: nat, before: map<Ref, V>, i: nat, locals: map<nat, V>, op: Op<Name>, j: nat, others: map<nat, V>)
    requires forall r :: r in op.results ==> r.Local?
    requires Holds(before, i, locals) && Holds(before, j, others) && OnlyInstances(before)
    ensures var x := InstanceOf(i, op);
            var after := Save(before, x.op.results, StepEvent(w, n, before, x).outputs);
            && OnlyInstances(after)
            && Holds(after, i, Define(locals, op.results, EventOf(w, i, n, locals, op).outputs))
            && (i != j ==> Holds(after, j, others))
  {
    SameEvent(w, n, before, i, locals, op);
    SaveHolds(before, i, locals, op.results, EventOf(w, i, n, locals, op).outputs);
  }

  lemma {:induction false} NothingStored<V>(w: World<V>, steps: seq<Step>, body: seq<Op<Name>>, i: nat)
    ensures OnlyInstances(Store(w, steps, 0)) && Reached(steps, 0, i) == 0
    ensures Holds(Store(w, steps, 0), i, Locals(w, i, body, 0))
  {}

  lemma ResultsAreLocal(body: seq<Op<Name>>, n: nat)
    requires WellFormed(body) && n < |body|
    ensures forall r :: r in body[n].results ==> r.Local?
  {}

  lemma StoreNext<V>(w: World<V>, steps: seq<Step>, k: nat)
    requires k < |steps|
    ensures var before, x := Store(w, steps, k), steps[k];
            Store(w, steps, k + 1) == Save(before, x.op.results, StepEvent(w, Reached(steps, k, x.iteration), before, x).outputs)
  {}

  lemma LocalsNext<V>(w: World<V>, i: nat, body: seq<Op<Name>>, n: nat)
    requires n < |body|
    ensures var before := Locals(w, i, body, n);
            Locals(w, i, body, n + 1) == Define(before, body[n].results, EventOf(w, i, n, before, body[n]).outputs)
  {}

  /** Every iteration has computed in the unrolled loop what the body computes as far as the iteration has come. */
  lemma {:induction false} StoreHolds<V>(
      w: World<V>, steps: seq<Step>, body: seq<Op<Name>>, factor: nat, k: nat, i: nat)
    requires WellFormed(body) && IsUnrolled(steps, body, factor) && k <= |steps|
    ensures OnlyInstances(Store(w, steps, k)) && Reached(steps, k, i) <= |body|
    ensures Holds(Store(w, steps, k), i, Locals(w, i, body, Reached(steps, k, i)))
    decreases k
  {
    hide *;
    if k == 0 {
      NothingStored(w, steps, body, i);
    } else {
      var x := steps[k - 1];
      NextStep(steps, body, factor, k - 1);
      var n := Reached(steps, k - 1, x.iteration);
      StoreHolds(w, steps, body, factor, k - 1, i);
      StoreHolds(w, steps, body, factor, k - 1, x.iteration);
      var before, locals := Store(w, steps, k - 1), Locals(w, x.iteration, body, n);
      ResultsAreLocal(body, n);
      SaveStep(w, n, before, x.iteration, locals, body[n], i, Locals(w, i, body, Reached(steps, k - 1, i)));
      StoreNext(w, steps, k - 1);
      LocalsNext(w, x.iteration, body, n);
    }
  }

  lemma {:induction false} NothingDone<V>(w: World<V>, steps: seq<Step>, body: seq<Op<Name>>, i: nat)
    ensures Reached(steps, 0, i) == 0 && Projection(StepEvents(w, steps, 0), i) == BodyEvents(w, i, body, 0)
  {}

  lemma StepEventsNext<V>(w: World<V>, steps: seq<Step>, k: nat, i: nat)
    requires k < |steps|
    ensures var x := steps[k];
            var e := Tagged(x.iteration, StepEvent(w, Reached(steps, k, x.iteration), Store(w, steps, k), x));
            Projection(StepEvents(w, steps, k + 1), i)
              == Projection(StepEvents(w, steps, k), i) + if i == x.iteration then [e] else []
  {
    hide Projection;
    var x := steps[k];
    var e := Tagged(x.iteration, StepEvent(w, Reached(steps, k, x.iteration), Store(w, steps, k), x));
    ProjectionOfSum(StepEvents(w, steps, k), [e], i);
    ProjectionOfOne([e], x.iteration, i);
  }

  lemma BodyEventsNext<V>(w: World<V>, i: nat, body: seq<Op<Name>>, n: nat)
    requires n < |body|
    ensures BodyEvents(w, i, body, n + 1)
              == BodyEvents(w, i, body, n) + [Tagged(i, EventOf(w, i, n, Locals(w, i, body, n), body[n]))]
  {}

  lemma {:induction false} EventsOfSteps<V>(
      w: World<V>, steps: seq<Step>, body: seq<Op<Name>>, factor: nat, k: nat, i: nat)
    requires WellFormed(body) && IsUnrolled(steps, body, factor) && k <= |steps|
    ensures Reached(steps, k, i) <= |body|
    ensures Projection(StepEvents(w, steps, k), i) == BodyEvents(w, i, body, Reached(steps, k, i))
    decreases k
  {
    hide *;
    if k == 0 {
      NothingDone(w, steps, body, i);
    } else {
      var x := steps[k - 1];
      NextStep(steps, body, factor, k - 1);
      var n := Reached(steps, k - 1, x.iteration);
      EventsOfSteps(w, steps, body, factor, k - 1, i);
      StoreHolds(w, steps, body, factor, k - 1, x.iteration);
      SameEvent(w, n, Store(w, steps, k - 1), x.iteration, Locals(w, x.iteration, body, n), body[n]);
      StepEventsNext(w, steps, k - 1, i);
      BodyEventsNext(w, x.iteration, body, n);
    }
  }

  /** In the unrolled loop every operation of every iteration keeps its kind and its place in the iteration, gets the values
      the body says it gets there, and defines those the body says it defines; and nothing else is done. */
  lemma {:induction false} UnrolledMeansTheBody<V>(w: World<V>, body: seq<Op<Name>>, factor: nat, i: nat)
    requires WellFormed(body)
    ensures var steps := BySegment(body, |body|, factor);
            Projection(StepEvents(w, steps, |steps|), i) == if i < factor then BodyEvents(w, i, body, |body|) else []
  {
    var steps := BySegment(body, |body|, factor);
    forall j: nat ensures Projection(steps, j) == if j < factor then Iteration(j, body) else [] {
      EachIterationInOrder(body, |body|, factor, j);
      assert body[..|body|] == body;
    }
    assert steps[..|steps|] == steps;
    EventsOfSteps(w, steps, body, factor, |steps|, i);
  }

  lemma {:induction false} ProjectionOfLoop<V>(w: World<V>, body: seq<Op<Name>>, n: nat, i: nat)
    ensures Projection(LoopEvents(w, body, n), i) == if i < n then BodyEvents(w, i, body, |body|) else []
    decreases n
  {
    if n > 0 {
      ProjectionOfLoop(w, body, n - 1, i);
      ProjectionOfSum(LoopEvents(w, body, n - 1), BodyEvents(w, n - 1, body, |body|), i);
      ProjectionOfOne(BodyEvents(w, n - 1, body, |body|), n - 1, i);
    }
  }

  /** If what the operations do to a state can be exchanged between different iterations of the loop, the unrolled loop leaves
      the state that the iterations leave one after another. */
  lemma {:induction false} UnrollingKeepsMeaning<V(!new), S(!new)>(
      w: World<V>, effect: (Tagged<Event<V>>, S) -> S, body: seq<Op<Name>>, factor: nat, s: S)
    requires WellFormed(body) && Independent(effect, LoopEvents(w, body, factor))
    ensures var steps := BySegment(body, |body|, factor);
            Run(effect, StepEvents(w, steps, |steps|), s) == Run(effect, LoopEvents(w, body, factor), s)
  {
    hide Independent;
    var steps := BySegment(body, |body|, factor);
    var a, b := StepEvents(w, steps, |steps|), LoopEvents(w, body, factor);
    forall i: nat ensures Projection(a, i) == Projection(b, i) {
      UnrolledMeansTheBody(w, body, factor, i);
      ProjectionOfLoop(w, body, factor, i);
    }
    forall x ensures x in a <==> x in b {
      ProjectionHas(a, x);
      ProjectionHas(b, x);
    }
    SameOutcome(effect, b, a, b, s);
  }

  /** So it is for a loop whose iterations write only cells of their own and read only those and cells of no iteration. */
  lemma {:induction false} UnrollingOfOwnWrites<V(!new), C(!new), X(!new)>(
      w: World<V>, effect: (Tagged<Event<V>>, map<C, X>) -> map<C, X>, sees: Tagged<Event<V>> -> set<C>,
      writes: Tagged<Event<V>> -> set<C>, owner: C -> Option<nat>, body: seq<Op<Name>>, factor: nat, s: map<C, X>)
    requires WellFormed(body)
    requires forall e :: e in LoopEvents(w, body, factor) ==>
               && Confined(effect, sees, writes, e)
               && (forall c :: c in writes(e) ==> owner(c) == Some(e.iteration))
               && (forall c :: c in sees(e) ==> owner(c) == Some(e.iteration) || owner(c).None?)
    ensures var steps := BySegment(body, |body|, factor);
            Run(effect, StepEvents(w, steps, |steps|), s) == Run(effect, LoopEvents(w, body, factor), s)
  {
    var events := LoopEvents(w, body, factor);
    forall a, b | a in events && b in events && a.iteration != b.iteration ensures writes(a) !! sees(b) + writes(b) {
      forall c | c in writes(a) ensures c !in sees(b) && c !in writes(b) {
        assert owner(c) == Some(a.iteration);
      }
    }
    ApartIsIndependent(effect, sees, writes, events);
    hide Confined;
    hide Independent;
    UnrollingKeepsMeaning(w, effect, body, factor, s);
  }
}
