/** Unrolling of a parallel loop, one wait-delimited segment of the body at a time. */
module ForallUnrolling {

  datatype Kind = Start | Wait | Other(code: nat)

  /** Operations over values named by `N`; the first operand of a start or a wait is its invocation. */
  datatype Op<N> = Op(kind: Kind, operands: seq<N>, results: seq<N>)

  /** A value seen from the loop body. */
  datatype Name = Outside(v: nat) | Induction | Local(v: nat)

  /** A value of the unrolled loop: of one iteration, a constant index, or defined outside the loop. */
  datatype Ref = Global(v: nat) | Index(i: nat) | Instance(iteration: nat, v: nat)

  /** Something that belongs to an iteration. */
  datatype Tagged<T> = Tagged(iteration: nat, op: T)

  type Step = Tagged<Op<Ref>>

  // -------------------------------------------------------------------------
  // What the unrolled loop is

  /** The value that iteration `i` has for `n`. */
  function InIteration(i: nat, n: Name): Ref {
    match n
    case Outside(v) => Global(v)
    case Induction => Index(i)
    case Local(v) => Instance(i, v)
  }

  function AllIn(i: nat, ns: seq<Name>): seq<Ref> {
    seq(|ns|, k requires 0 <= k < |ns| => InIteration(i, ns[k]))
  }

  function InstanceOf(i: nat, op: Op<Name>): Step {
    Tagged(i, Op(op.kind, AllIn(i, op.operands), AllIn(i, op.results)))
  }

  /** One whole iteration of some operations. */
  function Iteration(i: nat, ops: seq<Op<Name>>): (r: seq<Step>)
    ensures |r| == |ops| && forall k :: 0 <= k < |ops| ==> r[k] == InstanceOf(i, ops[k])
  {
    seq(|ops|, k requires 0 <= k < |ops| => InstanceOf(i, ops[k]))
  }

  /** The first `n` iterations one after another. */
  ghost function Iterations(n: nat, ops: seq<Op<Name>>): seq<Step> {
    if n == 0 then [] else Iterations(n - 1, ops) + Iteration(n - 1, ops)
  }

  /** The start of the segment that is open after `k` operations: segments begin at waits. */
  ghost function Cut(ops: seq<Op<Name>>, k: nat): (c: nat)
    requires k <= |ops|
    ensures c <= k && (k > 0 ==> c < k)
  {
    if k == 0 then 0 else if ops[k - 1].kind.Wait? then k - 1 else Cut(ops, k - 1)
  }

  /** All iterations of every segment of the first `k` operations, segment by segment. */
  ghost function BySegment(ops: seq<Op<Name>>, k: nat, n: nat): seq<Step>
    requires k <= |ops|
    decreases k
  {
    if k == 0 then [] else BySegment(ops, Cut(ops, k), n) + Iterations(n, ops[Cut(ops, k)..k])
  }

  // -------------------------------------------------------------------------
  // Cloning

  /** Result names are local, and local operands are defined earlier in the body. */
  ghost predicate WellFormed(ops: seq<Op<Name>>) {
    forall k, n :: 0 <= k < |ops| ==>
      && (n in ops[k].results ==> n.Local?)
      && (n in ops[k].operands && n.Local? ==> Defined(ops, k, n))
  }

  ghost predicate Defined(ops: seq<Op<Name>>, k: nat, n: Name)
    requires k <= |ops|
  {
    exists j :: 0 <= j < k && n in ops[j].results
  }

  /** The operand map of iteration `i` once its first `k` operations are cloned. */
  ghost predicate MapIs(m: map<Name, Ref>, i: nat, ops: seq<Op<Name>>, k: nat)
    requires k <= |ops|
  {
    && (forall n :: n in m ==> m[n] == InIteration(i, n))
    && Induction in m
    && forall n :: Defined(ops, k, n) ==> n in m
  }

  /** An operand that is not in the map stays that of the original, which becomes iteration 0. */
  function Mapped(m: map<Name, Ref>, n: Name): Ref {
    if n in m then m[n] else InIteration(0, n)
  }

  /** Clones operation `k` with new results, which it records in the map. With the map of iteration `i` the clone is the
      instance of the operation for that iteration. */
  method Clone(ops: seq<Op<Name>>, k: nat, i: nat, m: map<Name, Ref>) returns (step: Step, m': map<Name, Ref>)
    requires WellFormed(ops) && k < |ops| && MapIs(m, i, ops, k)
    ensures step == InstanceOf(i, ops[k]) && MapIs(m', i, ops, k + 1)
  {
    var op := ops[k];
    var operands := seq(|op.operands|, x requires 0 <= x < |op.operands| => Mapped(m, op.operands[x]));
    OperandsOfIteration(ops, k, i, m);
    assert operands == AllIn(i, op.operands);
    step := Tagged(i, Op(op.kind, operands, AllIn(i, op.results)));
    m' := m + map n | n in op.results :: InIteration(i, n);
    MapGrows(ops, k, i, m);
  }

  /** Whatever an operation uses, its own map says what the value is in its iteration. */
  lemma OperandsOfIteration(ops: seq<Op<Name>>, k: nat, i: nat, m: map<Name, Ref>)
    requires WellFormed(ops) && k < |ops| && MapIs(m, i, ops, k)
    ensures forall n :: n in ops[k].operands ==> Mapped(m, n) == InIteration(i, n)
  {
    forall n | n in ops[k].operands ensures Mapped(m, n) == InIteration(i, n) {
      assert n.Local? ==> Defined(ops, k, n);
    }
  }

  lemma MapGrows(ops: seq<Op<Name>>, k: nat, i: nat, m: map<Name, Ref>)
    requires k < |ops| && MapIs(m, i, ops, k)
    ensures MapIs(m + map n | n in ops[k].results :: InIteration(i, n), i, ops, k + 1)
  {
    var m' := m + map n | n in ops[k].results :: InIteration(i, n);
    forall n | Defined(ops, k + 1, n) ensures n in m' {
      var j :| 0 <= j < k + 1 && n in ops[j].results;
      assert j == k || Defined(ops, k, n);
    }
  }

  /** Clones operations `from` to `to` for one iteration. */
  method CloneSegment(ops: seq<Op<Name>>, from: nat, to: nat, i: nat, m: map<Name, Ref>)
    returns (clones: seq<Step>, m': map<Name, Ref>)
    requires WellFormed(ops) && from <= to <= |ops| && MapIs(m, i, ops, from)
    ensures clones == Iteration(i, ops[from..to]) && MapIs(m', i, ops, to)
  {
    clones, m' := [], m;
    for k := from to to
      invariant clones == Iteration(i, ops[from..k]) && MapIs(m', i, ops, k)
    {
      var step;
      step, m' := Clone(ops, k, i, m');
      assert ops[from..k + 1] == ops[from..k] + [ops[k]];
      clones := clones + [step];
    }
  }

  /** Clones the open segment for all iterations but the first. */
  method CloneIterations(ops: seq<Op<Name>>, from: nat, to: nat, maps: seq<map<Name, Ref>>)
    returns (clones: seq<Step>, maps': seq<map<Name, Ref>>)
    requires WellFormed(ops) && from <= to <= |ops|
    requires forall i :: 0 <= i < |maps| ==> MapIs(maps[i], i + 1, ops, from)
    ensures |maps'| == |maps| && forall i :: 0 <= i < |maps| ==> MapIs(maps'[i], i + 1, ops, to)
    ensures Iteration(0, ops[from..to]) + clones == Iterations(|maps| + 1, ops[from..to])
  {
    hide MapIs;
    hide WellFormed;
    clones, maps' := [], maps;
    for i := 1 to |maps| + 1
      invariant |maps'| == |maps|
      invariant forall j :: 0 <= j < i - 1 ==> MapIs(maps'[j], j + 1, ops, to)
      invariant forall j :: i - 1 <= j < |maps| ==> maps'[j] == maps[j]
      invariant Iteration(0, ops[from..to]) + clones == Iterations(i, ops[from..to])
    {
      var some, m := CloneSegment(ops, from, to, i, maps'[i - 1]);
      clones := clones + some;
      maps' := maps'[i - 1 := m];
    }
  }

  /** Unrolls a loop of `factor` iterations: whenever a wait or the end of the body is reached, the operations since the
      last wait are cloned for all other iterations in front of it. The original operations become iteration 0. */
  method Unroll(ops: seq<Op<Name>>, factor: nat) returns (unrolled: seq<Step>)
    requires WellFormed(ops) && factor >= 1
    ensures unrolled == BySegment(ops, |ops|, factor)
  {
    hide MapIs;
    hide WellFormed;
    hide Iteration;
    hide Iterations;
    hide InstanceOf;
    hide Cut;
    hide BySegment;
    var maps := seq(factor - 1, i requires 0 <= i < factor - 1 => map[Induction := Index(i + 1)]);
    forall i | 0 <= i < factor - 1 ensures MapIs(maps[i], i + 1, ops, 0) { NothingCloned(ops, i + 1); }
    NoSegment(ops, factor);
    var from := 0;
    unrolled := [];
    IterationOfNothing(ops[0..0]);
    for k := 0 to |ops|
      invariant from == Cut(ops, k) && |maps| == factor - 1
      invariant forall i :: 0 <= i < |maps| ==> MapIs(maps[i], i + 1, ops, from)
      invariant unrolled == BySegment(ops, from, factor) + Iteration(0, ops[from..k])
    {
      if ops[k].kind.Wait? {
        var clones;
        clones, maps := CloneIterations(ops, from, k, maps);
        SegmentDone(ops, from, k, factor, unrolled, clones);
        unrolled := unrolled + clones;
        from := k;
        IterationOfNothing(ops[from..k]);
      }
      OneMoreOp(ops, from, k);
      CutNext(ops, k);
      unrolled := unrolled + [InstanceOf(0, ops[k])];
    }
    var clones;
    clones, maps := CloneIterations(ops, from, |ops|, maps);
    SegmentDone(ops, from, |ops|, factor, unrolled, clones);
    unrolled := unrolled + clones;
  }

  lemma {:induction false} NoSegment(ops: seq<Op<Name>>, n: nat)
    ensures Cut(ops, 0) == 0 && BySegment(ops, 0, n) == []
  {}

  lemma CutNext(ops: seq<Op<Name>>, k: nat)
    requires k < |ops|
    ensures Cut(ops, k + 1) == if ops[k].kind.Wait? then k else Cut(ops, k)
  {}

  lemma IterationOfNothing(ops: seq<Op<Name>>)
    requires ops == []
    ensures Iteration(0, ops) == []
  {}

  lemma OneMoreOp(ops: seq<Op<Name>>, from: nat, k: nat)
    requires from <= k < |ops|
    ensures Iteration(0, ops[from..k + 1]) == Iteration(0, ops[from..k]) + [InstanceOf(0, ops[k])]
  {
    assert ops[from..k + 1] == ops[from..k] + [ops[k]];
  }

  lemma {:induction false} SegmentDone(
        ops: seq<Op<Name>>, from: nat, k: nat, n: nat, steps: seq<Step>, clones: seq<Step>)
    requires k <= |ops| && from == Cut(ops, k)
    requires steps == BySegment(ops, from, n) + Iteration(0, ops[from..k])
    requires Iteration(0, ops[from..k]) + clones == Iterations(n, ops[from..k])
    ensures steps + clones == BySegment(ops, k, n)
  {
    hide Iteration;
    hide Iterations;
    var before, open := BySegment(ops, from, n), Iteration(0, ops[from..k]);
    assert before + open + clones == before + (open + clones);
    if k == 0 {
      assert ops[from..k] == [];
      IterationsOfNothing(n);
    }
  }

  lemma {:induction false} IterationsOfNothing(n: nat)
    ensures Iterations(n, []) == []
  {
    if n > 0 { IterationsOfNothing(n - 1); }
  }

  lemma NothingCloned(ops: seq<Op<Name>>, i: nat)
    ensures MapIs(map[Induction := Index(i)], i, ops, 0)
  {}

  // -------------------------------------------------------------------------
  // Order within an iteration

  ghost function Projection<T>(steps: seq<Tagged<T>>, i: nat): seq<Tagged<T>>
    decreases |steps|
  {
    if steps == [] then []
    else (if steps[0].iteration == i then [steps[0]] else []) + Projection(steps[1..], i)
  }

  lemma {:induction false} ProjectionOfSum<T>(a: seq<Tagged<T>>, b: seq<Tagged<T>>, i: nat)
    ensures Projection(a + b, i) == Projection(a, i) + Projection(b, i)
    decreases |a|
  {
    if a == [] {
      assert a + b == b;
    } else {
      ProjectionOfSum(a[1..], b, i);
      assert (a + b)[1..] == a[1..] + b;
    }
  }

  lemma {:induction false} ProjectionOfOne<T>(a: seq<Tagged<T>>, j: nat, i: nat)
    requires forall k :: 0 <= k < |a| ==> a[k].iteration == j
    ensures Projection(a, i) == if i == j then a else []
    decreases |a|
  {
    if a != [] { ProjectionOfOne(a[1..], j, i); }
  }

  lemma {:induction false} ProjectionOfIterations(n: nat, ops: seq<Op<Name>>, i: nat)
    ensures Projection(Iterations(n, ops), i) == if i < n then Iteration(i, ops) else []
    decreases n
  {
    hide Iteration;
    hide InstanceOf;
    hide Projection;
    if n == 0 {
      ProjectionOfNothing(i);
    } else {
      ProjectionOfIterations(n - 1, ops, i);
      ProjectionOfSum(Iterations(n - 1, ops), Iteration(n - 1, ops), i);
      IterationOfOne(n - 1, ops);
      ProjectionOfOne(Iteration(n - 1, ops), n - 1, i);
    }
  }

  lemma {:induction false} ProjectionOfNothing(i: nat)
    ensures Projection<Op<Ref>>([], i) == []
  {}

  lemma IterationOfOne(i: nat, ops: seq<Op<Name>>)
    ensures forall k :: 0 <= k < |ops| ==> Iteration(i, ops)[k].iteration == i
  {}

  /** Every iteration is there with all its operations in the order of the body, and there are no others. */
  lemma {:induction false} EachIterationInOrder(ops: seq<Op<Name>>, k: nat, n: nat, i: nat)
    requires k <= |ops|
    ensures Projection(BySegment(ops, k, n), i) == if i < n then Iteration(i, ops[..k]) else []
    decreases k
  {
    hide Iteration;
    hide Iterations;
    hide InstanceOf;
    if k > 0 {
      var c := Cut(ops, k);
      EachIterationInOrder(ops, c, n, i);
      ProjectionOfIterations(n, ops[c..k], i);
      ProjectionOfSum(BySegment(ops, c, n), Iterations(n, ops[c..k]), i);
      IterationOfSplit(i, ops, c, k);
    }
  }

  lemma IterationOfSplit(i: nat, ops: seq<Op<Name>>, c: nat, k: nat)
    requires c <= k <= |ops|
    ensures Iteration(i, ops[..k]) == Iteration(i, ops[..c]) + Iteration(i, ops[c..k])
  {
    hide InstanceOf;
    var whole, first, second := Iteration(i, ops[..k]), Iteration(i, ops[..c]), Iteration(i, ops[c..k]);
    forall x | 0 <= x < k ensures whole[x] == (first + second)[x] {
      assert ops[..k][x] == ops[x];
      if x < c {
        assert ops[..c][x] == ops[x];
      } else {
        assert ops[c..k][x - c] == ops[x];
      }
    }
  }

  /** How far iteration `i` has come after `k` steps. */
  ghost function Reached(steps: seq<Step>, k: nat, i: nat): nat
    requires k <= |steps|
  {
    |Projection(steps[..k], i)|
  }

  ghost predicate IsUnrolled(steps: seq<Step>, body: seq<Op<Name>>, factor: nat) {
    forall i: nat :: Projection(steps, i) == if i < factor then Iteration(i, body) else []
  }

  /** The next step of an unrolled loop is the next operation of one of its iterations. */
  lemma NextStep(steps: seq<Step>, body: seq<Op<Name>>, factor: nat, k: nat)
    requires IsUnrolled(steps, body, factor) && k < |steps|
    ensures steps[k].iteration < factor && Reached(steps, k, steps[k].iteration) < |body|
    ensures steps[k] == InstanceOf(steps[k].iteration, body[Reached(steps, k, steps[k].iteration)])
    ensures Reached(steps, k + 1, steps[k].iteration) == Reached(steps, k, steps[k].iteration) + 1
    ensures forall j: nat :: j != steps[k].iteration ==> Reached(steps, k + 1, j) == Reached(steps, k, j)
  {
    var i := steps[k].iteration;
    var before, after := steps[..k], steps[k + 1..];
    assert steps == before + ([steps[k]] + after);
    ProjectionOfSum(before, [steps[k]] + after, i);
    ProjectionOfOne([steps[k]], i, i);
    ProjectionOfSum([steps[k]], after, i);
    assert Projection(steps, i) == Projection(before, i) + [steps[k]] + Projection(after, i);
    assert Projection(steps, i)[|Projection(before, i)|] == steps[k];
    assert steps[..k + 1] == before + [steps[k]];
    forall j: nat ensures Projection(steps[..k + 1], j) == Projection(before, j) + if i == j then [steps[k]] else [] {
      ProjectionOfSum(before, [steps[k]], j);
      ProjectionOfOne([steps[k]], i, j);
    }
  }

  lemma {:induction false} ReachedInBody(steps: seq<Step>, body: seq<Op<Name>>, factor: nat, k: nat, i: nat)
    requires IsUnrolled(steps, body, factor) && k <= |steps|
    ensures Reached(steps, k, i) <= |body|
    decreases k
  {
    if k > 0 {
      ReachedInBody(steps, body, factor, k - 1, i);
      NextStep(steps, body, factor, k - 1);
    }
  }

  // -------------------------------------------------------------------------
  // Waiting late

  /** Only the first operation of a segment can be a wait. */
  lemma {:induction false} CutBeforeWaits(ops: seq<Op<Name>>, k: nat)
    requires k <= |ops|
    ensures forall j :: Cut(ops, k) < j < k ==> !ops[j].kind.Wait?
    decreases k
  {
    if k > 0 && !ops[k - 1].kind.Wait? { CutBeforeWaits(ops, k - 1); }
  }

  lemma {:induction false} IterationsAreDone(n: nat, ops: seq<Op<Name>>, y: nat)
    requires y < |Iterations(n, ops)| && forall j :: 0 < j < |ops| ==> !ops[j].kind.Wait?
    requires Iterations(n, ops)[y].op.kind.Wait?
    ensures Iterations(n, ops)[y].iteration < n
    ensures Projection(Iterations(n, ops)[..y], Iterations(n, ops)[y].iteration) == []
    decreases n
  {
    var before, last := Iterations(n - 1, ops), Iteration(n - 1, ops);
    if y < |before| {
      IterationsAreDone(n - 1, ops, y);
      assert Iterations(n, ops)[..y] == before[..y];
    } else {
      assert Iterations(n, ops)[y] == last[y - |before|];
      assert Iterations(n, ops)[..y] == before;
      ProjectionOfIterations(n - 1, ops, n - 1);
    }
  }

  /** Before any iteration waits, all iterations have done everything that precedes this wait in the body. */
  lemma {:induction false} AllComeToTheWait(ops: seq<Op<Name>>, k: nat, n: nat, x: nat, j: nat)
    requires k <= |ops| && x < |BySegment(ops, k, n)| && BySegment(ops, k, n)[x].op.kind.Wait? && j < n
    ensures var steps := BySegment(ops, k, n);
            Reached(steps, x, steps[x].iteration) <= Reached(steps, x, j)
    decreases k
  {
    hide Iterations;
    hide Iteration;
    hide Projection;
    if k > 0 {
      var c := Cut(ops, k);
      var before, open := BySegment(ops, c, n), Iterations(n, ops[c..k]);
      var steps := BySegment(ops, k, n);
      if x < |before| {
        AllComeToTheWait(ops, c, n, x, j);
        assert steps[..x] == before[..x];
      } else {
        var y, i := x - |before|, steps[x].iteration;
        assert steps[..x] == before + open[..y];
        CutBeforeWaits(ops, k);
        IterationsAreDone(n, ops[c..k], y);
        EachIterationInOrder(ops, c, n, i);
        EachIterationInOrder(ops, c, n, j);
        ProjectionOfSum(before, open[..y], i);
        ProjectionOfSum(before, open[..y], j);
      }
    }
  }

  // -------------------------------------------------------------------------
  // Independent iterations

  ghost function Run<T, S>(step: (Tagged<T>, S) -> S, steps: seq<Tagged<T>>, s: S): S
    decreases |steps|
  {
    if steps == [] then s else Run(step, steps[1..], step(steps[0], s))
  }

  /** Those steps of `w` that belong to different iterations can be exchanged. */
  ghost predicate Independent<T(!new), S(!new)>(step: (Tagged<T>, S) -> S, w: seq<Tagged<T>>) {
    forall a, b, s :: a in w && b in w && a.iteration != b.iteration ==> step(a, step(b, s)) == step(b, step(a, s))
  }

  lemma {:induction false} RunOfSum<T, S>(step: (Tagged<T>, S) -> S, a: seq<Tagged<T>>, b: seq<Tagged<T>>, s: S)
    ensures Run(step, a + b, s) == Run(step, b, Run(step, a, s))
    decreases |a|
  {
    if a == [] {
      assert a + b == b;
    } else {
      RunOfSum(step, a[1..], b, step(a[0], s));
      assert (a + b)[1..] == a[1..] + b;
    }
  }

  /** A step can be taken before those of other iterations. */
  lemma {:induction false} MoveFirst<T(!new), S(!new)>(
      step: (Tagged<T>, S) -> S, w: seq<Tagged<T>>, a: seq<Tagged<T>>, x: Tagged<T>, s: S)
    requires Independent(step, w) && x in w && forall k :: 0 <= k < |a| ==> a[k] in w && a[k].iteration != x.iteration
    ensures step(x, Run(step, a, s)) == Run(step, a, step(x, s))
    decreases |a|
  {
    if a != [] {
      MoveFirst(step, w, a[1..], x, step(a[0], s));
    }
  }

  /** The first step of an iteration, which the others precede. */
  lemma {:induction false} FindFirst<T>(steps: seq<Tagged<T>>, x: Tagged<T>, rest: seq<Tagged<T>>) returns (k: nat)
    requires Projection(steps, x.iteration) == [x] + rest
    ensures k < |steps| && steps[k] == x && forall l :: 0 <= l < k ==> steps[l].iteration != x.iteration
    decreases |steps|
  {
    if steps[0].iteration == x.iteration {
      assert ([x] + rest)[0] == x;
      k := 0;
    } else {
      k := FindFirst(steps[1..], x, rest);
      k := k + 1;
    }
  }

  lemma WithoutFirst<T>(steps: seq<Tagged<T>>, k: nat, i: nat)
    requires k < |steps| && forall l :: 0 <= l < k ==> steps[l].iteration != steps[k].iteration
    ensures var others := steps[..k] + steps[k + 1..];
            Projection(steps, i) == (if i == steps[k].iteration then [steps[k]] else []) + Projection(others, i)
  {
    hide Projection;
    var a, x, b := steps[..k], steps[k], steps[k + 1..];
    assert steps == a + ([x] + b);
    ProjectionOfSum(a, [x] + b, i);
    ProjectionOfSum(a, b, i);
    ProjectionOfOne([x], x.iteration, i);
    ProjectionOfSum([x], b, i);
    if i == x.iteration {
      NoneOf(a, i);
    }
  }

  lemma {:induction false} NoneOf<T>(steps: seq<Tagged<T>>, i: nat)
    requires forall l :: 0 <= l < |steps| ==> steps[l].iteration != i
    ensures Projection(steps, i) == []
    decreases |steps|
  {
    if steps != [] { NoneOf(steps[1..], i); }
  }

  lemma {:induction false} FirstIsProjected<T>(b: seq<Tagged<T>>)
    ensures b != [] ==> Projection(b, b[0].iteration) != []
  {}

  lemma SameTails<T>(head: seq<Tagged<T>>, p: seq<Tagged<T>>, q: seq<Tagged<T>>)
    requires head + p == head + q
    ensures p == q
  {
    assert (head + p)[|head|..] == p;
    assert (head + q)[|head|..] == q;
  }

  /** Any two schedules of the same steps that keep the order within every iteration have the same outcome. */
  lemma {:induction false} SameOutcome<T(!new), S(!new)>(
      step: (Tagged<T>, S) -> S, w: seq<Tagged<T>>, a: seq<Tagged<T>>, b: seq<Tagged<T>>, s: S)
    requires Independent(step, w) && (forall k :: 0 <= k < |a| ==> a[k] in w) && forall k :: 0 <= k < |b| ==> b[k] in w
    requires forall i: nat :: Projection(a, i) == Projection(b, i)
    ensures Run(step, a, s) == Run(step, b, s)
    decreases |a|
  {
    hide Independent;
    if a == [] {
      FirstIsProjected(b);
      assert forall i: nat :: Projection(b, i) == [];
    } else {
      var x := a[0];
      var k := FindFirst(b, x, Projection(a[1..], x.iteration));
      var others := b[..k] + b[k + 1..];
      forall i: nat ensures Projection(a[1..], i) == Projection(others, i) {
        assert Projection(a, i) == Projection(b, i);
        WithoutFirst(b, k, i);
        SameTails(if i == x.iteration then [x] else [], Projection(a[1..], i), Projection(others, i));
      }
      SameOutcome(step, w, a[1..], others, step(x, s));
      assert b == b[..k] + ([x] + b[k + 1..]);
      RunOfSum(step, b[..k], [x] + b[k + 1..], s);
      RunOfSum(step, b[..k], b[k + 1..], step(x, s));
      MoveFirst(step, w, b[..k], x, s);
      assert ([x] + b[k + 1..])[1..] == b[k + 1..];
    }
  }

  lemma {:induction false} ProjectionHas<T>(steps: seq<Tagged<T>>, x: Tagged<T>)
    ensures x in steps <==> x in Projection(steps, x.iteration)
    decreases |steps|
  {
    if steps != [] {
      ProjectionHas(steps[1..], x);
      assert steps == [steps[0]] + steps[1..];
    }
  }

  /** For independent iterations the unrolled loop does what the iterations do one after another. */
  lemma {:induction false} UnrollingKeepsOutcome<S(!new)>(step: (Step, S) -> S, ops: seq<Op<Name>>, factor: nat, s: S)
    requires Independent(step, Iterations(factor, ops))
    ensures Run(step, BySegment(ops, |ops|, factor), s) == Run(step, Iterations(factor, ops), s)
  {
    hide Independent;
    var a, b := BySegment(ops, |ops|, factor), Iterations(factor, ops);
    forall i: nat ensures Projection(a, i) == Projection(b, i) {
      EachIterationInOrder(ops, |ops|, factor, i);
      ProjectionOfIterations(factor, ops, i);
      assert ops[..|ops|] == ops;
    }
    forall x ensures x in a <==> x in b {
      ProjectionHas(a, x);
      ProjectionHas(b, x);
    }
    SameOutcome(step, b, a, b, s);
  }

  // -------------------------------------------------------------------------
  // When iterations are independent

  /** Equal as far as the cells in `cells` are concerned. */
  ghost predicate AgreeOn<C, V>(s: map<C, V>, t: map<C, V>, cells: set<C>) {
    forall c :: c in cells ==> (c in s <==> c in t) && (c in s ==> s[c] == t[c])
  }

  /** What a step does to the cells it writes depends on those it reads, and it changes no other. */
  ghost predicate Confined<T(!new), C(!new), V(!new)>(
      step: (Tagged<T>, map<C, V>) -> map<C, V>, sees: Tagged<T> -> set<C>, writes: Tagged<T> -> set<C>, x: Tagged<T>)
  {
    && (forall s, c :: c !in writes(x) ==> AgreeOn(step(x, s), s, {c}))
    && forall s, t :: AgreeOn(s, t, sees(x)) ==> AgreeOn(step(x, s), step(x, t), writes(x))
  }

  /** What a step of one iteration writes, no step of another reads or writes. */
  ghost predicate Apart<T(!new), C(!new)>(sees: Tagged<T> -> set<C>, writes: Tagged<T> -> set<C>, w: seq<Tagged<T>>) {
    forall a, b :: a in w && b in w && a.iteration != b.iteration ==> writes(a) !! sees(b) + writes(b)
  }

  lemma CommuteAt<T(!new), C(!new), V(!new)>(
      step: (Tagged<T>, map<C, V>) -> map<C, V>, sees: Tagged<T> -> set<C>, writes: Tagged<T> -> set<C>, a: Tagged<T>,
      b: Tagged<T>,
      s: map<C, V>, c: C)
    requires Confined(step, sees, writes, a) && Confined(step, sees, writes, b)
    requires writes(a) !! sees(b) + writes(b) && writes(b) !! sees(a) + writes(a)
    ensures AgreeOn(step(a, step(b, s)), step(b, step(a, s)), {c})
  {
    var sa, sb := step(a, s), step(b, s);
    assert AgreeOn(sb, s, sees(a)) by {
      forall d | d in sees(a) ensures (d in sb <==> d in s) && (d in sb ==> sb[d] == s[d]) { assert AgreeOn(sb, s, {d}); }
    }
    assert AgreeOn(sa, s, sees(b)) by {
      forall d | d in sees(b) ensures (d in sa <==> d in s) && (d in sa ==> sa[d] == s[d]) { assert AgreeOn(sa, s, {d}); }
    }
    assert AgreeOn(step(a, sb), sa, writes(a)) && AgreeOn(step(b, sa), sb, writes(b));
    if c !in writes(a) {
      assert AgreeOn(step(a, sb), sb, {c}) && AgreeOn(sa, s, {c});
    }
    if c !in writes(b) {
      assert AgreeOn(step(b, sa), sa, {c}) && AgreeOn(sb, s, {c});
    }
  }

  /** Iterations that do not touch what another writes are independent. */
  lemma ApartIsIndependent<T(!new), C(!new), V(!new)>(
      step: (Tagged<T>, map<C, V>) -> map<C, V>, sees: Tagged<T> -> set<C>, writes: Tagged<T> -> set<C>, w: seq<Tagged<T>>)
    requires Apart(sees, writes, w) && forall x :: x in w ==> Confined(step, sees, writes, x)
    ensures Independent(step, w)
  {
    forall a, b, s | a in w && b in w && a.iteration != b.iteration ensures step(a, step(b, s)) == step(b, step(a, s)) {
      var l, r := step(a, step(b, s)), step(b, step(a, s));
      forall c ensures (c in l <==> c in r) && (c in l ==> l[c] == r[c]) {
        CommuteAt(step, sees, writes, a, b, s, c);
        assert AgreeOn(l, r, {c});
      }
      assert l.Keys == r.Keys;
    }
  }

  lemma {:induction false} StepsOfIterations(n: nat, ops: seq<Op<Name>>, x: Step) returns (k: nat)
    requires x in Iterations(n, ops)
    ensures k < |ops| && x == InstanceOf(x.iteration, ops[k])
    decreases n
  {
    if x in Iterations(n - 1, ops) {
      k := StepsOfIterations(n - 1, ops, x);
    } else {
      var it := Iteration(n - 1, ops);
      k :| 0 <= k < |it| && it[k] == x;
    }
  }

  /** The operations of the body read the buffers behind their operands and write those behind their results and behind
      such operands as the body defines. */
  ghost predicate LocalWrites<V(!new)>(step: (Step, map<Ref, V>) -> map<Ref, V>, x: Step) {
    Confined(step, Touched, Written, x)
  }

  ghost function Touched(x: Step): set<Ref> {
    set r | r in x.op.operands + x.op.results
  }

  ghost function Written(x: Step): set<Ref> {
    set r | r in x.op.operands + x.op.results && r.Instance?
  }

  lemma {:induction false} OwnInstances(n: nat, ops: seq<Op<Name>>, x: Step, r: Ref)
    requires x in Iterations(n, ops) && r in Touched(x) && r.Instance?
    ensures r.iteration == x.iteration
  {
    var k := StepsOfIterations(n, ops, x);
    if r in x.op.operands {
      var j :| 0 <= j < |x.op.operands| && x.op.operands[j] == r;
      assert r == InIteration(x.iteration, ops[k].operands[j]);
    } else {
      var j :| 0 <= j < |x.op.results| && x.op.results[j] == r;
      assert r == InIteration(x.iteration, ops[k].results[j]);
    }
  }

  /** A loop that writes nothing defined outside of it can be unrolled whatever its operations compute. */
  lemma {:induction false} UnrollingOfLocalWrites<V(!new)>(
      step: (Step, map<Ref, V>) -> map<Ref, V>, ops: seq<Op<Name>>, factor: nat, s: map<Ref, V>)
    requires forall x :: x in Iterations(factor, ops) ==> LocalWrites(step, x)
    ensures Run(step, BySegment(ops, |ops|, factor), s) == Run(step, Iterations(factor, ops), s)
  {
    var w := Iterations(factor, ops);
    forall a, b | a in w && b in w && a.iteration != b.iteration ensures Written(a) !! Touched(b) + Written(b) {
      forall r | r in Written(a) && r in Touched(b) ensures false {
        OwnInstances(factor, ops, a, r);
        OwnInstances(factor, ops, b, r);
      }
    }
    assert Apart(Touched, Written, w);
    ApartIsIndependent(step, Touched, Written, w);
    UnrollingKeepsOutcome(step, ops, factor, s);
  }
}
