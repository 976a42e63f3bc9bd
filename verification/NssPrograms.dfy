/** Splitting of a function into programs for the NSS. */
module NssPrograms {

  datatype Executor = Slice | Css | Nss | Host

  datatype Space = Lram | Dtcm | Itcm | Xram

  datatype Op =
    | Store
    | Load
    | Start(executor: Executor)
    | Wait(executor: Executor)
    | Alloc(space: Space)
    | Dealloc(space: Space)
    | Copy(source: Space, target: Space)
    | Other

  predicate IsManaged(space: Space) {
    !space.Xram?
  }

  predicate IsNss(op: Op) {
    match op
    case Store => true
    case Load => true
    case Start(e) => e.Slice? || e.Css?
    case Wait(e) => e.Slice? || e.Css?
    case Alloc(s) => IsManaged(s)
    case Dealloc(s) => IsManaged(s)
    case Copy(s, t) => IsManaged(s) || IsManaged(t)
    case Other => false
  }

  /** Allocations and deallocations do not serialize. */
  function OperationSize(op: Op): nat {
    if op.Alloc? || op.Dealloc? then 0 else 1
  }

  /** Programs are lists of operation numbers. */
  type Program = seq<nat>

  ghost function Concat(ps: seq<Program>): seq<nat> {
    if ps == [] then [] else Concat(ps[..|ps| - 1]) + ps[|ps| - 1]
  }

  /** The numbers of the first `n` operations that are for the NSS, in order. */
  ghost function NssOps(ops: seq<Op>, n: nat): seq<nat>
    requires n <= |ops|
  {
    if n == 0 then [] else NssOps(ops, n - 1) + if IsNss(ops[n - 1]) then [n - 1] else []
  }

  ghost function SizeOf(ops: seq<Op>, p: Program): nat {
    if p == [] then 0
    else SizeOf(ops, p[..|p| - 1]) + if p[|p| - 1] < |ops| then OperationSize(ops[p[|p| - 1]]) else 0
  }

  ghost function Last<T>(s: seq<T>): T
    requires s != []
  {
    s[|s| - 1]
  }

  /** A program fits, and has no gaps: nothing for another processor lies between its operations. */
  ghost predicate ProgramOk(ops: seq<Op>, max: nat, p: Program) {
    && p != []
    && (forall x :: x in p ==> x < |ops|)
    && (forall j :: 0 <= j < |p| ==> p[j] == p[0] + j)
    && SizeOf(ops, p) <= max
  }

  /** The programs hold the operations for the NSS among the first `n`, each once and in order. */
  ghost predicate IsSplit(ops: seq<Op>, n: nat, max: nat, ps: seq<Program>)
    requires n <= |ops|
  {
    Concat(ps) == NssOps(ops, n) && forall k :: 0 <= k < |ps| ==> ProgramOk(ops, max, ps[k])
  }

  // -------------------------------------------------------------------------
  // What is for the NSS

  /** An operation that concerns neither a data transfer, nor a program of a slice or of the CSS, nor a memory other than
      XRAM. */
  predicate ForHost(op: Op) {
    && !op.Store? && !op.Load?
    && (op.Start? || op.Wait? ==> op.executor != Slice && op.executor != Css)
    && (op.Alloc? || op.Dealloc? ==> op.space == Xram)
    && (op.Copy? ==> op.source == Xram && op.target == Xram)
  }

  lemma {:induction false} InNssOps(ops: seq<Op>, n: nat, x: nat)
    requires n <= |ops|
    ensures x in NssOps(ops, n) <==> x < n && !ForHost(ops[x])
    decreases n
  {
    if n > 0 { InNssOps(ops, n - 1, x); }
  }

  lemma {:induction false} OfConcat(ps: seq<Program>, x: nat)
    ensures x in Concat(ps) <==> exists k :: 0 <= k < |ps| && x in ps[k]
    decreases |ps|
  {
    if ps != [] {
      var rest := ps[..|ps| - 1];
      OfConcat(rest, x);
      if k :| 0 <= k < |ps| && x in ps[k] { assert k < |rest| ==> x in rest[k]; }
      if k :| 0 <= k < |rest| && x in rest[k] { assert x in ps[k]; }
      assert x in Last(ps) ==> x in ps[|ps| - 1];
    }
  }

  /** The programs hold just the operations that are not for the host. */
  lemma HeldByPrograms(ops: seq<Op>, n: nat, max: nat, ps: seq<Program>, x: nat)
    requires n <= |ops| && IsSplit(ops, n, max, ps)
    ensures (exists k :: 0 <= k < |ps| && x in ps[k]) <==> x < n && !ForHost(ops[x])
  {
    OfConcat(ps, x);
    InNssOps(ops, n, x);
  }

  ghost function Tasks(ops: seq<Op>, p: Program): set<nat> {
    set x | x in p && x < |ops| && !ops[x].Alloc? && !ops[x].Dealloc?
  }

  lemma TasksNext(ops: seq<Op>, q: Program, x: nat)
    requires x < |ops| && x !in q
    ensures |Tasks(ops, q + [x])| == |Tasks(ops, q)| + if ops[x].Alloc? || ops[x].Dealloc? then 0 else 1
  {
    assert Tasks(ops, q + [x]) == Tasks(ops, q) + if ops[x].Alloc? || ops[x].Dealloc? then {} else {x};
  }

  /** The size of a program without gaps is the number of its operations, allocations and deallocations aside. */
  lemma {:induction false} SizeIsTasks(ops: seq<Op>, p: Program)
    requires (forall j :: 0 <= j < |p| ==> p[j] < |ops|) && forall j :: 0 <= j < |p| ==> p[j] == p[0] + j
    ensures SizeOf(ops, p) == |Tasks(ops, p)|
    decreases |p|
  {
    if p != [] {
      var q, x := p[..|p| - 1], p[|p| - 1];
      SizeIsTasks(ops, q);
      assert p == q + [x];
      TasksNext(ops, q, x);
    }
  }

  // -------------------------------------------------------------------------
  // Splits of a prefix

  lemma {:induction false} NssOpsBound(ops: seq<Op>, n: nat)
    requires n <= |ops|
    ensures forall x :: x in NssOps(ops, n) ==> x < n && IsNss(ops[x])
  {
    if n > 0 { NssOpsBound(ops, n - 1); }
  }

  lemma {:induction false} LastOfConcat(ps: seq<Program>)
    requires ps != [] && Last(ps) != []
    ensures Concat(ps) == Concat(ps[..|ps| - 1]) + Last(ps)[..|Last(ps)| - 1] + [Last(Last(ps))]
  {
    var q := Last(ps);
    assert q == q[..|q| - 1] + [Last(q)];
  }

  lemma SameEnds<T>(a: seq<T>, x: T, b: seq<T>, y: T)
    requires a + [x] == b + [y]
    ensures a == b && x == y
  {
    assert (a + [x])[|a|] == x && (a + [x])[..|a|] == a;
    assert (b + [y])[|b|] == y && (b + [y])[..|b|] == b;
  }

  /** The last operation for the NSS ends the last program. */
  lemma {:induction false} SplitEnds(ops: seq<Op>, n: nat, max: nat, ps: seq<Program>)
    requires 0 < n <= |ops| && IsNss(ops[n - 1]) && IsSplit(ops, n, max, ps)
    ensures ps != [] && Last(ps) != [] && Last(Last(ps)) == n - 1
    ensures Concat(ps[..|ps| - 1]) + Last(ps)[..|Last(ps)| - 1] == NssOps(ops, n - 1)
  {
    assert ps != [] by {
      assert Last(NssOps(ops, n)) == n - 1;
    }
    var q := Last(ps);
    assert ProgramOk(ops, max, q);
    LastOfConcat(ps);
    SameEnds(Concat(ps[..|ps| - 1]) + q[..|q| - 1], Last(q), NssOps(ops, n - 1), n - 1);
  }

  /** Without its last operation, a split is one of the shorter function. */
  lemma SplitBefore(ops: seq<Op>, n: nat, max: nat, ps: seq<Program>) returns (qs: seq<Program>)
    requires 0 < n <= |ops| && IsNss(ops[n - 1]) && IsSplit(ops, n, max, ps)
    ensures IsSplit(ops, n - 1, max, qs) && ps != [] && Last(ps) != []
    ensures |Last(ps)| == 1 ==> |qs| == |ps| - 1
    ensures |Last(ps)| > 1 ==> |qs| == |ps| && n > 1 && IsNss(ops[n - 2])
    ensures SizeOf(ops, Last(ps)) == OperationSize(ops[n - 1]) + if |Last(ps)| == 1 then 0 else SizeOf(ops, Last(qs))
    ensures SizeOf(ops, Last(ps)) <= max
  {
    SplitEnds(ops, n, max, ps);
    var rest, q := ps[..|ps| - 1], Last(ps);
    assert ProgramOk(ops, max, q);
    forall k | 0 <= k < |rest| ensures ProgramOk(ops, max, rest[k]) {
      assert rest[k] == ps[k];
    }
    var q' := q[..|q| - 1];
    if q' == [] {
      qs := rest;
      assert Concat(rest) + q' == Concat(rest);
    } else {
      qs := rest + [q'];
      assert qs[..|qs| - 1] == rest;
      assert q'[0] == q[0];
      assert ProgramOk(ops, max, q');
      assert Last(q') == n - 2 && Last(q') in Concat(rest) + q';
      NssOpsBound(ops, n - 1);
    }
  }

  // -------------------------------------------------------------------------
  // Fewest programs

  /** A program is open after `n` operations if the last of them is for the NSS. */
  ghost predicate CanGoOn(ops: seq<Op>, n: nat)
    requires n <= |ops|
  {
    n > 0 && IsNss(ops[n - 1])
  }

  /** No split of the first `n` operations has fewer than `count` programs, and none with as many has a last program that
      can go on and is smaller than `size`. */
  ghost predicate Ahead(ops: seq<Op>, n: nat, max: nat, count: nat, size: nat)
    requires n <= |ops|
  {
    forall qs :: IsSplit(ops, n, max, qs) ==>
      count <= |qs| && (count == |qs| && CanGoOn(ops, n) ==> qs != [] && size <= SizeOf(ops, Last(qs)))
  }

  /** Starting a program only when forced keeps ahead of every split. */
  lemma StaysAhead(ops: seq<Op>, n: nat, max: nat, count: nat, size: nat, count': nat, size': nat)
    requires n < |ops| && Ahead(ops, n, max, count, size) && IsNss(ops[n])
    requires if !CanGoOn(ops, n) || size + OperationSize(ops[n]) > max
             then count' == count + 1 && size' == OperationSize(ops[n])
             else count' == count && size' == size + OperationSize(ops[n])
    ensures Ahead(ops, n + 1, max, count', size')
  {
    forall ps | IsSplit(ops, n + 1, max, ps)
      ensures count' <= |ps| && (count' == |ps| ==> ps != [] && size' <= SizeOf(ops, Last(ps)))
    {
      var qs := SplitBefore(ops, n + 1, max, ps);
      hide IsSplit;
      hide SizeOf;
    }
  }

  lemma StaysAheadOfOthers(ops: seq<Op>, n: nat, max: nat, count: nat, size: nat)
    requires n < |ops| && Ahead(ops, n, max, count, size) && !IsNss(ops[n])
    ensures Ahead(ops, n + 1, max, count, size)
  {
    forall ps | IsSplit(ops, n + 1, max, ps) ensures count <= |ps| {
      assert IsSplit(ops, n, max, ps);
    }
  }

  /** `x` added to the last program. */
  function Pushed(ps: seq<Program>, x: nat): seq<Program>
    requires ps != []
  {
    ps[|ps| - 1 := ps[|ps| - 1] + [x]]
  }

  lemma {:induction false} NewProgram(ops: seq<Op>, n: nat, max: nat, ps: seq<Program>)
    requires n < |ops| && IsNss(ops[n]) && IsSplit(ops, n, max, ps) && max > 0
    ensures IsSplit(ops, n + 1, max, Pushed(ps + [[]], n)) && |Pushed(ps + [[]], n)| == |ps| + 1
    ensures SizeOf(ops, Last(Pushed(ps + [[]], n))) == OperationSize(ops[n])
  {
    var more := ps + [[n]];
    assert [] + [n] == [n];
    assert more == Pushed(ps + [[]], n);
    assert more[..|ps|] == ps;
    assert [n][..0] == [];
    assert ProgramOk(ops, max, [n]);
  }

  lemma {:induction false} LongerProgram(ops: seq<Op>, n: nat, max: nat, ps: seq<Program>)
    requires n < |ops| && IsNss(ops[n]) && IsSplit(ops, n, max, ps)
    requires CanGoOn(ops, n) && ps != [] && SizeOf(ops, Last(ps)) + OperationSize(ops[n]) <= max
    ensures IsSplit(ops, n + 1, max, Pushed(ps, n)) && |Pushed(ps, n)| == |ps|
    ensures SizeOf(ops, Last(Pushed(ps, n))) == SizeOf(ops, Last(ps)) + OperationSize(ops[n])
  {
    SplitEnds(ops, n, max, ps);
    var q := Last(ps) + [n];
    var more := Pushed(ps, n);
    assert ProgramOk(ops, max, Last(ps));
    LongerProgramOk(ops, max, Last(ps), n);
    assert more[..|ps| - 1] == ps[..|ps| - 1];
    assert Concat(ps) == Concat(ps[..|ps| - 1]) + Last(ps);
    hide ProgramOk;
    hide SizeOf;
    assert Concat(more) == Concat(ps) + [n];
  }

  lemma {:induction false} LongerProgramOk(ops: seq<Op>, max: nat, p: Program, n: nat)
    requires ProgramOk(ops, max, p) && n < |ops| && Last(p) == n - 1 && SizeOf(ops, p) + OperationSize(ops[n]) <= max
    ensures ProgramOk(ops, max, p + [n]) && SizeOf(ops, p + [n]) == SizeOf(ops, p) + OperationSize(ops[n])
  {
    var q := p + [n];
    assert q[..|q| - 1] == p;
    assert Last(p) == p[0] + (|p| - 1);
  }

  /** Splits the function greedily: a new program starts after an operation that is not for the NSS, or when the next
      operation does not fit. One place is kept for loading the next program. */
  method FindPrograms(ops: seq<Op>, taskSize: int) returns (ps: seq<Program>)
    ensures taskSize <= 1 ==> ps == []
    ensures taskSize > 1 ==> IsSplit(ops, |ops|, taskSize - 1, ps)
    ensures taskSize > 1 ==> forall qs :: IsSplit(ops, |ops|, taskSize - 1, qs) ==> |ps| <= |qs|
  {
    ps := [];
    var createNew, size := true, 0;
    var max := taskSize - 1;
    if max <= 0 {
      return;
    }
    hide IsSplit;
    hide Ahead;
    hide SizeOf;
    hide Pushed;
    hide Last;
    EmptySplit(ops, max);
    for i := 0 to |ops|
      invariant createNew <==> !CanGoOn(ops, i)
      invariant size >= 0
      invariant IsSplit(ops, i, max, ps)
      invariant !createNew ==> ps != [] && size == SizeOf(ops, Last(ps))
      invariant Ahead(ops, i, max, |ps|, size)
    {
      if !IsNss(ops[i]) {
        StaysAheadOfOthers(ops, i, max, |ps|, size);
        SplitGoesOn(ops, i, max, ps);
        createNew := true;
      } else {
        ghost var count, before := |ps|, size;
        var s := OperationSize(ops[i]);
        if createNew || size + s > max {
          NewProgram(ops, i, max, ps);
          ps := ps + [[]];
          createNew := false;
          size := 0;
        } else {
          LongerProgram(ops, i, max, ps);
        }
        size := size + s;
        ps := Pushed(ps, i);
        StaysAhead(ops, i, max, count, before, |ps|, size);
      }
    }
    AheadOfAll(ops, max, |ps|, size);
  }

  lemma EmptySplit(ops: seq<Op>, max: nat)
    ensures IsSplit(ops, 0, max, []) && Ahead(ops, 0, max, 0, 0)
  {}

  lemma SplitGoesOn(ops: seq<Op>, n: nat, max: nat, ps: seq<Program>)
    requires n < |ops| && !IsNss(ops[n]) && IsSplit(ops, n, max, ps)
    ensures IsSplit(ops, n + 1, max, ps)
  {}

  lemma AheadOfAll(ops: seq<Op>, max: nat, count: nat, size: nat)
    requires Ahead(ops, |ops|, max, count, size)
    ensures forall qs :: IsSplit(ops, |ops|, max, qs) ==> count <= |qs|
  {}
}
