/** The order in which operations are tiled: a depth-first search over users with an explicit stack. */
module TilingOrder {

  /** The users of every operation, in use-list order, and which operations can be tiled. */
  datatype Graph = Graph(users: seq<seq<nat>>, tileable: seq<bool>) {
    ghost predicate Valid() {
      |tileable| == |users| && forall x, j :: 0 <= x < |users| && 0 <= j < |users[x]| ==> users[x][j] < |users|
    }
  }

  ghost predicate Ranked(g: Graph, rank: seq<nat>)
    requires g.Valid()
  {
    |rank| == |g.users| && forall x, j :: 0 <= x < |g.users| && 0 <= j < |g.users[x]| ==> rank[x] < rank[g.users[x][j]]
  }

  /** No operation uses itself, directly or not. */
  ghost predicate Acyclic(g: Graph)
    requires g.Valid()
  {
    exists rank :: Ranked(g, rank)
  }

  /** An open operation and the number of its users visited so far. */
  datatype Frame = Frame(op: nat, next: nat)

  ghost predicate Open(stack: seq<Frame>, x: nat) {
    exists p :: 0 <= p < |stack| && stack[p].op == x
  }

  ghost predicate DistinctOps(order: seq<nat>) {
    forall i, j :: 0 <= i < j < |order| ==> order[i] != order[j]
  }

  ghost predicate FrameValid(g: Graph, f: Frame)
    requires g.Valid()
  {
    f.op < |g.users| && g.tileable[f.op] && f.next <= |g.users[f.op]|
  }

  ghost predicate FramesValid(g: Graph, stack: seq<Frame>)
    requires g.Valid()
  {
    forall p :: 0 <= p < |stack| ==> FrameValid(g, stack[p])
  }

  /** The first `k` users of `x` that can be tiled are listed. */
  ghost predicate UsersDone(g: Graph, order: seq<nat>, x: nat, k: nat)
    requires g.Valid() && x < |g.users| && k <= |g.users[x]|
  {
    forall j :: 0 <= j < k && g.tileable[g.users[x][j]] ==> g.users[x][j] in order
  }

  /** Every operation comes after all its users that can be tiled. */
  ghost predicate UsersFirst(g: Graph, order: seq<nat>)
    requires g.Valid()
  {
    forall i :: 0 <= i < |order| && order[i] < |g.users| ==> UsersDone(g, order[..i], order[i], |g.users[order[i]]|)
  }

  /** Marked are the listed operations, which are closed, and those on the stack, each once. */
  ghost predicate Marked(g: Graph, marks: set<nat>, order: seq<nat>, stack: seq<Frame>)
    requires g.Valid()
  {
    && FramesValid(g, stack)
    && (forall x :: x in marks <==> x in order || Open(stack, x))
    && (forall x :: x in order ==> x < |g.users| && g.tileable[x] && !Open(stack, x))
    && (forall p, q :: 0 <= p < q < |stack| ==> stack[p].op != stack[q].op)
    && DistinctOps(order)
  }

  /** Frame `f` waits for its user `child`, and the users before are closed. */
  ghost predicate WaitsFor(g: Graph, order: seq<nat>, f: Frame, child: nat)
    requires g.Valid() && FrameValid(g, f)
  {
    f.next > 0 && g.users[f.op][f.next - 1] == child && UsersDone(g, order, f.op, f.next - 1)
  }

  ghost function ChildOf(rest: seq<Frame>, op: nat, p: nat): nat
    requires p < |rest|
  {
    if p + 1 < |rest| then rest[p + 1].op else op
  }

  ghost predicate Links(g: Graph, order: seq<nat>, rest: seq<Frame>, op: nat)
    requires g.Valid() && FramesValid(g, rest)
  {
    forall p :: 0 <= p < |rest| ==> WaitsFor(g, order, rest[p], ChildOf(rest, op, p))
  }

  ghost predicate Rising(rank: seq<nat>, rest: seq<Frame>, op: nat) {
    op < |rank| && forall p :: 0 <= p < |rest| ==> rest[p].op < |rank| && rank[rest[p].op] < rank[op]
  }

  /** The listed operations are in order, and so is the stack of `top` above `rest`. */
  ghost predicate Sound(g: Graph, rank: seq<nat>, order: seq<nat>, rest: seq<Frame>, top: Frame)
    requires g.Valid() && Ranked(g, rank) && FramesValid(g, rest) && FrameValid(g, top)
  {
    && UsersFirst(g, order) && Links(g, order, rest, top.op) && UsersDone(g, order, top.op, top.next)
    && Rising(rank, rest, top.op)
    && forall q :: 0 <= q < |rest| ==> Rising(rank, rest[..q], rest[q].op)
  }

  // -------------------------------------------------------------------------
  // Closing, skipping and opening

  lemma OpenIs(rest: seq<Frame>, top: Frame, x: nat)
    ensures Open(rest + [top], x) <==> Open(rest, x) || x == top.op
  {
    var stack := rest + [top];
    if p :| 0 <= p < |rest| && rest[p].op == x { assert stack[p].op == x; }
    assert stack[|rest|].op == top.op;
  }

  lemma CloseMarked(g: Graph, marks: set<nat>, order: seq<nat>, rest: seq<Frame>, top: Frame)
    requires g.Valid() && Marked(g, marks, order, rest + [top])
    ensures Marked(g, marks, order + [top.op], rest)
  {
    var stack := rest + [top];
    forall x ensures Open(stack, x) <==> Open(rest, x) || x == top.op { OpenIs(rest, top, x); }
    assert stack[|rest|] == top;
    forall p | 0 <= p < |rest| ensures rest[p] == stack[p] && rest[p].op != top.op {}
    assert !Open(rest, top.op);
  }

  lemma CloseSound(g: Graph, rank: seq<nat>, order: seq<nat>, rest: seq<Frame>, top: Frame)
    requires g.Valid() && Ranked(g, rank) && FramesValid(g, rest) && FrameValid(g, top)
    requires Sound(g, rank, order, rest, top)
    requires top.next == |g.users[top.op]|
    ensures UsersFirst(g, order + [top.op])
    ensures rest != [] ==> Sound(g, rank, order + [top.op], rest[..|rest| - 1], rest[|rest| - 1])
  {
    var listed := order + [top.op];
    forall i | 0 <= i < |order| ensures listed[..i] == order[..i] {}
    assert listed[..|order|] == order;
    if rest != [] {
      var below, t := rest[..|rest| - 1], rest[|rest| - 1];
      assert WaitsFor(g, order, t, ChildOf(rest, top.op, |rest| - 1));
      forall p | 0 <= p < |below| ensures WaitsFor(g, listed, below[p], ChildOf(below, t.op, p)) {
        assert WaitsFor(g, order, rest[p], ChildOf(rest, top.op, p));
      }
      forall q | 0 <= q < |below| ensures below[..q] == rest[..q] {}
    }
  }

  lemma SkipMarked(g: Graph, marks: set<nat>, order: seq<nat>, rest: seq<Frame>, top: Frame, next: Frame)
    requires g.Valid() && Marked(g, marks, order, rest + [top]) && FrameValid(g, next) && next.op == top.op
    ensures Marked(g, marks, order, rest + [next])
  {
    forall x ensures Open(rest + [top], x) <==> Open(rest + [next], x) {
      OpenIs(rest, top, x);
      OpenIs(rest, next, x);
    }
    forall p | 0 <= p < |rest| + 1 ensures (rest + [next])[p].op == (rest + [top])[p].op
        && FrameValid(g, (rest + [next])[p]) {
      assert p < |rest| ==> (rest + [next])[p] == (rest + [top])[p];
    }
  }

  /** A user that is marked already is closed: in an acyclic graph it cannot be open. */
  lemma MarkedIsClosed(g: Graph, rank: seq<nat>, marks: set<nat>, order: seq<nat>, rest: seq<Frame>, top: Frame)
    requires g.Valid() && Ranked(g, rank) && Marked(g, marks, order, rest + [top])
    requires FrameValid(g, top) && top.next < |g.users[top.op]| && g.users[top.op][top.next] in marks
    requires Rising(rank, rest, top.op)
    ensures g.users[top.op][top.next] in order
  {
    var u := g.users[top.op][top.next];
    OpenIs(rest, top, u);
    assert !Open(rest, u);
  }

  lemma SkipSound(g: Graph, rank: seq<nat>, order: seq<nat>, rest: seq<Frame>, top: Frame)
    requires g.Valid() && Ranked(g, rank) && FramesValid(g, rest) && FrameValid(g, top)
    requires Sound(g, rank, order, rest, top)
    requires top.next < |g.users[top.op]|
    requires g.tileable[g.users[top.op][top.next]] ==> g.users[top.op][top.next] in order
    ensures Sound(g, rank, order, rest, Frame(top.op, top.next + 1))
  {}

  lemma OpenMarked(g: Graph, marks: set<nat>, order: seq<nat>, stack: seq<Frame>, u: nat)
    requires g.Valid() && Marked(g, marks, order, stack) && u < |g.users| && g.tileable[u] && u !in marks
    ensures Marked(g, marks + {u}, order, stack + [Frame(u, 0)])
  {
    forall x ensures Open(stack + [Frame(u, 0)], x) <==> Open(stack, x) || x == u { OpenIs(stack, Frame(u, 0), x); }
    forall p | 0 <= p < |stack| ensures stack[p].op != u {
      assert Open(stack, stack[p].op);
    }
  }

  lemma OpenSound(g: Graph, rank: seq<nat>, order: seq<nat>, rest: seq<Frame>, top: Frame)
    requires g.Valid() && Ranked(g, rank) && FramesValid(g, rest) && FrameValid(g, top)
    requires Sound(g, rank, order, rest, top)
    requires top.next < |g.users[top.op]| && g.tileable[g.users[top.op][top.next]]
    ensures FramesValid(g, rest + [Frame(top.op, top.next + 1)])
    ensures Sound(g, rank, order, rest + [Frame(top.op, top.next + 1)], Frame(g.users[top.op][top.next], 0))
  {
    var u := g.users[top.op][top.next];
    var more := rest + [Frame(top.op, top.next + 1)];
    forall p | 0 <= p < |more| ensures WaitsFor(g, order, more[p], ChildOf(more, u, p)) {
      if p < |rest| { assert WaitsFor(g, order, rest[p], ChildOf(rest, top.op, p)); }
    }
    forall q | 0 <= q < |more| ensures Rising(rank, more[..q], more[q].op) {
      if q < |rest| { assert more[..q] == rest[..q]; } else { assert more[..q] == rest; }
    }
  }

  // -------------------------------------------------------------------------
  // The search

  /** Visits still to be made from the open operations. */
  ghost function VisitsLeft(g: Graph, stack: seq<Frame>): nat
    requires g.Valid() && FramesValid(g, stack)
    decreases |stack|
  {
    if stack == [] then 0
    else
      assert FrameValid(g, stack[|stack| - 1]);
      VisitsLeft(g, stack[..|stack| - 1]) + |g.users[stack[|stack| - 1].op]| - stack[|stack| - 1].next + 1
  }

  ghost function Unmarked(n: nat, marks: set<nat>): nat {
    if n == 0 then 0 else Unmarked(n - 1, marks) + if n - 1 in marks then 0 else 1
  }

  lemma {:induction false} UnmarkedFalls(n: nat, marks: set<nat>, u: nat)
    requires u !in marks
    ensures Unmarked(n, marks + {u}) == Unmarked(n, marks) - if u < n then 1 else 0
  {
    if n > 0 { UnmarkedFalls(n - 1, marks, u); }
  }

  lemma {:induction false} UnmarkedLess(n: nat, a: set<nat>, b: set<nat>)
    requires a <= b
    ensures Unmarked(n, b) <= Unmarked(n, a)
  {
    if n > 0 { UnmarkedLess(n - 1, a, b); }
  }

  // -------------------------------------------------------------------------
  // The search by recursion

  /** What is marked after a search, and what it has listed. */
  datatype Visit = Visit(marks: set<nat>, order: seq<nat>)

  /** Visits the users of `x` one after another, then lists `x`; nothing if `x` is marked or cannot be tiled. */
  ghost function Dfs(g: Graph, marks: set<nat>, x: nat): (v: Visit)
    requires g.Valid() && x < |g.users|
    ensures marks <= v.marks
    decreases Unmarked(|g.users|, marks), 0, 0
  {
    if x in marks || !g.tileable[x] then Visit(marks, [])
    else
      UnmarkedFalls(|g.users|, marks, x);
      var v := DfsUsers(g, marks + {x}, x, 0);
      Visit(v.marks, v.order + [x])
  }

  /** Visits the users of `x` from number `j` on. */
  ghost function DfsUsers(g: Graph, marks: set<nat>, x: nat, j: nat): (v: Visit)
    requires g.Valid() && x < |g.users| && j <= |g.users[x]|
    ensures marks <= v.marks
    decreases Unmarked(|g.users|, marks), 1, |g.users[x]| - j
  {
    if j == |g.users[x]| then Visit(marks, [])
    else
      var first := Dfs(g, marks, g.users[x][j]);
      UnmarkedLess(|g.users|, marks, first.marks);
      var others := DfsUsers(g, first.marks, x, j + 1);
      Visit(others.marks, first.order + others.order)
  }

  /** One search after another. */
  ghost function DfsAll(g: Graph, marks: set<nat>, roots: seq<nat>): (v: Visit)
    requires g.Valid() && forall i :: 0 <= i < |roots| ==> roots[i] < |g.users|
    decreases |roots|
  {
    if roots == [] then Visit(marks, [])
    else
      var before := DfsAll(g, marks, roots[..|roots| - 1]);
      var last := Dfs(g, before.marks, roots[|roots| - 1]);
      Visit(last.marks, before.order + last.order)
  }

  /** What is still to be done for a stack: the remaining users of every open operation, from the top down. */
  ghost function Unwind(g: Graph, marks: set<nat>, stack: seq<Frame>): (v: Visit)
    requires g.Valid() && FramesValid(g, stack)
    decreases |stack|
  {
    if stack == [] then Visit(marks, [])
    else
      var rest, top := stack[..|stack| - 1], stack[|stack| - 1];
      assert FrameValid(g, top);
      var users := DfsUsers(g, marks, top.op, top.next);
      var below := Unwind(g, users.marks, rest);
      Visit(below.marks, users.order + [top.op] + below.order)
  }

  ghost function After(order: seq<nat>, v: Visit): Visit {
    Visit(v.marks, order + v.order)
  }

  lemma {:induction false} UnwindTop(g: Graph, marks: set<nat>, rest: seq<Frame>, top: Frame)
    requires g.Valid() && FramesValid(g, rest + [top]) && FramesValid(g, rest) && FrameValid(g, top)
    ensures var users := DfsUsers(g, marks, top.op, top.next);
            Unwind(g, marks, rest + [top]) == After(users.order + [top.op], Unwind(g, users.marks, rest))
  {
    assert (rest + [top])[..|rest|] == rest;
  }

  lemma {:induction false} UsersStep(g: Graph, marks: set<nat>, x: nat, j: nat)
    requires g.Valid() && x < |g.users| && j < |g.users[x]|
    ensures g.users[x][j] < |g.users|
    ensures var first := Dfs(g, marks, g.users[x][j]);
            DfsUsers(g, marks, x, j) == After(first.order, DfsUsers(g, first.marks, x, j + 1))
  {}

  lemma {:induction false} DfsOpens(g: Graph, marks: set<nat>, x: nat)
    requires g.Valid() && x < |g.users|
    ensures Dfs(g, marks, x) ==
            if x in marks || !g.tileable[x] then Visit(marks, [])
            else var v := DfsUsers(g, marks + {x}, x, 0); Visit(v.marks, v.order + [x])
  {}

  lemma {:induction false} CloseUnwinds(g: Graph, marks: set<nat>, rest: seq<Frame>, top: Frame)
    requires g.Valid() && FramesValid(g, rest + [top]) && FramesValid(g, rest) && FrameValid(g, top)
    requires top.next == |g.users[top.op]|
    ensures Unwind(g, marks, rest + [top]) == After([top.op], Unwind(g, marks, rest))
  {
    UnwindTop(g, marks, rest, top);
    assert DfsUsers(g, marks, top.op, top.next) == Visit(marks, []);
    assert [] + [top.op] == [top.op];
  }

  lemma {:induction false} SkipUnwinds(g: Graph, marks: set<nat>, rest: seq<Frame>, top: Frame, next: Frame)
    requires g.Valid() && FramesValid(g, rest + [top]) && FramesValid(g, rest) && FrameValid(g, top)
    requires FramesValid(g, rest + [next]) && FrameValid(g, next)
    requires top.next < |g.users[top.op]| && next == Frame(top.op, top.next + 1)
    requires g.users[top.op][top.next] in marks || !g.tileable[g.users[top.op][top.next]]
    ensures Unwind(g, marks, rest + [top]) == Unwind(g, marks, rest + [next])
  {
    hide DfsUsers;
    hide Dfs;
    hide Unwind;
    UnwindTop(g, marks, rest, top);
    UnwindTop(g, marks, rest, next);
    UsersStep(g, marks, top.op, top.next);
    DfsOpens(g, marks, g.users[top.op][top.next]);
    assert [] + DfsUsers(g, marks, top.op, top.next + 1).order == DfsUsers(g, marks, top.op, top.next + 1).order;
  }

  lemma {:induction false} OpenUnwinds(g: Graph, marks: set<nat>, rest: seq<Frame>, top: Frame, next: Frame, user: nat)
    requires g.Valid() && FramesValid(g, rest + [top]) && FramesValid(g, rest) && FrameValid(g, top)
    requires FramesValid(g, rest + [next]) && FrameValid(g, next)
    requires top.next < |g.users[top.op]| && next == Frame(top.op, top.next + 1) && user == g.users[top.op][top.next]
    requires user < |g.users| && user !in marks && g.tileable[user]
    requires FramesValid(g, rest + [next] + [Frame(user, 0)]) && FrameValid(g, Frame(user, 0))
    ensures Unwind(g, marks, rest + [top]) == Unwind(g, marks + {user}, rest + [next] + [Frame(user, 0)])
  {
    hide DfsUsers;
    hide Dfs;
    hide Unwind;
    UnwindTop(g, marks, rest, top);
    UsersStep(g, marks, top.op, top.next);
    DfsOpens(g, marks, user);
    var inner := DfsUsers(g, marks + {user}, user, 0);
    UnwindTop(g, marks + {user}, rest + [next], Frame(user, 0));
    UnwindTop(g, inner.marks, rest, next);
    var others := DfsUsers(g, inner.marks, top.op, top.next + 1);
    var below := Unwind(g, others.marks, rest);
    assert (inner.order + [user] + others.order) + [top.op] + below.order
        == inner.order + [user] + (others.order + [top.op] + below.order);
  }

  lemma {:induction false} StartUnwinds(g: Graph, marks: set<nat>, first: nat)
    requires g.Valid() && first < |g.users| && first !in marks && g.tileable[first] && FramesValid(g, [Frame(first, 0)])
    ensures Unwind(g, marks + {first}, [Frame(first, 0)]) == Dfs(g, marks, first)
  {
    hide DfsUsers;
    hide Dfs;
    var inner := DfsUsers(g, marks + {first}, first, 0);
    assert FrameValid(g, Frame(first, 0));
    assert [] + [Frame(first, 0)] == [Frame(first, 0)];
    UnwindTop(g, marks + {first}, [], Frame(first, 0));
    DfsOpens(g, marks, first);
    assert inner.order + [first] + [] == inner.order + [first];
  }

  lemma AfterNothing(order: seq<nat>, marks: set<nat>)
    ensures After(order, Visit(marks, [])) == Visit(marks, order)
  {}

  lemma {:induction false} NothingToUnwind(g: Graph, marks: set<nat>)
    requires g.Valid()
    ensures FramesValid(g, []) && Unwind(g, marks, []) == Visit(marks, [])
  {}

  lemma UserFrames(g: Graph, rest: seq<Frame>, next: Frame, user: nat)
    requires g.Valid() && FramesValid(g, rest + [next]) && user < |g.users| && g.tileable[user]
    ensures FrameValid(g, Frame(user, 0)) && FramesValid(g, rest + [next] + [Frame(user, 0)])
  {}

  lemma AfterMore(order: seq<nat>, x: nat, v: Visit)
    ensures After(order, After([x], v)) == After(order + [x], v)
  {
    assert order + ([x] + v.order) == (order + [x]) + v.order;
  }

  /** Everything marked was marked before, is a root, or is used by something marked. */
  ghost predicate FromRoots(g: Graph, before: set<nat>, roots: seq<nat>, marks: set<nat>) {
    before <= marks && forall x :: x in marks ==> x in before || x in roots || UsedByMarked(g, marks, x)
  }

  ghost predicate UsedByMarked(g: Graph, marks: set<nat>, x: nat) {
    exists y :: y in marks && y < |g.users| && x in g.users[y]
  }

  lemma FromRootsNext(g: Graph, before: set<nat>, roots: seq<nat>, marks: set<nat>, op: nat, u: nat)
    requires FromRoots(g, before, roots, marks) && op in marks && op < |g.users| && u in g.users[op]
    ensures FromRoots(g, before, roots, marks + {u})
  {
    forall x | UsedByMarked(g, marks, x) ensures UsedByMarked(g, marks + {u}, x) {
      var y :| y in marks && y < |g.users| && x in g.users[y];
    }
  }

  lemma NothingFrom(g: Graph, marks: set<nat>)
    ensures FromRoots(g, marks, [], marks)
  {}

  lemma MarksStay(g: Graph, before: set<nat>, roots: seq<nat>, marks: set<nat>)
    requires FromRoots(g, before, roots, marks)
    ensures before <= marks
  {}

  lemma FromMoreRoots(g: Graph, a: set<nat>, b: set<nat>, c: set<nat>, roots: seq<nat>, more: seq<nat>)
    requires FromRoots(g, a, roots, b) && FromRoots(g, b, more, c)
    ensures FromRoots(g, a, roots + more, c)
  {
    forall x | UsedByMarked(g, b, x) ensures UsedByMarked(g, c, x) {
      var y :| y in b && y < |g.users| && x in g.users[y];
    }
  }

  /** `rank` is a witness where there is one. */
  ghost predicate SoundStack(g: Graph, rank: seq<nat>, order: seq<nat>, stack: seq<Frame>)
    requires g.Valid() && Ranked(g, rank) && FramesValid(g, stack)
  {
    if stack == [] then UsersFirst(g, order)
    else FramesValid(g, stack[..|stack| - 1]) && FrameValid(g, stack[|stack| - 1])
         && Sound(g, rank, order, stack[..|stack| - 1], stack[|stack| - 1])
  }

  lemma {:induction false} TopValid(g: Graph, stack: seq<Frame>)
    requires g.Valid() && FramesValid(g, stack) && stack != []
    ensures FramesValid(g, stack[..|stack| - 1]) && FrameValid(g, stack[|stack| - 1])
    ensures var top := stack[|stack| - 1]; top.op < |g.users| && top.next <= |g.users[top.op]|
    ensures VisitsLeft(g, stack[..|stack| - 1]) < VisitsLeft(g, stack)
  {
    assert FrameValid(g, stack[|stack| - 1]);
  }

  lemma {:induction false} NextValid(g: Graph, stack: seq<Frame>, next: Frame)
    requires g.Valid() && FramesValid(g, stack) && stack != []
    requires var top := stack[|stack| - 1]; next.op == top.op && next.next == top.next + 1
    requires next.op < |g.users| && next.next <= |g.users[next.op]|
    ensures FrameValid(g, next) && FramesValid(g, stack[..|stack| - 1] + [next])
    ensures VisitsLeft(g, stack[..|stack| - 1] + [next]) < VisitsLeft(g, stack)
  {
    var rest := stack[..|stack| - 1];
    assert FrameValid(g, stack[|stack| - 1]);
    assert (rest + [next])[..|rest|] == rest;
  }

  lemma CloseStack(g: Graph, rank: seq<nat>, order: seq<nat>, stack: seq<Frame>)
    requires g.Valid() && Ranked(g, rank) && FramesValid(g, stack) && stack != [] && SoundStack(g, rank, order, stack)
    requires var top := stack[|stack| - 1]; FrameValid(g, top) && top.next == |g.users[top.op]|
    ensures FramesValid(g, stack[..|stack| - 1])
    ensures SoundStack(g, rank, order + [stack[|stack| - 1].op], stack[..|stack| - 1])
  {
    var rest := stack[..|stack| - 1];
    TopValid(g, stack);
    hide Sound;
    hide UsersFirst;
    CloseSound(g, rank, order, rest, stack[|stack| - 1]);
    if rest != [] { TopValid(g, rest); }
  }

  lemma SkipStack(g: Graph, rank: seq<nat>, marks: set<nat>, order: seq<nat>, stack: seq<Frame>)
    requires g.Valid() && Ranked(g, rank) && FramesValid(g, stack) && stack != [] && SoundStack(g, rank, order, stack)
    requires Marked(g, marks, order, stack)
    requires var top := stack[|stack| - 1]; FrameValid(g, top) && top.next < |g.users[top.op]|
    requires var top := stack[|stack| - 1]; g.users[top.op][top.next] in marks || !g.tileable[g.users[top.op][top.next]]
    ensures var top := stack[|stack| - 1];
            var more := stack[..|stack| - 1] + [Frame(top.op, top.next + 1)];
            FramesValid(g, more) && SoundStack(g, rank, order, more)
  {
    var rest, top := stack[..|stack| - 1], stack[|stack| - 1];
    var next := Frame(top.op, top.next + 1);
    assert stack == rest + [top];
    NextValid(g, stack, next);
    if g.users[top.op][top.next] in marks { MarkedIsClosed(g, rank, marks, order, rest, top); }
    SkipSound(g, rank, order, rest, top);
    hide Sound;
    hide FramesValid;
    hide Marked;
    hide Ranked;
    assert (rest + [next])[..|rest|] == rest;
  }

  lemma OpenStack(g: Graph, rank: seq<nat>, order: seq<nat>, stack: seq<Frame>)
    requires g.Valid() && Ranked(g, rank) && FramesValid(g, stack) && stack != [] && SoundStack(g, rank, order, stack)
    requires var top := stack[|stack| - 1]; FrameValid(g, top) && top.next < |g.users[top.op]|
    requires var top := stack[|stack| - 1]; g.tileable[g.users[top.op][top.next]]
    ensures var top := stack[|stack| - 1];
            var more := stack[..|stack| - 1] + [Frame(top.op, top.next + 1)] + [Frame(g.users[top.op][top.next], 0)];
            FramesValid(g, more) && SoundStack(g, rank, order, more)
  {
    var rest, top := stack[..|stack| - 1], stack[|stack| - 1];
    var next, user := Frame(top.op, top.next + 1), Frame(g.users[top.op][top.next], 0);
    NextValid(g, stack, next);
    assert FrameValid(g, user);
    OpenSound(g, rank, order, rest, top);
    hide Sound;
    hide FrameValid;
    hide Ranked;
    var more := rest + [next] + [user];
    assert more[..|more| - 1] == rest + [next];
  }

  lemma StartSound(g: Graph, rank: seq<nat>, order: seq<nat>, first: nat)
    requires g.Valid() && Ranked(g, rank) && UsersFirst(g, order) && first < |g.users| && g.tileable[first]
    ensures FramesValid(g, [Frame(first, 0)]) && SoundStack(g, rank, order, [Frame(first, 0)])
  {
    assert [Frame(first, 0)][..0] == [];
    assert FrameValid(g, Frame(first, 0));
  }

  lemma StartMarked(g: Graph, marks: set<nat>, order: seq<nat>, first: nat)
    requires g.Valid() && Marked(g, marks, order, []) && first < |g.users| && g.tileable[first] && first !in marks
    ensures Marked(g, marks + {first}, order, [Frame(first, 0)]) && FramesValid(g, [Frame(first, 0)])
    ensures FromRoots(g, marks, [first], marks + {first})
  {
    OpenMarked(g, marks, order, [], first);
    assert [] + [Frame(first, 0)] == [Frame(first, 0)];
  }

  lemma NothingNew(g: Graph, marks: set<nat>, first: nat)
    ensures FromRoots(g, marks, [first], marks)
  {}

  lemma MarkedFrames(g: Graph, marks: set<nat>, order: seq<nat>, stack: seq<Frame>)
    requires g.Valid() && Marked(g, marks, order, stack)
    ensures FramesValid(g, stack)
  {}

  lemma EndSound(g: Graph, rank: seq<nat>, order: seq<nat>)
    requires g.Valid() && Ranked(g, rank) && SoundStack(g, rank, order, [])
    ensures UsersFirst(g, order)
  {}

  ghost function Flat(blocks: seq<seq<nat>>): seq<nat> {
    if blocks == [] then [] else Flat(blocks[..|blocks| - 1]) + blocks[|blocks| - 1]
  }

  ghost function Listed(order: seq<nat>): set<nat> {
    set x | x in order
  }

  ghost predicate InGraph(g: Graph, ops: seq<nat>) {
    forall i :: 0 <= i < |ops| ==> ops[i] < |g.users|
  }

  lemma {:induction false} NoSearch(g: Graph, marks: set<nat>)
    requires g.Valid()
    ensures DfsAll(g, marks, []) == Visit(marks, [])
  {}

  lemma {:induction false} SearchNext(g: Graph, marks: set<nat>, roots: seq<nat>, x: nat)
    requires g.Valid() && InGraph(g, roots) && x < |g.users|
    ensures InGraph(g, roots + [x])
    ensures var before := DfsAll(g, marks, roots);
            DfsAll(g, marks, roots + [x]) == After(before.order, Dfs(g, before.marks, x))
  {
    assert (roots + [x])[..|roots|] == roots;
    hide Dfs;
  }

  lemma {:induction false} OneMoreSearch(g: Graph, marks: set<nat>, roots: seq<nat>, x: nat, order: seq<nat>)
    requires g.Valid() && InGraph(g, roots) && x < |g.users|
    ensures InGraph(g, roots + [x])
    ensures var before := DfsAll(g, marks, roots);
            After(order + before.order, Dfs(g, before.marks, x)) == After(order, DfsAll(g, marks, roots + [x]))
  {
    hide DfsAll;
    hide Dfs;
    SearchNext(g, marks, roots, x);
    var before := DfsAll(g, marks, roots);
    var last := Dfs(g, before.marks, x);
    assert order + (before.order + last.order) == (order + before.order) + last.order;
  }

  lemma {:induction false} DfsOfSum(g: Graph, marks: set<nat>, a: seq<nat>, b: seq<nat>)
    requires g.Valid() && InGraph(g, a) && InGraph(g, b)
    ensures InGraph(g, a + b)
    ensures var before := DfsAll(g, marks, a);
            DfsAll(g, marks, a + b) == After(before.order, DfsAll(g, before.marks, b))
    decreases |b|
  {
    hide Dfs;
    if b == [] {
      assert a + b == a;
    } else {
      var c, x := b[..|b| - 1], b[|b| - 1];
      assert a + b == (a + c) + [x] && b == c + [x];
      DfsOfSum(g, marks, a, c);
      SearchNext(g, marks, a + c, x);
      SearchNext(g, DfsAll(g, marks, a).marks, c, x);
      hide DfsAll;
    }
  }

  class Tiler {
    const g: Graph
    var marks: set<nat>
    var order: seq<nat>

    constructor (g: Graph)
      requires g.Valid()
      ensures this.g == g && Valid() && order == []
    {
      this.g := g;
      marks, order := {}, [];
    }

    /** Between searches the marked operations are those listed, each once and after its users. */
    ghost predicate Valid()
      reads this
    {
      g.Valid() && Marked(g, marks, order, []) && (Acyclic(g) ==> UsersFirst(g, order))
    }

    /** Lists `first` and what uses it, directly or not, as far as it is not listed yet: every operation after its users. */
    method ForwardDfs(first: nat)
      requires Valid() && first < |g.users|
      modifies this`marks, this`order
      ensures Valid() && old(order) <= order
      ensures g.tileable[first] ==> first in marks
      ensures FromRoots(g, old(marks), [first], marks)
      ensures Visit(marks, order) == After(old(order), Dfs(g, old(marks), first))
    {
      hide Dfs;
      hide DfsUsers;
      hide Unwind;
      hide After;
      hide Marked;
      hide Sound;
      hide SoundStack;
      hide FrameValid;
      hide FramesValid;
      hide Ranked;
      hide UsersFirst;
      hide FromRoots;
      hide Unmarked;
      NothingNew(g, marks, first);
      DfsOpens(g, marks, first);
      if first in marks || !g.tileable[first] {
        AfterNothing(order, marks);
        return;
      }
      ghost var rank: seq<nat> := [];
      if Acyclic(g) { rank :| Ranked(g, rank); StartSound(g, rank, order, first); }
      StartMarked(g, marks, order, first);
      StartUnwinds(g, marks, first);
      marks := marks + {first};
      var stack := [Frame(first, 0)];
      while stack != []
        invariant Marked(g, marks, order, stack) && FramesValid(g, stack)
        invariant Acyclic(g) ==> Ranked(g, rank) && SoundStack(g, rank, order, stack)
        invariant old(order) <= order && first in marks
        invariant FromRoots(g, old(marks), [first], marks)
        invariant After(order, Unwind(g, marks, stack)) == After(old(order), Dfs(g, old(marks), first))
        decreases Unmarked(|g.users|, marks), VisitsLeft(g, stack)
      {
        var rest, top := stack[..|stack| - 1], stack[|stack| - 1];
        assert stack == rest + [top];
        TopValid(g, stack);
        if top.next == |g.users[top.op]| {
          CloseMarked(g, marks, order, rest, top);
          if Acyclic(g) { CloseStack(g, rank, order, stack); }
          CloseUnwinds(g, marks, rest, top);
          AfterMore(order, top.op, Unwind(g, marks, rest));
          order := order + [top.op];
          stack := rest;
        } else {
          var user := g.users[top.op][top.next];
          var next := Frame(top.op, top.next + 1);
          NextValid(g, stack, next);
          SkipMarked(g, marks, order, rest, top, next);
          if user in marks || !g.tileable[user] {
            if Acyclic(g) { SkipStack(g, rank, marks, order, stack); }
            SkipUnwinds(g, marks, rest, top, next);
            stack := rest + [next];
          } else {
            OpenMarked(g, marks, order, rest + [next], user);
            if Acyclic(g) { OpenStack(g, rank, order, stack); }
            OpenInMarks(g, marks, order, rest, top);
            FromRootsNext(g, old(marks), [first], marks, top.op, user);
            UnmarkedFalls(|g.users|, marks, user);
            UserFrames(g, rest, next, user);
            OpenUnwinds(g, marks, rest, top, next, user);
            stack := rest + [next] + [Frame(user, 0)];
            marks := marks + {user};
          }
        }
        MarkedFrames(g, marks, order, stack);
      }
      if Acyclic(g) { EndSound(g, rank, order); }
      NothingToUnwind(g, marks);
      AfterNothing(order, marks);
    }

    /** Lists the operations of some blocks: those that can be tiled once each, after all their users that can. */
    method OrderTiOps(blocks: seq<seq<nat>>)
      requires Valid() && order == []
      requires forall i, j :: 0 <= i < |blocks| && 0 <= j < |blocks[i]| ==> blocks[i][j] < |g.users|
      modifies this`marks, this`order
      ensures DistinctOps(order) && (Acyclic(g) ==> UsersFirst(g, order))
      ensures forall i, j :: 0 <= i < |blocks| && 0 <= j < |blocks[i]| && g.tileable[blocks[i][j]] ==> blocks[i][j] in order
      ensures forall x :: x in order ==> x < |g.users| && g.tileable[x]
      ensures FromRoots(g, {}, Flat(blocks), Listed(order))
      ensures InGraph(g, Flat(blocks)) && order == DfsAll(g, {}, Flat(blocks)).order
    {
      hide DfsAll;
      hide Dfs;
      hide UsersFirst;
      hide FromRoots;
      NothingFrom(g, marks);
      NoSearch(g, marks);
      assert forall x :: !Open([], x);
      assert marks == {} && Flat(blocks[..0]) == [];
      for i := 0 to |blocks|
        invariant Valid() && FromRoots(g, {}, Flat(blocks[..i]), marks)
        invariant InGraph(g, Flat(blocks[..i])) && DfsAll(g, {}, Flat(blocks[..i])) == Visit(marks, order)
        invariant forall k, j :: 0 <= k < i && 0 <= j < |blocks[k]| && g.tileable[blocks[k][j]] ==> blocks[k][j] in marks
      {
        ghost var before := marks;
        OrderBlock(blocks[i]);
        DfsOfSum(g, {}, Flat(blocks[..i]), blocks[i]);
        FromMoreRoots(g, {}, before, marks, Flat(blocks[..i]), blocks[i]);
        assert blocks[..i + 1][..i] == blocks[..i];
        MarksStay(g, before, blocks[i], marks);
      }
      assert blocks[..|blocks|] == blocks;
      assert marks == Listed(order);
    }

    method OrderBlock(block: seq<nat>)
      requires Valid() && forall j :: 0 <= j < |block| ==> block[j] < |g.users|
      modifies this`marks, this`order
      ensures Valid() && old(order) <= order
      ensures forall j :: 0 <= j < |block| && g.tileable[block[j]] ==> block[j] in marks
      ensures FromRoots(g, old(marks), block, marks)
      ensures Visit(marks, order) == After(old(order), DfsAll(g, old(marks), block))
    {
      hide DfsAll;
      hide Dfs;
      hide UsersFirst;
      hide FromRoots;
      NothingFrom(g, marks);
      NoSearch(g, marks);
      AfterNothing(order, marks);
      for j := 0 to |block|
        invariant Valid() && FromRoots(g, old(marks), block[..j], marks) && old(order) <= order
        invariant Visit(marks, order) == After(old(order), DfsAll(g, old(marks), block[..j]))
        invariant forall l :: 0 <= l < j && g.tileable[block[l]] ==> block[l] in marks
      {
        ghost var before := marks;
        ForwardDfs(block[j]);
        OneMoreSearch(g, old(marks), block[..j], block[j], old(order));
        FromMoreRoots(g, old(marks), before, marks, block[..j], [block[j]]);
        assert block[..j + 1] == block[..j] + [block[j]];
        MarksStay(g, before, [block[j]], marks);
      }
      assert block[..|block|] == block;
    }
  }

  lemma OpenInMarks(g: Graph, marks: set<nat>, order: seq<nat>, rest: seq<Frame>, top: Frame)
    requires g.Valid() && Marked(g, marks, order, rest + [top])
    ensures top.op in marks
  {
    OpenIs(rest, top, top.op);
  }
}
