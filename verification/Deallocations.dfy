/** Insertion of deallocations into a function with nested regions.

    Operations are numbered in the order of the walk, which visits the operations of a region before the operation
    that holds it; `parent` is the number of the latter, or the number of operations at the top of the function. */
module Deallocations {
  import opened Basics

  type Invocation = nat

  datatype Kind = Allocation | Derived | Start(inv: Invocation) | Wait(inv: Invocation) | Other

  /** Operands and results are the memref ones; the base of a derived memref is its first operand. */
  datatype Op = Op(kind: Kind, operands: seq<Value>, results: seq<Value>, terminator: bool, parent: nat)

  /** The numbering is that of a walk over a forest. */
  ghost predicate IsForest(p: seq<Op>) {
    && (forall i :: 0 <= i < |p| ==> i < p[i].parent <= |p|)
    && (forall i, j :: 0 <= i < j < |p| && j < p[i].parent ==> p[j].parent <= p[i].parent)
  }

  /** Values are defined once, before their uses; allocations and derived memrefs have one result. */
  ghost predicate IsSsa(p: seq<Op>) {
    && (forall i, j, r :: 0 <= i < |p| && 0 <= j < |p| && r in p[i].results && r in p[j].operands ==> i < j)
    && (forall i, j, r :: 0 <= i < |p| && 0 <= j < |p| && r in p[i].results && r in p[j].results ==> i == j)
    && (forall i :: 0 <= i < |p| && (p[i].kind.Allocation? || p[i].kind.Derived?) ==> |p[i].results| == 1)
    && (forall i :: 0 <= i < |p| && p[i].kind.Derived? ==> |p[i].operands| >= 1)
  }

  // -------------------------------------------------------------------------
  // The forest

  /** Operation `d` is `w` or lies in a region of it, at any depth. */
  ghost predicate Under(p: seq<Op>, d: nat, w: nat)
    requires IsForest(p)
    decreases |p| - d
  {
    d == w || (d < |p| && Under(p, p[d].parent, w))
  }

  lemma {:induction false} UnderIsLater(p: seq<Op>, d: nat, w: nat)
    requires IsForest(p) && Under(p, d, w)
    ensures d <= w
    decreases |p| - d
  {
    if d != w { UnderIsLater(p, p[d].parent, w); }
  }

  lemma {:induction false} UnderTransitive(p: seq<Op>, d: nat, v: nat, w: nat)
    requires IsForest(p) && Under(p, d, v) && Under(p, v, w)
    ensures Under(p, d, w)
    decreases |p| - d
  {
    if d != v { UnderTransitive(p, p[d].parent, v, w); }
  }

  lemma {:induction false} BetweenIsUnder(p: seq<Op>, x: nat, d: nat)
    requires IsForest(p) && x < d < |p| && d < p[x].parent
    ensures Under(p, d, p[x].parent)
    decreases |p| - d
  {
    if p[d].parent != p[x].parent {
      BetweenIsUnder(p, x, p[d].parent);
    }
  }

  /** The operations under `w` are numbered contiguously up to `w`. */
  lemma {:induction false} Contiguous(p: seq<Op>, d: nat, e: nat, w: nat)
    requires IsForest(p) && Under(p, d, w) && d <= e <= w && e < |p|
    ensures Under(p, e, w)
    decreases |p| - d
  {
    UnderIsLater(p, d, w);
    if d != w && d != e {
      if e < p[d].parent {
        BetweenIsUnder(p, d, e);
        UnderTransitive(p, e, p[d].parent, w);
      } else {
        Contiguous(p, p[d].parent, e, w);
      }
    }
  }

  /** No operation lies under two operations of one region. */
  lemma {:induction false} OneChild(p: seq<Op>, d: nat, c: nat, w: nat)
    requires IsForest(p) && c < |p| && w < |p| && p[c].parent == p[w].parent
    requires Under(p, d, c) && Under(p, d, w)
    ensures c == w
    decreases |p| - d
  {
    UnderIsLater(p, d, c);
    UnderIsLater(p, d, w);
    if d == c {
      if d != w { UnderIsLater(p, p[d].parent, w); }
    } else if d == w {
      UnderIsLater(p, p[d].parent, c);
    } else {
      OneChild(p, p[d].parent, c, w);
    }
  }

  /** Later operations lie under later ones of the same region. */
  lemma {:induction false} ChildrenInOrder(p: seq<Op>, d: nat, e: nat, c: nat, w: nat)
    requires IsForest(p) && c < |p| && w < |p| && p[c].parent == p[w].parent
    requires Under(p, d, c) && Under(p, e, w) && d <= e
    ensures c <= w
  {
    UnderIsLater(p, e, w);
    if w < c {
      Contiguous(p, d, e, c);
      OneChild(p, e, c, w);
    }
  }

  /** Of two operations above `d`, the later is above the earlier. */
  lemma {:induction false} Comparable(p: seq<Op>, d: nat, c: nat, w: nat)
    requires IsForest(p) && Under(p, d, c) && Under(p, d, w) && c <= w
    ensures Under(p, c, w)
    decreases |p| - d
  {
    UnderIsLater(p, d, c);
    if d != c && d != w {
      Comparable(p, p[d].parent, c, w);
    }
  }

  // -------------------------------------------------------------------------
  // What the walk knows

  function Selves(values: seq<Value>): map<Value, Value> {
    map v | v in values :: v
  }

  /** The allocation or other value behind every memref defined by the first `i` operations. */
  ghost function AliasesOf(p: seq<Op>, i: nat): map<Value, Value>
    requires i <= |p|
  {
    if i == 0 then map[] else
    var m, op := AliasesOf(p, i - 1), p[i - 1];
    if op.kind.Derived? then
      if |op.operands| > 0 && |op.results| > 0 && op.operands[0] in m then m[op.results[0] := m[op.operands[0]]] else m
    else m + Selves(op.results)
  }

  /** The last start of every invocation among the first `i` operations. */
  ghost function StartsOf(p: seq<Op>, i: nat): (m: map<Invocation, nat>)
    requires i <= |p|
    ensures forall inv :: inv in m ==> m[inv] < i && p[m[inv]].kind == Start(inv)
  {
    if i == 0 then map[] else
    var m, op := StartsOf(p, i - 1), p[i - 1];
    if op.kind.Start? then m[op.kind.inv := i - 1] else m
  }

  /** The operands of an operation; a wait counts as using those of its start. */
  ghost function OperandsOf(p: seq<Op>, d: nat): seq<Value>
    requires d < |p|
  {
    if p[d].kind.Wait? then
      if p[d].kind.inv in StartsOf(p, d) then p[StartsOf(p, d)[p[d].kind.inv]].operands else []
    else p[d].operands
  }

  ghost predicate IsAllocation(p: seq<Op>, j: nat, v: Value) {
    j < |p| && p[j].kind.Allocation? && p[j].results == [v]
  }

  /** Operation `d` uses, through an alias or not, the buffer allocated by `j`. */
  ghost predicate Touches(p: seq<Op>, d: nat, j: nat) {
    && j <= d < |p| && p[j].kind.Allocation? && |p[j].results| == 1
    && exists v :: v in OperandsOf(p, d) && v in AliasesOf(p, d + 1) && AliasesOf(p, d + 1)[v] == p[j].results[0]
  }

  /** `w` is the operation in the region of allocation `j` that holds the last use of it. */
  ghost predicate IsLastUser(p: seq<Op>, j: nat, w: nat)
    requires IsForest(p)
  {
    && j < |p| && w < |p| && p[w].parent == p[j].parent
    && exists d: nat :: Touches(p, d, j) && Under(p, d, w) && forall e: nat :: Touches(p, e, j) ==> e <= d
  }

  ghost predicate InScope(p: seq<Op>, d: nat, scope: nat)
    requires IsForest(p)
  {
    exists w :: 0 <= w < |p| && Under(p, d, w) && p[w].parent == scope
  }

  /** Operation `d` can be analysed: what it refers to has been seen, and lies in scope. */
  ghost predicate StepOk(p: seq<Op>, d: nat)
    requires IsForest(p) && d < |p|
  {
    && (p[d].kind.Derived? ==> |p[d].operands| > 0 && p[d].operands[0] in AliasesOf(p, d))
    && (p[d].kind.Wait? ==> p[d].kind.inv in StartsOf(p, d))
    && (p[d].terminator ==> OperandsOf(p, d) == [])
    && (forall v :: v in OperandsOf(p, d) ==> v in AliasesOf(p, d + 1))
    && (forall j: nat :: Touches(p, d, j) ==> InScope(p, d, p[j].parent))
  }

  ghost predicate Used(p: seq<Op>, j: nat) {
    exists d: nat :: Touches(p, d, j)
  }

  ghost predicate Analysable(p: seq<Op>)
    requires IsForest(p)
  {
    && (forall d :: 0 <= d < |p| ==> StepOk(p, d))
    && (forall j :: 0 <= j < |p| && p[j].kind.Allocation? ==> Used(p, j))
  }

  // -------------------------------------------------------------------------
  // The walk

  /** The operation in region `scope` that holds `i`; fails if there is none. */
  method FindUser(p: seq<Op>, i: nat, scope: nat) returns (ok: bool, user: nat)
    requires IsForest(p) && i < |p|
    ensures ok ==> user < |p| && Under(p, i, user) && p[user].parent == scope
    ensures ok <==> InScope(p, i, scope)
  {
    user := i;
    while p[user].parent != scope
      invariant user < |p| && Under(p, i, user)
      invariant forall w :: 0 <= w < |p| && Under(p, i, w) && p[w].parent == scope ==> Under(p, user, w)
      decreases |p| - user
    {
      if p[user].parent == |p| {
        return false, user;
      }
      UnderTransitive(p, i, user, p[user].parent);
      user := p[user].parent;
    }
    ok := true;
  }

  /** Allocation `a` of the scope map is behind one of the operands. */
  ghost predicate Hit(operands: seq<Value>, aliases: map<Value, Value>, scope: map<Value, nat>, a: Value) {
    a in scope && exists v :: v in operands && v in aliases && aliases[v] == a
  }

  lemma NothingHit(aliases: map<Value, Value>, scope: map<Value, nat>)
    ensures forall a :: !Hit([], aliases, scope, a)
    ensures forall operands, a :: Hit(operands, aliases, scope, a) ==> a in scope
  {}

  lemma HitMore(operands: seq<Value>, v: Value, aliases: map<Value, Value>, scope: map<Value, nat>)
    requires v in aliases
    ensures forall a :: Hit(operands + [v], aliases, scope, a) <==>
              Hit(operands, aliases, scope, a) || (a == aliases[v] && a in scope)
  {}

  /** The checks made while marking. */
  ghost predicate Checked(p: seq<Op>, i: nat, operands: seq<Value>, aliases: map<Value, Value>, scope: map<Value, nat>)
    requires IsForest(p) && i < |p|
  {
    && (p[i].terminator ==> operands == [])
    && forall v :: v in operands ==> v in aliases && (aliases[v] in scope ==> InScope(p, i, scope[aliases[v]]))
  }

  /** Records operation `i`, or what holds it in the scope of the allocation, as user of every allocation it uses. */
  method MarkUsers(
      p: seq<Op>, i: nat, operands: seq<Value>, aliases: map<Value, Value>, scope: map<Value, nat>, users: map<Value, nat>)
    returns (ok: bool, marked: map<Value, nat>)
    requires IsForest(p) && i < |p|
    ensures ok <==> Checked(p, i, operands, aliases, scope)
    ensures ok ==> forall a :: a in marked <==> a in users || Hit(operands, aliases, scope, a)
    ensures ok ==> forall a :: a in marked ==>
              if Hit(operands, aliases, scope, a)
              then marked[a] < |p| && Under(p, i, marked[a]) && p[marked[a]].parent == scope[a]
              else marked[a] == users[a]
  {
    hide Hit;
    hide InScope;
    hide Under;
    marked := users;
    NothingHit(aliases, scope);
    for k := 0 to |operands|
      invariant k > 0 ==> !p[i].terminator
      invariant forall v :: v in operands[..k] ==> v in aliases && (aliases[v] in scope ==> InScope(p, i, scope[aliases[v]]))
      invariant forall a :: a in marked <==> a in users || Hit(operands[..k], aliases, scope, a)
      invariant forall a :: a in marked ==>
                  if Hit(operands[..k], aliases, scope, a)
                  then marked[a] < |p| && Under(p, i, marked[a]) && p[marked[a]].parent == scope[a]
                  else marked[a] == users[a]
    {
      var v := operands[k];
      assert operands[..k + 1] == operands[..k] + [v];
      if v !in aliases || p[i].terminator {
        return false, marked;
      }
      var base := aliases[v];
      HitMore(operands[..k], v, aliases, scope);
      if base in scope {
        var found, user := FindUser(p, i, scope[base]);
        if !found {
          return false, marked;
        }
        marked := marked[base := user];
      }
    }
    assert operands[..|operands|] == operands;
    ok := true;
  }

  ghost predicate ScopeIs(p: seq<Op>, i: nat, scope: map<Value, nat>) {
    && (forall a :: a in scope ==> exists j: nat :: j < i && IsAllocation(p, j, a))
    && (forall j: nat, a :: j < i && IsAllocation(p, j, a) ==> a in scope && scope[a] == p[j].parent)
  }

  ghost predicate TouchedBefore(p: seq<Op>, j: nat, i: nat) {
    exists d: nat :: d < i && Touches(p, d, j)
  }

  ghost predicate LastBefore(p: seq<Op>, j: nat, w: nat, i: nat)
    requires IsForest(p)
  {
    && j < |p| && w < |p| && p[w].parent == p[j].parent
    && exists d: nat :: d < i && Touches(p, d, j) && Under(p, d, w) && forall e: nat :: e < i && Touches(p, e, j) ==> e <= d
  }

  ghost predicate UsersAre(p: seq<Op>, i: nat, users: map<Value, nat>)
    requires IsForest(p)
  {
    && (forall a :: a in users ==> exists j: nat :: j < i && IsAllocation(p, j, a))
    && (forall j: nat, a :: j < i && IsAllocation(p, j, a) ==>
          && (a in users <==> TouchedBefore(p, j, i))
          && (a in users ==> LastBefore(p, j, users[a], i)))
  }

  lemma {:induction false} HitIsTouch(p: seq<Op>, i: nat, scope: map<Value, nat>, j: nat, a: Value)
    requires i < |p| && j <= i && IsAllocation(p, j, a) && ScopeIs(p, i + 1, scope)
    ensures Hit(OperandsOf(p, i), AliasesOf(p, i + 1), scope, a) <==> Touches(p, i, j)
  {}

  lemma TouchesAreLater(p: seq<Op>, j: nat)
    ensures forall d: nat :: Touches(p, d, j) ==> j <= d < |p|
  {}

  lemma {:induction false} LastIsNow(p: seq<Op>, j: nat, w: nat, i: nat)
    requires IsForest(p) && Touches(p, i, j) && Under(p, i, w) && w < |p| && p[w].parent == p[j].parent
    ensures LastBefore(p, j, w, i + 1) && TouchedBefore(p, j, i + 1)
  {
    hide Touches;
    hide Under;
    hide IsForest;
    TouchesAreLater(p, j);
  }

  lemma LastStays(p: seq<Op>, j: nat, w: nat, i: nat)
    requires IsForest(p) && !Touches(p, i, j)
    ensures LastBefore(p, j, w, i) ==> LastBefore(p, j, w, i + 1)
    ensures TouchedBefore(p, j, i) <==> TouchedBefore(p, j, i + 1)
  {
    hide Touches;
    hide Under;
    hide IsForest;
    if LastBefore(p, j, w, i) {
      var d: nat :| d < i && Touches(p, d, j) && Under(p, d, w) && forall e: nat :: e < i && Touches(p, e, j) ==> e <= d;
      assert d < i + 1 && Touches(p, d, j);
    }
    if TouchedBefore(p, j, i) {
      var d: nat :| d < i && Touches(p, d, j);
      assert d < i + 1 && Touches(p, d, j);
    }
  }

  /** Marking the users of one more operation. */
  lemma {:induction false} UsersNext(
      p: seq<Op>, i: nat, scope: map<Value, nat>, users: map<Value, nat>, marked: map<Value, nat>, j: nat, a: Value)
    requires IsForest(p) && IsSsa(p) && i < |p| && UsersAre(p, i, users) && ScopeIs(p, i + 1, scope)
    requires forall b :: b in marked <==> b in users || Hit(OperandsOf(p, i), AliasesOf(p, i + 1), scope, b)
    requires forall b :: b in marked ==>
               if Hit(OperandsOf(p, i), AliasesOf(p, i + 1), scope, b)
               then marked[b] < |p| && Under(p, i, marked[b]) && p[marked[b]].parent == scope[b]
               else marked[b] == users[b]
    requires j < i + 1 && IsAllocation(p, j, a)
    ensures a in marked <==> TouchedBefore(p, j, i + 1)
    ensures a in marked ==> LastBefore(p, j, marked[a], i + 1)
  {
    hide AliasesOf;
    hide StartsOf;
    hide OperandsOf;
    hide Under;
    hide Hit;
    hide Touches;
    HitIsTouch(p, i, scope, j, a);
    AllocatedOnce(p, j, a);
    hide TouchedBefore;
    hide LastBefore;
    TouchesAreLater(p, j);
    NotYetTouched(p, j);
    if Touches(p, i, j) {
      LastIsNow(p, j, marked[a], i);
    } else {
      LastStays(p, j, if a in users then users[a] else 0, i);
    }
  }

  lemma NotYetTouched(p: seq<Op>, j: nat)
    ensures !TouchedBefore(p, j, j)
  {}

  lemma AllocatedOnce(p: seq<Op>, j: nat, a: Value)
    requires IsSsa(p) && IsAllocation(p, j, a)
    ensures forall i: nat :: IsAllocation(p, i, a) ==> i == j
  {
    forall i: nat | IsAllocation(p, i, a) ensures i == j {
      assert a in p[i].results && a in p[j].results;
    }
  }

  lemma NewAllocation(p: seq<Op>, i: nat, scope: map<Value, nat>, a: Value)
    requires IsSsa(p) && ScopeIs(p, i, scope) && IsAllocation(p, i, a)
    ensures a !in scope && ScopeIs(p, i + 1, scope[a := p[i].parent])
  {
    AllocatedOnce(p, i, a);
  }

  lemma OtherOperation(p: seq<Op>, i: nat, scope: map<Value, nat>)
    requires i < |p| && ScopeIs(p, i, scope) && !p[i].kind.Allocation?
    ensures ScopeIs(p, i + 1, scope)
  {}

  /** The checks made while marking, on top of the look-ups before, are those of `StepOk`. */
  lemma {:induction false} ChecksAreStepOk(p: seq<Op>, i: nat, scope: map<Value, nat>)
    requires IsForest(p) && IsSsa(p) && i < |p| && ScopeIs(p, i + 1, scope)
    requires p[i].kind.Derived? ==> p[i].operands[0] in AliasesOf(p, i)
    requires p[i].kind.Wait? ==> p[i].kind.inv in StartsOf(p, i)
    ensures StepOk(p, i) <==> Checked(p, i, OperandsOf(p, i), AliasesOf(p, i + 1), scope)
  {
    hide AliasesOf;
    hide StartsOf;
    hide OperandsOf;
    hide Under;
    hide InScope;
    var aliases := AliasesOf(p, i + 1);
    var operands := OperandsOf(p, i);
    if StepOk(p, i) {
      forall v | v in operands && aliases[v] in scope ensures InScope(p, i, scope[aliases[v]]) {
        var j: nat :| j < i + 1 && IsAllocation(p, j, aliases[v]);
        assert Touches(p, i, j);
      }
    }
    if Checked(p, i, operands, aliases, scope) {
      forall j: nat | Touches(p, i, j) ensures InScope(p, i, p[j].parent) {
        assert IsAllocation(p, j, p[j].results[0]);
      }
    }
  }

  lemma {:induction false} UsersAfter(
        p: seq<Op>, i: nat, scope: map<Value, nat>, users: map<Value, nat>, marked: map<Value, nat>)
    requires IsForest(p) && IsSsa(p) && i < |p| && UsersAre(p, i, users) && ScopeIs(p, i + 1, scope)
    requires forall b :: b in marked <==> b in users || Hit(OperandsOf(p, i), AliasesOf(p, i + 1), scope, b)
    requires forall b :: b in marked ==>
               if Hit(OperandsOf(p, i), AliasesOf(p, i + 1), scope, b)
               then marked[b] < |p| && Under(p, i, marked[b]) && p[marked[b]].parent == scope[b]
               else marked[b] == users[b]
    ensures UsersAre(p, i + 1, marked)
  {
    hide TouchedBefore;
    hide LastBefore;
    forall j: nat, a | j < i + 1 && IsAllocation(p, j, a)
      ensures a in marked <==> TouchedBefore(p, j, i + 1)
      ensures a in marked ==> LastBefore(p, j, marked[a], i + 1)
    {
      UsersNext(p, i, scope, users, marked, j, a);
    }
  }

  /** At the end of the walk the recorded user of an allocation is its last one. */
  lemma UserIsLast(p: seq<Op>, users: map<Value, nat>, j: nat, a: Value)
    requires IsForest(p) && UsersAre(p, |p|, users) && IsAllocation(p, j, a)
    ensures a in users <==> Used(p, j)
    ensures a in users ==> IsLastUser(p, j, users[a])
  {
    assert TouchedBefore(p, j, |p|) <==> Used(p, j);
  }

  lemma UsersAreLast(p: seq<Op>, scope: map<Value, nat>, users: map<Value, nat>)
    requires IsForest(p) && IsSsa(p) && UsersAre(p, |p|, users) && ScopeIs(p, |p|, scope)
    requires forall d :: 0 <= d < |p| ==> StepOk(p, d)
    ensures forall a :: a in scope <==> exists j: nat :: IsAllocation(p, j, a)
    ensures (forall a :: a in scope ==> a in users) <==> Analysable(p)
    ensures forall j: nat, a :: IsAllocation(p, j, a) && a in users ==> IsLastUser(p, j, users[a])
  {
    hide UsersAre;
    hide StepOk;
    hide IsLastUser;
    hide Used;
    forall j: nat, a | IsAllocation(p, j, a)
      ensures a in scope && (a in users <==> Used(p, j)) && (a in users ==> IsLastUser(p, j, users[a]))
    {
      UserIsLast(p, users, j, a);
    }
    forall j: nat | j < |p| && p[j].kind.Allocation? ensures exists a :: IsAllocation(p, j, a) {
      assert IsAllocation(p, j, p[j].results[0]);
    }
    UsersCover(p, scope, users);
  }

  lemma UsersCover(p: seq<Op>, scope: map<Value, nat>, users: map<Value, nat>)
    requires IsForest(p)
    requires forall a :: a in scope <==> exists j: nat :: IsAllocation(p, j, a)
    requires forall d :: 0 <= d < |p| ==> StepOk(p, d)
    requires forall j: nat, a :: IsAllocation(p, j, a) ==> (a in users <==> Used(p, j))
    requires forall j: nat :: j < |p| && p[j].kind.Allocation? ==> exists a :: IsAllocation(p, j, a)
    ensures (forall a :: a in scope ==> a in users) <==> Analysable(p)
  {
    hide StepOk;
    hide Used;
    hide IsForest;
    if forall a :: a in scope ==> a in users {
      forall j: nat | j < |p| && p[j].kind.Allocation? ensures Used(p, j) {
        var a :| IsAllocation(p, j, a);
      }
    } else {
      var a :| a in scope && a !in users;
      var j: nat :| IsAllocation(p, j, a);
      assert !Used(p, j);
    }
  }

  lemma {:induction false} Unseen(p: seq<Op>, i: nat)
    requires IsForest(p) && IsSsa(p) && i < |p|
    requires || (p[i].kind.Derived? && p[i].operands[0] !in AliasesOf(p, i))
             || (p[i].kind.Wait? && p[i].kind.inv !in StartsOf(p, i))
    ensures !StepOk(p, i)
  {}

  lemma AllocationAt(p: seq<Op>, i: nat)
    requires IsSsa(p) && i < |p| && p[i].kind.Allocation?
    ensures |p[i].results| == 1 && IsAllocation(p, i, p[i].results[0])
  {}

  /** What one step of the walk learns. */
  lemma {:induction false} WalkStep(p: seq<Op>, i: nat)
    requires IsSsa(p) && i < |p|
    ensures p[i].kind.Derived? ==> |p[i].operands| >= 1 && |p[i].results| == 1
    ensures p[i].kind.Allocation? ==> |p[i].results| == 1
    ensures var m, op := AliasesOf(p, i), p[i];
            AliasesOf(p, i + 1) ==
            if op.kind.Derived? then if op.operands[0] in m then m[op.results[0] := m[op.operands[0]]] else m
            else m + Selves(op.results)
    ensures StartsOf(p, i + 1) == if p[i].kind.Start? then StartsOf(p, i)[p[i].kind.inv := i] else StartsOf(p, i)
    ensures p[i].kind.Wait? && p[i].kind.inv in StartsOf(p, i) ==> StartsOf(p, i)[p[i].kind.inv] < |p|
    ensures p[i].kind.Wait? && p[i].kind.inv in StartsOf(p, i) ==>
              OperandsOf(p, i) == p[StartsOf(p, i)[p[i].kind.inv]].operands
    ensures !p[i].kind.Wait? ==> OperandsOf(p, i) == p[i].operands
  {}

  ghost predicate NoRepeats(s: seq<Value>) {
    forall x, y :: 0 <= x < y < |s| ==> s[x] != s[y]
  }

  lemma NoRepeatsNext(s: seq<Value>, v: Value)
    requires NoRepeats(s) && v !in s
    ensures NoRepeats(s + [v])
  {}

  /** Takes operation `i` into the alias and start maps and finds the operands it stands for. */
  method LookUp(p: seq<Op>, i: nat, aliases: map<Value, Value>, starts: map<Invocation, nat>)
    returns (ok: bool, aliases1: map<Value, Value>, starts1: map<Invocation, nat>, operands: seq<Value>)
    requires IsForest(p) && IsSsa(p) && i < |p| && aliases == AliasesOf(p, i) && starts == StartsOf(p, i)
    ensures !ok ==> !StepOk(p, i)
    ensures ok ==> aliases1 == AliasesOf(p, i + 1) && starts1 == StartsOf(p, i + 1) && operands == OperandsOf(p, i)
    ensures ok && p[i].kind.Derived? ==> p[i].operands[0] in aliases
    ensures ok && p[i].kind.Wait? ==> p[i].kind.inv in starts
  {
    hide StepOk;
    hide IsSsa;
    hide AliasesOf;
    hide StartsOf;
    hide OperandsOf;
    WalkStep(p, i);
    var op := p[i];
    aliases1, starts1, operands := aliases, starts, op.operands;
    if op.kind.Derived? {
      if op.operands[0] !in aliases {
        Unseen(p, i);
        return false, aliases1, starts1, operands;
      }
      aliases1 := aliases[op.results[0] := aliases[op.operands[0]]];
    } else {
      aliases1 := aliases + Selves(op.results);
    }
    match op.kind {
      case Start(inv) => starts1 := starts[inv := i];
      case Wait(inv) =>
        if inv !in starts {
          Unseen(p, i);
          return false, aliases1, starts1, operands;
        }
        operands := p[starts[inv]].operands;
      case _ =>
    }
    ok := true;
  }

  /** Finds, for every allocation, the operation in its own region after which nobody uses it any more. */
  method FindLastUsers(p: seq<Op>) returns (ok: bool, allocations: seq<Value>, users: map<Value, nat>)
    requires IsForest(p) && IsSsa(p)
    ensures ok <==> Analysable(p)
    ensures ok ==> (forall a :: a in allocations <==> exists j: nat :: IsAllocation(p, j, a))
                   && NoRepeats(allocations)
    ensures ok ==> (forall a :: a in allocations ==> a in users)
    ensures ok ==> forall j: nat, a :: IsAllocation(p, j, a) ==> IsLastUser(p, j, users[a])
  {
    hide UsersAre;
    hide ScopeIs;
    hide StepOk;
    hide Hit;
    hide IsForest;
    hide IsLastUser;
    hide IsSsa;
    hide AliasesOf;
    hide StartsOf;
    hide OperandsOf;
    hide Checked;
    hide IsAllocation;
    hide NoRepeats;
    allocations, users := [], map[];
    var aliases: map<Value, Value> := map[];
    var starts: map<Invocation, nat> := map[];
    var scope: map<Value, nat> := map[];
    NothingScanned(p);
    for i := 0 to |p|
      invariant aliases == AliasesOf(p, i) && starts == StartsOf(p, i)
      invariant ScopeIs(p, i, scope) && UsersAre(p, i, users)
      invariant forall a :: a in allocations <==> a in scope
      invariant NoRepeats(allocations)
      invariant forall d :: 0 <= d < i ==> StepOk(p, d)
    {
      var operands;
      ok, aliases, starts, operands := LookUp(p, i, aliases, starts);
      if !ok {
        return;
      }
      if p[i].kind.Allocation? {
        AllocationAt(p, i);
        NewAllocation(p, i, scope, p[i].results[0]);
        NoRepeatsNext(allocations, p[i].results[0]);
        allocations := allocations + [p[i].results[0]];
        scope := scope[p[i].results[0] := p[i].parent];
      } else {
        OtherOperation(p, i, scope);
      }
      var marked;
      ok, marked := MarkUsers(p, i, operands, aliases, scope, users);
      ChecksAreStepOk(p, i, scope);
      if !ok {
        return;
      }
      UsersAfter(p, i, scope, users, marked);
      users := marked;
    }
    ok := forall a | a in allocations :: a in users;
    UsersAreLast(p, scope, users);
  }

  lemma {:induction false} NothingScanned(p: seq<Op>)
    requires IsForest(p)
    ensures UsersAre(p, 0, map[]) && ScopeIs(p, 0, map[]) && NoRepeats([])
    ensures AliasesOf(p, 0) == map[] && StartsOf(p, 0) == map[]
  {}

  // -------------------------------------------------------------------------
  // The insertion

  /** After `u` come exactly the deallocations of the buffers it is the last user of, once each. */
  ghost predicate FreedAfter(p: seq<Op>, u: nat, frees: seq<Value>)
    requires IsForest(p)
  {
    && (forall a :: a in frees <==> exists j: nat :: IsAllocation(p, j, a) && IsLastUser(p, j, u))
    && (forall x, y :: 0 <= x < y < |frees| ==> frees[x] != frees[y])
  }

  ghost predicate Inserted(p: seq<Op>, after: seq<seq<Value>>)
    requires IsForest(p)
  {
    |after| == |p| && forall u: nat :: u < |p| ==> FreedAfter(p, u, after[u])
  }

  lemma LastUserIsOne(p: seq<Op>, j: nat, u: nat, w: nat)
    requires IsForest(p) && IsLastUser(p, j, u) && IsLastUser(p, j, w)
    ensures u == w
  {
    hide Touches;
    hide Under;
    var d: nat :| Touches(p, d, j) && Under(p, d, u) && forall e: nat :: Touches(p, e, j) ==> e <= d;
    assert Under(p, d, w);
    OneChild(p, d, u, w);
  }

  lemma InsertedAt(p: seq<Op>, allocations: seq<Value>, users: map<Value, nat>, u: nat, frees: seq<Value>)
    requires IsForest(p) && IsSsa(p)
    requires forall a :: a in allocations <==> exists j: nat :: IsAllocation(p, j, a)
    requires forall a :: a in allocations ==> a in users
    requires forall j: nat, a :: IsAllocation(p, j, a) ==> IsLastUser(p, j, users[a])
    requires forall a :: a in frees <==> a in allocations && users[a] == u
    requires forall x, y :: 0 <= x < y < |frees| ==> frees[x] != frees[y]
    ensures FreedAfter(p, u, frees)
  {
    hide IsLastUser;
    hide IsAllocation;
    hide IsForest;
    forall a ensures a in frees <==> exists j: nat :: IsAllocation(p, j, a) && IsLastUser(p, j, u) {
      if a in frees {
        var j: nat :| IsAllocation(p, j, a);
        assert IsLastUser(p, j, u);
      } else if exists j: nat :: IsAllocation(p, j, a) && IsLastUser(p, j, u) {
        var j: nat :| IsAllocation(p, j, a) && IsLastUser(p, j, u);
        LastUserIsOne(p, j, u, users[a]);
      }
    }
  }

  /** Inserts after every operation the deallocations of the buffers it is the last user of. */
  method AddDeallocations(p: seq<Op>) returns (ok: bool, after: seq<seq<Value>>)
    requires IsForest(p) && IsSsa(p)
    ensures ok <==> Analysable(p)
    ensures ok ==> Inserted(p, after)
  {
    hide IsForest;
    hide IsLastUser;
    hide FreedAfter;
    hide Analysable;
    hide IsAllocation;
    var allocations, users;
    ok, allocations, users := FindLastUsers(p);
    after := seq(|p|, _ => []);
    if !ok { return; }
    UsersInRange(p, allocations, users);
    for i := 0 to |allocations|
      invariant |after| == |p|
      invariant forall u, a :: 0 <= u < |p| ==> (a in after[u] <==> a in allocations[..i] && users[a] == u)
      invariant forall u, x, y :: 0 <= u < |p| && 0 <= x < y < |after[u]| ==> after[u][x] != after[u][y]
    {
      var a := allocations[i];
      var user := users[a];
      assert allocations[..i + 1] == allocations[..i] + [a];
      after := after[user := [a] + after[user]];
    }
    assert allocations[..|allocations|] == allocations;
    forall u: nat | u < |p| ensures FreedAfter(p, u, after[u]) {
      InsertedAt(p, allocations, users, u, after[u]);
    }
  }

  lemma UsersInRange(p: seq<Op>, allocations: seq<Value>, users: map<Value, nat>)
    requires IsForest(p)
    requires forall a :: a in allocations ==> a in users
    requires forall a :: a in allocations <==> exists j: nat :: IsAllocation(p, j, a)
    requires forall j: nat, a :: IsAllocation(p, j, a) ==> IsLastUser(p, j, users[a])
    ensures forall a :: a in allocations ==> users[a] < |p|
  {
    hide IsAllocation;
    hide Touches;
    hide Under;
  }
}
