/** The buffers of the small memory that a program leaves allocated, in the order in which it has allocated them. */
module AllocationOrders {
  import opened Basics
  import opened Ir

  function Without<T(==)>(s: seq<T>, x: T): seq<T> {
    if s == [] then [] else if s[0] == x then s[1..] else [s[0]] + Without(s[1..], x)
  }

  ghost function Residents(program: seq<Instr>): seq<Value> {
    if program == [] then []
    else
      var before := Residents(program[..|program| - 1]);
      match program[|program| - 1]
      case Alloc(v, Lram, _) => before + [v]
      case Dealloc(v, Lram) => Without(before, v)
      case _ => before
  }

  lemma {:induction false} ResidentsNext(program: seq<Instr>, e: Instr)
    ensures Residents(program + [e]) ==
            match e
            case Alloc(v, Lram, _) => Residents(program) + [v]
            case Dealloc(v, Lram) => Without(Residents(program), v)
            case _ => Residents(program)
  {
    assert (program + [e])[..|program|] == program;
  }

  /** Instruction `k` allocates `v` in the small memory. */
  predicate Allocates(program: seq<Instr>, k: nat, v: Value) {
    k < |program| && program[k].Alloc? && program[k].space == Lram && program[k].v == v
  }

  /** `v` is allocated before `w`. */
  ghost predicate AllocatedBefore(program: seq<Instr>, v: Value, w: Value) {
    exists k, l :: k < l && Allocates(program, k, v) && Allocates(program, l, w)
  }

  /** What is left is from two places in the same order. */
  lemma {:induction false} WithoutSelects<T>(s: seq<T>, x: T, i: nat, j: nat) returns (i': nat, j': nat)
    requires i < j < |Without(s, x)|
    ensures i' < j' < |s| && s[i'] == Without(s, x)[i] && s[j'] == Without(s, x)[j]
    decreases |s|
  {
    if s[0] == x {
      i', j' := i + 1, j + 1;
    } else if i > 0 {
      i', j' := WithoutSelects(s[1..], x, i - 1, j - 1);
      i', j' := i' + 1, j' + 1;
    } else {
      i' := 0;
      j' := WithoutSelectsOne(s[1..], x, j - 1);
      j' := j' + 1;
    }
  }

  lemma {:induction false} WithoutSelectsOne<T>(s: seq<T>, x: T, j: nat) returns (j': nat)
    requires j < |Without(s, x)|
    ensures j' < |s| && s[j'] == Without(s, x)[j]
    decreases |s|
  {
    if s[0] == x {
      j' := j + 1;
    } else if j > 0 {
      j' := WithoutSelectsOne(s[1..], x, j - 1);
      j' := j' + 1;
    } else {
      j' := 0;
    }
  }

  lemma {:induction false} ResidentIsAllocated(program: seq<Instr>, i: nat) returns (k: nat)
    requires i < |Residents(program)|
    ensures Allocates(program, k, Residents(program)[i])
    decreases |program|
  {
    var n := |program| - 1;
    match program[n]
    case Alloc(v, Lram, _) =>
      if i < |Residents(program[..n])| { k := ResidentIsAllocated(program[..n], i); } else { k := n; }
    case Dealloc(v, Lram) =>
      var i' := WithoutSelectsOne(Residents(program[..n]), v, i);
      k := ResidentIsAllocated(program[..n], i');
    case _ =>
      k := ResidentIsAllocated(program[..n], i);
  }

  /** Of two such buffers the one that comes first has been allocated before the other. */
  lemma {:induction false} ResidentsInOrder(program: seq<Instr>, i: nat, j: nat)
    requires i < j < |Residents(program)|
    ensures AllocatedBefore(program, Residents(program)[i], Residents(program)[j])
    decreases |program|
  {
    var n := |program| - 1;
    var before := program[..n];
    match program[n] {
      case Alloc(v, Lram, _) =>
        if j < |Residents(before)| {
          ResidentsInOrder(before, i, j);
        } else {
          var k := ResidentIsAllocated(before, i);
          assert Allocates(program, k, Residents(program)[i]) && Allocates(program, n, v);
        }
      case Dealloc(v, Lram) =>
        var i', j' := WithoutSelects(Residents(before), v, i, j);
        ResidentsInOrder(before, i', j');
      case _ =>
        ResidentsInOrder(before, i, j);
    }
    BeforeInPrefix(program, n, Residents(program)[i], Residents(program)[j]);
  }

  lemma BeforeInPrefix(program: seq<Instr>, n: nat, v: Value, w: Value)
    requires n <= |program|
    ensures AllocatedBefore(program[..n], v, w) ==> AllocatedBefore(program, v, w)
  {
    if k, l :| k < l && Allocates(program[..n], k, v) && Allocates(program[..n], l, w) {
      assert Allocates(program, k, v) && Allocates(program, l, w);
    }
  }

  /** A program that takes no name twice allocates no two buffers in both orders. */
  lemma {:induction false} DefinedIsNamed(program: seq<Instr>, k: nat)
    requires NamesAfter(program).Some? && k < |program| && program[k].Alloc?
    ensures program[k].v in NamesAfter(program).value.access
    decreases |program|
  {
    var n := |program| - 1;
    if k < n {
      DefinedIsNamed(program[..n], k);
    }
  }

  lemma {:induction false} AllocatedOnce(program: seq<Instr>, k: nat, l: nat, v: Value)
    requires NamesAfter(program).Some? && Allocates(program, k, v) && Allocates(program, l, v)
    ensures k == l
    decreases |program|
  {
    var n := |program| - 1;
    if k < n && l < n {
      AllocatedOnce(program[..n], k, l, v);
    } else if k < n {
      DefinedIsNamed(program[..n], k);
    } else if l < n {
      DefinedIsNamed(program[..n], l);
    }
  }

  lemma {:induction false} OneOrder(program: seq<Instr>, v: Value, w: Value)
    requires NamesAfter(program).Some? && AllocatedBefore(program, v, w)
    ensures !AllocatedBefore(program, w, v) && v != w
  {
    var k, l :| k < l && Allocates(program, k, v) && Allocates(program, l, w);
    forall k', l' | Allocates(program, k', w) && Allocates(program, l', v) ensures k' == l && l' == k {
      AllocatedOnce(program, k', l, w);
      AllocatedOnce(program, l', k, v);
    }
    if v == w { AllocatedOnce(program, k, l, v); }
  }
}
