/** The sizes of the values of a program, and where the program depends on them. */
module ValueSizes {
  import opened Basics
  import opened Ir

  /** The size of every value a program has defined, from its allocation or alias. */
  function SizesAfter(program: seq<Instr>): map<Value, nat> {
    if program == [] then map[]
    else
      var before := SizesAfter(program[..|program| - 1]);
      match program[|program| - 1]
      case Alloc(v, _, bytes) => before[v := bytes]
      case Alias(v, _, _, bytes) => before[v := bytes]
      case _ => before
  }

  lemma {:induction false} SizesNext(program: seq<Instr>, e: Instr)
    ensures SizesAfter(program + [e]) ==
            match e
            case Alloc(v, _, bytes) => SizesAfter(program)[v := bytes]
            case Alias(v, _, _, bytes) => SizesAfter(program)[v := bytes]
            case _ => SizesAfter(program)
  {
    assert (program + [e])[..|program|] == program;
  }

  /** The buffers of a copy are of the same size. */
  ghost predicate CopyFits(sizes: map<Value, nat>, e: Instr) {
    e.Copy? ==> e.dst in sizes && e.src in sizes && sizes[e.dst] == sizes[e.src]
  }

  ghost predicate CopiesFit(program: seq<Instr>) {
    program == [] || (CopiesFit(program[..|program| - 1])
                      && CopyFits(SizesAfter(program[..|program| - 1]), program[|program| - 1]))
  }

  lemma {:induction false} CopiesNext(program: seq<Instr>, e: Instr)
    ensures CopiesFit(program + [e]) <==> CopiesFit(program) && CopyFits(SizesAfter(program), e)
  {
    assert (program + [e])[..|program|] == program;
  }

  ghost function SizeIn(sizes: map<Value, nat>, v: Value): Option<nat> {
    if v in sizes then Some(sizes[v]) else None
  }

  ghost function SizesOfAll(sizes: map<Value, nat>, values: seq<Value>): (r: seq<Option<nat>>)
    ensures |r| == |values|
  {
    seq(|values|, i requires 0 <= i < |values| => SizeIn(sizes, values[i]))
  }

  /** The sizes of the operands of every operation and start, in order. */
  ghost function OperandSizes(program: seq<Instr>): seq<seq<Option<nat>>> {
    if program == [] then []
    else
      var before := program[..|program| - 1];
      OperandSizes(before) +
      match program[|program| - 1]
      case Op(_, operands) => [SizesOfAll(SizesAfter(before), operands)]
      case Start(_, operands) => [SizesOfAll(SizesAfter(before), operands)]
      case _ => []
  }

  lemma {:induction false} OperandsNext(program: seq<Instr>, e: Instr)
    ensures OperandSizes(program + [e]) ==
            OperandSizes(program) +
            match e
            case Op(_, operands) => [SizesOfAll(SizesAfter(program), operands)]
            case Start(_, operands) => [SizesOfAll(SizesAfter(program), operands)]
            case _ => []
  {
    assert (program + [e])[..|program|] == program;
  }

  /** Allocating `x`, copying `from` there and freeing `from`. */
  lemma {:induction false} MoveSizes(program: seq<Instr>, x: Value, space: Space, bytes: nat, from: Value, other: Space)
    requires CopiesFit(program) && from in SizesAfter(program) && SizesAfter(program)[from] == bytes
    ensures var code := program + [Alloc(x, space, bytes)] + [Copy(x, from)] + [Dealloc(from, other)];
            SizesAfter(code) == SizesAfter(program)[x := bytes] && CopiesFit(code)
                && OperandSizes(code) == OperandSizes(program)
  {
    var one := program + [Alloc(x, space, bytes)];
    var two := one + [Copy(x, from)];
    SizesNext(program, Alloc(x, space, bytes));
    SizesNext(one, Copy(x, from));
    SizesNext(two, Dealloc(from, other));
    CopiesNext(program, Alloc(x, space, bytes));
    CopiesNext(one, Copy(x, from));
    CopiesNext(two, Dealloc(from, other));
    OperandsNext(program, Alloc(x, space, bytes));
    OperandsNext(one, Copy(x, from));
    OperandsNext(two, Dealloc(from, other));
    hide SizesAfter;
    hide CopiesFit;
    hide OperandSizes;
  }

  /** One more instruction that is not a copy. */
  lemma {:induction false} StepSizes(program: seq<Instr>, e: Instr)
    requires !e.Copy?
    ensures CopiesFit(program + [e]) <==> CopiesFit(program)
    ensures SizesAfter(program + [e]) ==
            if e.Alloc? then SizesAfter(program)[e.v := e.bytes] else if e.Alias? then SizesAfter(program)[e.v := e.bytes]
            else SizesAfter(program)
    ensures OperandSizes(program + [e]) ==
            if e.Op? || e.Start? then OperandSizes(program) + [SizesOfAll(SizesAfter(program), e.operands)]
            else OperandSizes(program)
  {
    SizesNext(program, e);
    CopiesNext(program, e);
    OperandsNext(program, e);
  }
}
