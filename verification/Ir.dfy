/** A straight-line IR over memory buffers, and its meaning.

    A program is a list of instructions over SSA values.  Its meaning has two layers:
    which values denote which part of which live buffer (`Names`, independent of any data),
    and what the buffers hold (`Data`).  A started program runs until its `Wait`:
    at any point in between it may access its operands, so a run is a list of events,
    each either the next instruction or one step of a program in flight. */
module Ir {
  import opened Basics

  type Invocation = nat
  type View = nat      // how a derived memref selects part of its base
  type Tag = nat       // what an operation does, and its operands outside the modelled memory

  datatype Space = Lram | Xram

  datatype Instr =
    | Alloc(v: Value, space: Space, bytes: nat)
    | Dealloc(v: Value, space: Space)
    | Alias(v: Value, base: Value, view: View, bytes: nat)
    | Op(tag: Tag, operands: seq<Value>)
    | Start(inv: Invocation, operands: seq<Value>)
    | Wait(inv: Invocation)
    | Copy(dst: Value, src: Value)  // load or store of a whole buffer

  // -------------------------------------------------------------------------
  // Names

  /** The part of buffer `root` that is reached by applying the views of `path` in order. */
  datatype Access = Access(root: Value, path: seq<View>)

  datatype Names = Names(
    access: map<Value, Access>,               // every value defined so far
    live: map<Value, Space>,                  // the buffers that are allocated
    inflight: map<Invocation, seq<Access>>)   // the operands of every program in flight

  const NO_NAMES := Names(map[], map[], map[])

  /** The operands are defined and denote live buffers. */
  predicate Reachable(n: Names, operands: seq<Value>) {
    forall i :: 0 <= i < |operands| ==> operands[i] in n.access && n.access[operands[i]].root in n.live
  }

  function AccessesOf(n: Names, operands: seq<Value>): seq<Access>
    requires Reachable(n, operands)
  {
    seq(|operands|, i requires 0 <= i < |operands| => n.access[operands[i]])
  }

  /** Some program in flight has an operand in buffer `b`. */
  predicate Busy(n: Names, b: Value) {
    exists inv :: inv in n.inflight && exists i :: 0 <= i < |n.inflight[inv]| && n.inflight[inv][i].root == b
  }

  /** None if the instruction is wrong: a value redefined, a dead or busy buffer freed,
      a dead buffer accessed, a program started twice or waited for without a start. */
  function StepNames(n: Names, i: Instr): Option<Names> {
    match i
    case Alloc(v, space, _) =>
      if v in n.access || v in n.live then None
      else Some(n.(access := n.access[v := Access(v, [])], live := n.live[v := space]))
    case Dealloc(v, space) =>
      if v in n.live && n.live[v] == space && !Busy(n, v) then Some(n.(live := n.live - {v})) else None
    case Alias(v, base, view, _) =>
      if v in n.access || v in n.live || base !in n.access then None
      else Some(n.(access := n.access[v := Access(n.access[base].root, n.access[base].path + [view])]))
    case Op(_, operands) =>
      if Reachable(n, operands) then Some(n) else None
    case Start(inv, operands) =>
      if Reachable(n, operands) && inv !in n.inflight
      then Some(n.(inflight := n.inflight[inv := AccessesOf(n, operands)])) else None
    case Wait(inv) =>
      if inv in n.inflight then Some(n.(inflight := n.inflight - {inv})) else None
    case Copy(dst, src) =>
      if dst in n.live && src in n.live then Some(n) else None
  }

  /** The names after a whole program; None if some instruction is wrong. */
  function NamesAfter(program: seq<Instr>): Option<Names> {
    if program == [] then Some(NO_NAMES) else
    match NamesAfter(program[..|program| - 1])
    case None => None
    case Some(n) => StepNames(n, program[|program| - 1])
  }

  lemma {:induction false} PrefixNames(program: seq<Instr>, k: nat)
    requires k <= |program| && NamesAfter(program).Some?
    ensures NamesAfter(program[..k]).Some?
    decreases |program|
  {
    if k == |program| {
      assert program[..k] == program;
    } else {
      PrefixNames(program[..|program| - 1], k);
      assert program[..|program| - 1][..k] == program[..k];
    }
  }

  lemma {:induction false} NextNames(program: seq<Instr>, k: nat)
    requires k < |program| && NamesAfter(program).Some?
    ensures NamesAfter(program[..k]).Some? && NamesAfter(program[..k + 1]).Some?
    ensures StepNames(NamesAfter(program[..k]).value, program[k]) == NamesAfter(program[..k + 1])
  {
    PrefixNames(program, k);
    PrefixNames(program, k + 1);
    assert program[..k + 1][..k] == program[..k];
  }

  /** Programs in flight only hold live buffers, and a live buffer is named by its own value. */
  ghost predicate Coherent(n: Names) {
    && (forall inv, i :: inv in n.inflight && 0 <= i < |n.inflight[inv]| ==> n.inflight[inv][i].root in n.live)
    && (forall v :: v in n.live ==> v in n.access && n.access[v] == Access(v, []))
  }

  lemma StepKeepsCoherent(n: Names, i: Instr)
    requires Coherent(n) && StepNames(n, i).Some?
    ensures Coherent(StepNames(n, i).value)
  {}

  // -------------------------------------------------------------------------
  // Contents

  /** What operations and views do, for any type of buffer contents `D` and any type `E` of
      everything outside the modelled buffers.  `run` reads all operands and then writes some of them. */
  datatype Kernel<!D, !E> = Kernel(
    run: (Tag, seq<D>, E) -> (seq<Option<D>>, E),
    read: (View, D) -> D,
    write: (View, D, D) -> D,
    initial: Value -> D)

  datatype Observation<D> = Observation(tag: Tag, inputs: seq<D>)

  datatype Data<D, E> = Data(mem: map<Value, D>, ext: E, log: seq<Observation<D>>)

  function ReadPath<D, E>(k: Kernel<D, E>, d: D, path: seq<View>): D {
    if path == [] then d else ReadPath(k, k.read(path[0], d), path[1..])
  }

  function WritePath<D, E>(k: Kernel<D, E>, d: D, path: seq<View>, x: D): D {
    if path == [] then x else k.write(path[0], d, WritePath(k, k.read(path[0], d), path[1..], x))
  }

  predicate Covers<D>(mem: map<Value, D>, accesses: seq<Access>) {
    forall i :: 0 <= i < |accesses| ==> accesses[i].root in mem
  }

  function Inputs<D, E>(k: Kernel<D, E>, accesses: seq<Access>, mem: map<Value, D>): seq<D>
    requires Covers(mem, accesses)
  {
    seq(|accesses|, i requires 0 <= i < |accesses| => ReadPath(k, mem[accesses[i].root], accesses[i].path))
  }

  /** Writes the outputs back in operand order. */
  function WriteAll<D, E>(
        k: Kernel<D, E>, accesses: seq<Access>, outputs: seq<Option<D>>, mem: map<Value, D>): (r: map<Value, D>)
    requires Covers(mem, accesses)
    ensures r.Keys == mem.Keys
    decreases |accesses|
  {
    if accesses == [] || outputs == [] then mem else
    var a := accesses[0];
    var mem' := if outputs[0].None? then mem
                else mem[a.root := WritePath(k, mem[a.root], a.path, outputs[0].value)];
    WriteAll(k, accesses[1..], outputs[1..], mem')
  }

  function Apply<D, E>(k: Kernel<D, E>, tag: Tag, accesses: seq<Access>, d: Data<D, E>): (r: Data<D, E>)
    requires Covers(d.mem, accesses)
    ensures r.mem.Keys == d.mem.Keys
  {
    var inputs := Inputs(k, accesses, d.mem);
    var (outputs, ext) := k.run(tag, inputs, d.ext);
    Data(WriteAll(k, accesses, outputs, d.mem), ext, d.log + [Observation(tag, inputs)])
  }

  function Effect<D, E>(k: Kernel<D, E>, n: Names, i: Instr, d: Data<D, E>): (r: Data<D, E>)
    requires Coherent(n) && n.live.Keys == d.mem.Keys && StepNames(n, i).Some?
    ensures StepNames(n, i).value.live.Keys == r.mem.Keys
  {
    match i
    case Alloc(v, _, _) => d.(mem := d.mem[v := k.initial(v)])
    case Dealloc(v, _) => d.(mem := d.mem - {v})
    case Op(tag, operands) => Apply(k, tag, AccessesOf(n, operands), d)
    case Copy(dst, src) => d.(mem := d.mem[dst := d.mem[src]])
    case _ => d
  }

  // -------------------------------------------------------------------------
  // Runs

  datatype Event = Next | Inside(inv: Invocation, tag: Tag)

  datatype Config<D, E> = Config(pc: nat, names: Names, data: Data<D, E>) {
    ghost predicate Valid() {
      Coherent(names) && names.live.Keys == data.mem.Keys
    }
  }

  ghost function Fire<D, E>(k: Kernel<D, E>, program: seq<Instr>, c: Config<D, E>, e: Event): (r: Option<Config<D, E>>)
    requires c.Valid()
    ensures r.Some? ==> r.value.Valid()
  {
    match e
    case Next =>
      if c.pc < |program| && StepNames(c.names, program[c.pc]).Some? then
        StepKeepsCoherent(c.names, program[c.pc]);
        Some(Config(c.pc + 1, StepNames(c.names, program[c.pc]).value, Effect(k, c.names, program[c.pc], c.data)))
      else None
    case Inside(inv, tag) =>
      if inv in c.names.inflight then
        Some(c.(data := Apply(k, tag, c.names.inflight[inv], c.data)))
      else None
  }

  ghost function Initial<D, E>(ext: E): (c: Config<D, E>)
    ensures c.Valid()
  {
    Config(0, NO_NAMES, Data(map[], ext, []))
  }

  /** The configuration a run reaches; None if some event is impossible. */
  ghost function Run<D, E>(k: Kernel<D, E>, program: seq<Instr>, ext: E, events: seq<Event>): (r: Option<Config<D, E>>)
    ensures r.Some? ==> r.value.Valid()
    decreases |events|
  {
    if events == [] then Some(Initial(ext)) else
    match Run(k, program, ext, events[..|events| - 1])
    case None => None
    case Some(c) => Fire(k, program, c, events[|events| - 1])
  }
}
