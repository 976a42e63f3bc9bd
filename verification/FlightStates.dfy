/** The state changes of operations, starts and waits: the operands are replaced by their physical values. */
module FlightStates {
  import opened Basics
  import opened Ir
  import opened Replays
  import opened Refinement
  import opened AllocationOrders
  import opened ValueSizes
  import opened MemoryStates
  import opened SwapStates
  import opened AliasStates
  import opened StepStates
  import opened PinStates

  function OperandsOf(o: Instr): seq<Value> {
    match o
    case Op(_, operands) => operands
    case Start(_, operands) => operands
    case _ => []
  }

  function WithOperands(o: Instr, operands: seq<Value>): Instr {
    match o
    case Op(tag, _) => Op(tag, operands)
    case Start(inv, _) => Start(inv, operands)
    case _ => o
  }

  /** The physical values stand for the operands. */
  ghost predicate OperandsAre(m: Memory, operands: seq<Value>, physical: seq<Value>) {
    && |operands| == |physical|
    && forall i :: 0 <= i < |operands| ==> OperandIs(m, operands[i], physical[i])
  }

  ghost predicate OperandIs(m: Memory, v: Value, p: Value) {
    v in m.size && Sees(m, v) && PhysicalValue(m, v) == p
  }

  lemma OperandMatches(m: Memory, v: Value, p: Value)
    requires InvNames(m) && InvHome(m) && m.physicalBuffers.Keys <= m.now.source.live.Keys && OperandIs(m, v, p)
    ensures v in m.now.source.access && m.now.source.access[v].root in m.now.source.live
    ensures p in m.now.target.access && m.now.target.access[p].root in m.now.target.live
    ensures SamePart(m.now, m.now.source.access[v], m.now.target.access[p])
  {
    assert NameAt(m, v);
    assert HomeAt(m, m.root[v]);
  }

  lemma OperandsMatch(m: Memory, operands: seq<Value>, physical: seq<Value>)
    requires InvNames(m) && InvHome(m) && m.physicalBuffers.Keys <= m.now.source.live.Keys
    requires OperandsAre(m, operands, physical)
    ensures SameOperands(m.now, operands, physical)
  {
    forall i | 0 <= i < |operands|
      ensures operands[i] in m.now.source.access && m.now.source.access[operands[i]].root in m.now.source.live
      ensures physical[i] in m.now.target.access && m.now.target.access[physical[i]].root in m.now.target.live
      ensures SamePart(m.now, m.now.source.access[operands[i]], m.now.target.access[physical[i]])
    {
      OperandMatches(m, operands[i], physical[i]);
    }
  }

  /** `n` differs from `m` in the program, the progress and the programs in flight only. */
  ghost predicate SameBuffers(m: Memory, n: Memory) {
    && n == m.(out := n.out, trace := n.trace, now := n.now, flights := n.flights,
               invocationToVirtual := n.invocationToVirtual)
    && n.now.source.access == m.now.source.access && n.now.source.live == m.now.source.live
    && n.now.target.access == m.now.target.access && n.now.target.live == m.now.target.live
    && n.now.home == m.now.home
  }

  lemma NamesSame(m: Memory, n: Memory)
    requires InvTree(m) && InvNames(m) && SameBuffers(m, n)
    ensures InvTree(n) && InvNames(n)
  {
    TreeFrame(m, n);
    forall v | v in n.size ensures NameAt(n, v) {
      assert NameAt(m, v);
    }
  }

  lemma HomesSame(m: Memory, n: Memory)
    requires InvHome(m) && InvAlias(m) && SameBuffers(m, n)
    ensures InvHome(n) && InvAlias(n)
  {
    forall b | b in n.now.source.live ensures HomeAt(n, b) {
      assert HomeAt(m, b);
    }
    forall a | a in n.maybePhysicalAlias ensures AliasAt(n, a) {
      assert AliasAt(m, a);
    }
  }

  lemma BuffersSame(m: Memory, n: Memory)
    requires InvPhysical(m) && InvPins(m) && SameBuffers(m, n) && m.pinCount.Keys == m.size.Keys
    ensures InvPhysical(n) && InvPins(n)
  {
    PhysicalFrame(m, n);
    PinsFrame(m, n);
  }

  /** The current instruction with its operands replaced, for an operation, a start or a wait. */
  ghost function Executed(m: Memory, o: Instr, physical: seq<Value>): Memory
    requires StepNames(m.now.source, o).Some? && StepNames(m.now.target, WithOperands(o, physical)).Some?
  {
    var e := WithOperands(o, physical);
    var now := Advanced(m, o, e, m.now.home);
    m.(out := m.out + [e], trace := m.trace + [now], now := now)
  }

  ghost function Started(m: Memory, o: Instr, physical: seq<Value>, tokens: seq<nat>): Memory
    requires o.Start? && StepNames(m.now.source, o).Some? && StepNames(m.now.target, WithOperands(o, physical)).Some?
  {
    Executed(m, o, physical).(
      invocationToVirtual := m.invocationToVirtual[o.inv := o.operands],
      flights := m.flights[o.inv := tokens])
  }

  ghost function Waited(m: Memory, o: Instr): Memory
    requires o.Wait? && StepNames(m.now.source, o).Some? && StepNames(m.now.target, WithOperands(o, [])).Some?
  {
    Executed(m, o, []).(
      invocationToVirtual := m.invocationToVirtual - {o.inv},
      flights := m.flights - {o.inv})
  }

  ghost predicate CanExecute(m: Memory, o: Instr, physical: seq<Value>) {
    && Inv(m) && AtStep(m, o) && (o.Op? || o.Start? || o.Wait?)
    && OperandsAre(m, OperandsOf(o), physical)
  }

  lemma ExecuteSteps(m: Memory, o: Instr, physical: seq<Value>)
    requires CanExecute(m, o, physical)
    ensures StepNames(m.now.target, WithOperands(o, physical)).Some?
    ensures !o.Wait? ==> SameOperands(m.now, OperandsOf(o), physical)
  {
    OperandsMatch(m, OperandsOf(o), physical);
  }

  lemma ExecuteTranslates(m: Memory, o: Instr, physical: seq<Value>)
    requires AtStep(m, o) && (o.Op? || o.Start? || o.Wait?) && StepNames(m.now.target, WithOperands(o, physical)).Some?
    requires !o.Wait? ==> SameOperands(m.now, OperandsOf(o), physical)
    ensures Translated(m.now, o, WithOperands(o, physical), Executed(m, o, physical).now)
  {}

  lemma ExecuteTrace(m: Memory, o: Instr, physical: seq<Value>)
    requires CanExecute(m, o, physical) && StepNames(m.now.target, WithOperands(o, physical)).Some?
    requires !o.Wait? ==> SameOperands(m.now, OperandsOf(o), physical)
    ensures InvTrace(Executed(m, o, physical)) && SameBuffers(m, Executed(m, o, physical))
  {
    ExecuteTranslates(m, o, physical);
    StepTrace(m, Executed(m, o, physical), o, WithOperands(o, physical));
    ExecuteNames(m.now.source, o);
    ExecuteNames(m.now.target, WithOperands(o, physical));
    hide StepNames;
    hide Inv;
    hide InvTrace;
    hide OperandsAre;
    hide SameOperands;
    hide Translated;
  }

  /** Operations, starts and waits define no names and free no buffers. */
  lemma ExecuteNames(n: Names, e: Instr)
    requires (e.Op? || e.Start? || e.Wait?) && StepNames(n, e).Some?
    ensures StepNames(n, e).value.access == n.access && StepNames(n, e).value.live == n.live
  {}

  lemma ExecuteReplay(m: Memory, o: Instr, physical: seq<Value>)
    requires InvReplay(m) && (o.Op? || o.Start? || o.Wait?)
    requires StepNames(m.now.source, o).Some? && StepNames(m.now.target, WithOperands(o, physical)).Some?
    ensures InvReplay(Executed(m, o, physical))
  {
    ReplayOneMore(m.pool.geo, m.out, WithOperands(o, physical));
  }

  lemma ExecuteOrder(m: Memory, o: Instr, physical: seq<Value>)
    requires InvOrder(m) && (o.Op? || o.Start? || o.Wait?)
    requires StepNames(m.now.source, o).Some? && StepNames(m.now.target, WithOperands(o, physical)).Some?
    ensures InvOrder(Executed(m, o, physical))
  {
    hide StepNames;
    hide Residents;
    ResidentsNext(m.out, WithOperands(o, physical));
  }

  lemma ExecuteCode(m: Memory, o: Instr, physical: seq<Value>)
    requires AtStep(m, o) && (o.Op? || o.Start? || o.Wait?)
    requires StepNames(m.now.source, o).Some? && StepNames(m.now.target, WithOperands(o, physical)).Some?
    ensures var n := Executed(m, o, physical);
            && n.out == m.out + [WithOperands(o, physical)] && n.size == m.size
            && n.original == m.original && n.now.pos == m.now.pos + 1
            && m.original[..n.now.pos] == m.original[..m.now.pos] + [o]
            && n.now.home == m.now.home && n.maybePhysicalAlias == m.maybePhysicalAlias
            && n.now.target.live == m.now.target.live && n.now.target.access == m.now.target.access
  {
    ExecuteNames(m.now.target, WithOperands(o, physical));
    hide StepNames;
  }

  /** The value that stands for an operand is as large. */
  lemma OperandSize(m: Memory, v: Value, p: Value)
    requires InvTree(m) && InvHome(m) && InvPhysical(m) && InvSizes(m) && OperandIs(m, v, p)
    ensures SizedAs(m, p, v)
  {
    assert TreeAt(m, v);
    hide SizesAfter;
    hide CopiesFit;
    hide OperandSizes;
    if v in m.parent {
      assert SizedAs(m, m.maybePhysicalAlias[v], v);
    } else {
      assert v in m.chain[v] && m.IsResident(v);
      assert HomeAt(m, v) && ResidentAt(m, v);
      assert SizedAs(m, m.now.home[v], v);
    }
  }

  lemma ExecuteSizes(m: Memory, o: Instr, physical: seq<Value>)
    requires InvTree(m) && InvHome(m) && InvPhysical(m) && InvSizes(m) && OperandsAre(m, OperandsOf(o), physical)
    ensures SizesOfAll(SizesAfter(m.out), physical) == SizesOfAll(m.size, OperandsOf(o))
  {
    hide InvTree;
    hide InvHome;
    hide InvPhysical;
    hide InvSizes;
    hide SizesAfter;
    hide OperandIs;
    var operands := OperandsOf(o);
    forall i | 0 <= i < |operands| ensures SizeIn(SizesAfter(m.out), physical[i]) == SizeIn(m.size, operands[i]) {
      OperandSize(m, operands[i], physical[i]);
    }
  }

  lemma ExecuteStock(m: Memory, o: Instr, physical: seq<Value>)
    requires CanExecute(m, o, physical)
    requires StepNames(m.now.source, o).Some? && StepNames(m.now.target, WithOperands(o, physical)).Some?
    ensures InvStock(Executed(m, o, physical))
  {
    assert InvTree(m) && InvHome(m) && InvPhysical(m) && InvStock(m);
    hide Inv;
    hide InvTree;
    hide InvHome;
    hide InvPhysical;
    hide OperandsAre;
    hide Executed;
    hide StepNames;
    hide InvOrder;
    hide InvClean;
    hide InvSizes;
    ExecuteSizes(m, o, physical);
    ExecuteOrder(m, o, physical);
    ExecuteCode(m, o, physical);
    SizesOfUse(m, Executed(m, o, physical), o, physical);
    CleanSame(m, Executed(m, o, physical));
  }

  lemma SizesOfUse(m: Memory, n: Memory, o: Instr, physical: seq<Value>)
    requires InvSizes(m) && (o.Op? || o.Start? || o.Wait?)
    requires SizesOfAll(SizesAfter(m.out), physical) == SizesOfAll(m.size, OperandsOf(o))
    requires n.out == m.out + [WithOperands(o, physical)] && n.size == m.size && n.original == m.original
    requires n.now.pos == m.now.pos + 1 <= |m.original| && m.original[..n.now.pos] == m.original[..m.now.pos] + [o]
    requires n.now.home == m.now.home && n.maybePhysicalAlias == m.maybePhysicalAlias
    requires n.now.target.access == m.now.target.access
    ensures InvSizes(n)
  {
    hide SizesAfter;
    hide CopiesFit;
    hide OperandSizes;
    hide SizesOfAll;
    StepSizes(m.out, WithOperands(o, physical));
    StepSizes(m.original[..m.now.pos], o);
    SizesGrow(m, n);
  }

  /** Everything but the programs in flight. */
  ghost predicate InvBuffers(m: Memory) {
    InvStatic(m) && InvPins(m)
  }

  lemma ExecuteBuffers(m: Memory, n: Memory)
    requires Inv(m) && SameBuffers(m, n) && InvCode(n)
    ensures InvBuffers(n)
  {
    NamesSame(m, n);
    HomesSame(m, n);
    BuffersSame(m, n);
  }

  /** The code, its certificate, its replay and what it has in stock after one more instruction. */
  ghost predicate InvCode(m: Memory) {
    true == (InvTrace(m) && InvReplay(m) && InvStock(m))
  }

  lemma ExecuteKeepsCode(m: Memory, o: Instr, physical: seq<Value>)
    requires CanExecute(m, o, physical)
    ensures StepNames(m.now.source, o).Some? && StepNames(m.now.target, WithOperands(o, physical)).Some?
    ensures InvCode(Executed(m, o, physical)) && SameBuffers(m, Executed(m, o, physical))
  {
    assert InvReplay(m);
    hide Inv;
    hide OperandsAre;
    hide InvTrace;
    hide InvReplay;
    hide InvStock;
    ExecuteSteps(m, o, physical);
    ExecuteTrace(m, o, physical);
    hide SameOperands;
    ExecuteReplay(m, o, physical);
    ExecuteStock(m, o, physical);
    hide Executed;
    hide StepNames;
  }

  /** The programs in flight do not matter to the code. */
  lemma CodeFrame(e: Memory, n: Memory)
    requires InvCode(e) && n == e.(invocationToVirtual := n.invocationToVirtual, flights := n.flights)
    ensures InvCode(n)
  {
    hide SizesAfter;
    hide CopiesFit;
    hide OperandSizes;
    hide Residents;
    hide Certified;
    hide Matched;
    CleanSame(e, n);
    forall x, v | SizedAs(e, x, v) ensures SizedAs(n, x, v) {}
  }

  lemma WholeInv(n: Memory)
    requires InvBuffers(n) && InvFlights(n)
    ensures Inv(n)
  {}

  lemma FlightsOfInv(m: Memory)
    requires Inv(m)
    ensures InvFlights(m)
  {}

  lemma OpParts(m: Memory, o: Instr, physical: seq<Value>)
    requires o.Op? && StepNames(m.now.source, o).Some? && StepNames(m.now.target, WithOperands(o, physical)).Some?
    ensures var n := Executed(m, o, physical);
            && n.held == m.held && n.flights == m.flights && n.invocationToVirtual == m.invocationToVirtual
            && n.now.source == StepNames(m.now.source, o).value
  {
    hide StepNames;
  }

  lemma OpKeepsFlying(n: Names, o: Instr)
    requires o.Op? && StepNames(n, o).Some?
    ensures StepNames(n, o).value == n
  {}

  lemma OpFlights(m: Memory, o: Instr, physical: seq<Value>)
    requires Inv(m) && AtStep(m, o) && o.Op? && StepNames(m.now.target, WithOperands(o, physical)).Some?
    ensures InvFlights(Executed(m, o, physical))
  {
    FlightsOfInv(m);
    OpKeepsFlying(m.now.source, o);
    OpParts(m, o, physical);
    hide *;
    FlightsFrame(m, Executed(m, o, physical));
  }

  lemma StartFacts(m: Memory, o: Instr, physical: seq<Value>, tokens: seq<nat>)
    requires AtStep(m, o) && o.Start? && StepNames(m.now.target, WithOperands(o, physical)).Some?
    requires SameBuffers(m, Executed(m, o, physical))
    ensures StepNames(m.now.source, o).Some?
    ensures var e, n := Executed(m, o, physical), Started(m, o, physical, tokens);
            n == e.(invocationToVirtual := n.invocationToVirtual, flights := n.flights) && SameBuffers(m, n)
  {
    hide StepNames;
  }

  lemma WaitFacts(m: Memory, o: Instr)
    requires AtStep(m, o) && o.Wait? && StepNames(m.now.target, WithOperands(o, [])).Some?
    requires SameBuffers(m, Executed(m, o, []))
    ensures StepNames(m.now.source, o).Some?
    ensures var e, n := Executed(m, o, []), Waited(m, o);
            n == e.(invocationToVirtual := n.invocationToVirtual, flights := n.flights) && SameBuffers(m, n)
  {
    hide StepNames;
  }

  /** An operation on resident operands keeps the invariant. */
  lemma OpKeepsInv(m: Memory, o: Instr, physical: seq<Value>)
    requires CanExecute(m, o, physical) && o.Op?
    ensures StepNames(m.now.target, WithOperands(o, physical)).Some? && Inv(Executed(m, o, physical))
  {
    ExecuteKeepsCode(m, o, physical);
    ExecuteBuffers(m, Executed(m, o, physical));
    hide InvCode;
    hide InvBuffers;
    OpFlights(m, o, physical);
    WholeInv(Executed(m, o, physical));
  }

  /** The pins `tokens` are on the operands, pairwise distinct and held by no program in flight. */
  ghost predicate TokensFor(m: Memory, operands: seq<Value>, tokens: seq<nat>) {
    && |tokens| == |operands|
    && (forall i :: 0 <= i < |tokens| ==> FreePin(m, tokens[i]) && m.held[tokens[i]] == operands[i])
    && NoDuplicates(tokens)
  }

  lemma StartFlights(m: Memory, o: Instr, physical: seq<Value>, tokens: seq<nat>)
    requires InvFlights(m) && o.Start? && StepNames(m.now.source, o).Some?
    requires StepNames(m.now.target, WithOperands(o, physical)).Some?
    requires TokensFor(m, o.operands, tokens)
    ensures InvFlights(Started(m, o, physical, tokens))
  {
    var n := Started(m, o, physical, tokens);
    StartedFlights(m, o, physical, tokens);
    hide Started;
    hide StepNames;
    hide AccessesOf;
    forall inv, i | inv in n.now.source.inflight && 0 <= i < |n.now.source.inflight[inv]| ensures FlightAt(n, inv, i) {
      if inv == o.inv {
        assert FreePin(m, tokens[i]);
      } else {
        assert FlightAt(m, inv, i);
      }
    }
    OwnTokens(m, n, o.inv, o.operands, tokens);
    hide TokensFor;
    hide FlightAt;
    hide Same;
  }

  lemma StartedFlights(m: Memory, o: Instr, physical: seq<Value>, tokens: seq<nat>)
    requires o.Start? && StepNames(m.now.source, o).Some?
    requires StepNames(m.now.target, WithOperands(o, physical)).Some?
    ensures var n := Started(m, o, physical, tokens);
            && n.flights == m.flights[o.inv := tokens] && n.invocationToVirtual == m.invocationToVirtual[o.inv := o.operands]
            && n.now.source.inflight == m.now.source.inflight[o.inv := AccessesOf(m.now.source, o.operands)]
            && n.now.source.access == m.now.source.access && n.held == m.held
    ensures Reachable(m.now.source, o.operands) && o.inv !in m.now.source.inflight
  {}

  /** No pin is held by two programs in flight. */
  lemma OwnTokens(m: Memory, n: Memory, done: Invocation, operands: seq<Value>, tokens: seq<nat>)
    requires InvFlights(m) && TokensFor(m, operands, tokens) && done !in m.flights
    requires n.flights == m.flights[done := tokens]
    ensures forall inv, i, inv', i' :: Same(n.flights, inv, i, inv', i') ==> inv == inv' && i == i'
  {
    forall x: nat, inv, i: nat | x < |tokens| && inv in m.flights && i < |m.flights[inv]|
        ensures m.flights[inv][i] != tokens[x] {
      assert FreePin(m, tokens[x]);
    }
    forall inv, i: nat, inv', i': nat | Same(n.flights, inv, i, inv', i') ensures inv == inv' && i == i' {
      assert inv != done && inv' != done ==> Same(m.flights, inv, i, inv', i');
    }
  }

  /** Starting a program on resident operands keeps the invariant; the pins on the operands go with it. */
  lemma StartKeepsInv(m: Memory, o: Instr, physical: seq<Value>, tokens: seq<nat>)
    requires CanExecute(m, o, physical) && o.Start? && TokensFor(m, o.operands, tokens)
    ensures StepNames(m.now.target, WithOperands(o, physical)).Some? && Inv(Started(m, o, physical, tokens))
  {
    hide Inv;
    hide OperandsAre;
    hide AtStep;
    ExecuteKeepsCode(m, o, physical);
    StartFacts(m, o, physical, tokens);
    CodeFrame(Executed(m, o, physical), Started(m, o, physical, tokens));
    hide InvCode;
    hide InvBuffers;
    hide Started;
    ExecuteBuffers(m, Started(m, o, physical, tokens));
    FlightsOfInv(m);
    StartFlights(m, o, physical, tokens);
    WholeInv(Started(m, o, physical, tokens));
  }

  lemma WaitFlights(m: Memory, o: Instr)
    requires InvFlights(m) && o.Wait? && StepNames(m.now.source, o).Some?
    requires StepNames(m.now.target, WithOperands(o, [])).Some?
    ensures InvFlights(Waited(m, o))
    ensures o.inv in m.flights && forall i :: 0 <= i < |m.flights[o.inv]| ==> FreePin(Waited(m, o), m.flights[o.inv][i])
  {
    var n := Waited(m, o);
    forall inv, i | inv in n.now.source.inflight && 0 <= i < |n.now.source.inflight[inv]| ensures FlightAt(n, inv, i) {
      assert FlightAt(m, inv, i);
    }
    forall inv, i, inv', i' | Same(n.flights, inv, i, inv', i') ensures inv == inv' && i == i' {
      assert Same(m.flights, inv, i, inv', i');
    }
    var done := o.inv;
    forall j | 0 <= j < |m.flights[done]| ensures FreePin(n, m.flights[done][j]) {
      assert FlightAt(m, done, j);
      forall inv, i | inv in n.flights && 0 <= i < |n.flights[inv]| ensures n.flights[inv][i] != m.flights[done][j] {
        assert !Same(m.flights, inv, i, done, j);
      }
    }
  }

  /** Waiting for a program keeps the invariant; its pins become free to give up. */
  lemma WaitKeepsInv(m: Memory, o: Instr)
    requires CanExecute(m, o, []) && o.Wait?
    ensures StepNames(m.now.target, WithOperands(o, [])).Some? && Inv(Waited(m, o))
    ensures o.inv in m.flights && forall i :: 0 <= i < |m.flights[o.inv]| ==> FreePin(Waited(m, o), m.flights[o.inv][i])
  {
    hide Inv;
    hide OperandsAre;
    hide AtStep;
    ExecuteKeepsCode(m, o, []);
    WaitFacts(m, o);
    CodeFrame(Executed(m, o, []), Waited(m, o));
    hide InvCode;
    hide InvBuffers;
    hide Waited;
    ExecuteBuffers(m, Waited(m, o));
    FlightsOfInv(m);
    WaitFlights(m, o);
    WholeInv(Waited(m, o));
  }
}
