/** Programs that fit in the memory as they are: the conversion leaves them alone. */
module Fittings {
  import opened Basics
  import opened Ir
  import opened Pools
  import opened Replays
  import opened MemoryStates
  import opened SwapStates
  import opened AliasStates
  import opened PinStates
  import opened StepStates
  import opened BufferStates
  import opened FlightStates
  import opened Evictions
  import opened Progresses

  ghost predicate InPlace(m: Memory, v: Value) {
    HasPhysical(m, v) && PhysicalValue(m, v) == v
  }

  /** The code so far is the original program so far, and every object is where it was first put. */
  ghost predicate Untouched(m: Memory) {
    true == (
      && m.now.pos <= |m.original| && m.out == m.original[..m.now.pos]
      && forall v {:trigger InPlace(m, v)} :: v in m.size ==> InPlace(m, v))
  }

  /** Nothing has been moved, and the pool has a place for the next instruction. */
  ghost predicate FitsAsIs(m: Memory, o: Instr) {
    true == (
      && Untouched(m)
      && (o.Alloc? ==>
            && m.pool.geo.Valid() && o.bytes + m.pool.UsedBytes() <= m.pool.geo.UsableBytes()
            && Placement(m.pool, o.bytes).Some?))
  }

  lemma PinsKeepUntouched(m: Memory, n: Memory)
    requires SameButPins(m, n)
    ensures Untouched(m) ==> Untouched(n)
    ensures forall v :: HasPhysical(n, v) <==> HasPhysical(m, v)
    ensures n.pool == m.pool && n.original == m.original && n.now == m.now && n.lastUsed == m.lastUsed
  {
    if Untouched(m) {
      forall v | v in n.size ensures InPlace(n, v) {
        assert InPlace(m, v);
      }
    }
  }

  lemma PinsSame(m: Memory, n: Memory)
    requires SameButPins(m, n)
    ensures forall o :: FitsAsIs(m, o) ==> FitsAsIs(n, o)
  {
    PinsKeepUntouched(m, n);
    hide Untouched;
  }

  lemma NewPinsAreJustPins(m: Memory, values: seq<Value>, tokens: seq<nat>, n: Memory)
    requires NewPins(m, values, tokens, n)
    ensures SameButPins(m, n) && forall v :: HasPhysical(n, v) <==> HasPhysical(m, v)
  {
    PinsKeepUntouched(m, n);
  }

  lemma ReleasedAreJustPins(m: Memory, tokens: seq<nat>, n: Memory)
    requires Released(m, tokens, n)
    ensures SameButPins(m, n)
  {}

  /** No space is needed where everything is in, and there is enough for a result that fits. */
  lemma NothingToEvict(m: Memory, space: nat)
    requires Inv(m) && space + m.pool.UsedBytes() <= m.pool.geo.UsableBytes()
    ensures FitsAfter(m, 0, space)
  {
    hide Inv;
  }

  lemma UsedFitsAlways(m: Memory)
    requires Inv(m)
    ensures m.pool.UsedBytes() <= m.pool.geo.UsableBytes()
  {
    hide InvHome;
    hide InvAlias;
    hide InvNames;
    hide InvPins;
    hide InvFlights;
    hide InvTrace;
    hide InvTree;
    hide InvReplay;
    UsedFits(m.pool);
  }

  lemma OperandsInPlace(m: Memory, operands: seq<Value>)
    requires Untouched(m) && AllLive(m, operands)
    ensures forall v :: v in operands ==> HasPhysical(m, v)
  {
    forall v | v in operands ensures HasPhysical(m, v) {
      var i :| 0 <= i < |operands| && operands[i] == v;
      assert HasLiveRoot(m, operands[i]);
      assert InPlace(m, v);
    }
  }

  /** Operands that are in place are replaced by themselves. */
  lemma OperandsUnchanged(m: Memory, operands: seq<Value>, physical: seq<Value>)
    requires Untouched(m) && OperandsAre(m, operands, physical)
    ensures physical == operands
  {
    forall i | 0 <= i < |operands| ensures physical[i] == operands[i] {
      assert OperandIs(m, operands[i], physical[i]);
      assert InPlace(m, operands[i]);
    }
  }

  lemma OneMore(m: Memory, n: Memory, o: Instr)
    requires Untouched(m) && AtStep(m, o)
    requires n.original == m.original && n.now.pos == m.now.pos + 1 && n.out == m.out + [o]
    ensures n.now.pos <= |n.original| && n.out == n.original[..n.now.pos]
  {
    assert m.original[..m.now.pos + 1] == m.original[..m.now.pos] + [o];
  }

  lemma ExecutedUntouched(m: Memory, o: Instr, physical: seq<Value>)
    requires Untouched(m) && AtStep(m, o) && OperandsAre(m, OperandsOf(o), physical)
    requires StepNames(m.now.source, o).Some? && StepNames(m.now.target, WithOperands(o, physical)).Some?
    ensures Untouched(Executed(m, o, physical))
  {
    OperandsUnchanged(m, OperandsOf(o), physical);
    var n := Executed(m, o, physical);
    OneMore(m, n, o);
    forall v | v in n.size ensures InPlace(n, v) {
      assert InPlace(m, v);
    }
  }

  /** Whatever a step does to programs in flight and pins, nothing moves. */
  lemma FlightsUntouched(m: Memory, n: Memory)
    requires Untouched(m) && n == m.(invocationToVirtual := n.invocationToVirtual, flights := n.flights)
    ensures Untouched(n)
  {
    forall v | v in n.size ensures InPlace(n, v) {
      assert InPlace(m, v);
    }
  }

  lemma AliasUntouched(m: Memory, o: Instr)
    requires Untouched(m) && AtStep(m, o) && o.Alias? && o.base in m.size && o.v !in m.size
    requires m.parent.Keys <= m.size.Keys
    requires o.base in m.children && o.base in m.chain && o.base in m.root && StepNames(m.now.target, o).Some?
    ensures Untouched(AliasAdded(m, o))
  {
    hide FoundAs;
    var n := AliasAdded(m, o);
    OneMore(m, n, o);
    assert InPlace(m, o.base);
    forall v | v in n.size ensures InPlace(n, v) {
      assert v != o.v ==> InPlace(m, v);
    }
  }

  lemma RemovalUntouched(m: Memory, o: Instr)
    requires Untouched(m) && AtStep(m, o) && Removable(m, o) && o.v in m.size && o.v !in m.parent
    ensures Untouched(BufferRemoved(m, o))
  {
    hide StepNames;
    assert InPlace(m, o.v);
    var n := BufferRemoved(m, o);
    assert Redirected(m, o.v) == o;
    OneMore(m, n, o);
    forall v | v in n.size ensures InPlace(n, v) {
      assert InPlace(m, v);
    }
  }

  lemma AdditionUntouched(m: Memory, o: Instr, base: nat)
    requires Untouched(m) && AtStep(m, o) && o.Alloc? && StepNames(m.now.target, o).Some? && m.pool.geo.wordBytes > 0
    requires o.v !in m.parent && o.v !in m.size
    ensures Untouched(BufferAdded(m, o, base))
  {
    hide StepNames;
    var n := BufferAdded(m, o, base);
    OneMore(m, n, o);
    forall v | v in n.size ensures InPlace(n, v) {
      assert v != o.v ==> InPlace(m, v);
    }
  }

  /** If the program can be replayed as it is, its next instruction fits. */
  lemma NextFits(m: Memory, o: Instr)
    requires Inv(m) && Untouched(m) && AtStep(m, o) && ReplayOf(m.pool.geo, m.original).Some?
    ensures FitsAsIs(m, o)
  {
    hide InvHome;
    hide InvAlias;
    hide InvNames;
    hide InvPins;
    hide InvFlights;
    hide InvTrace;
    hide InvTree;
    hide InvPhysical;
    var k := m.now.pos;
    assert m.original[..k + 1] == m.original[..k] + [o];
    ReplayPrefix(m.pool.geo, m.original, k + 1);
    ReplayOneMore(m.pool.geo, m.out, o);
  }

  // -------------------------------------------------------------------------
  // The same from the point of view of the code

  lemma NewBufferIsNew(m: Memory, o: Instr)
    requires Inv(m) && AtStep(m, o) && o.Alloc?
    ensures o.v !in m.size && o.v !in m.parent && StepNames(m.now.target, o).Some? && m.pool.geo.wordBytes > 0
  {
    BufferNameFacts(m, o);
  }

  lemma CanExecuteUntouched(m: Memory, o: Instr, physical: seq<Value>)
    requires CanExecute(m, o, physical) && Untouched(m)
    requires StepNames(m.now.source, o).Some? && StepNames(m.now.target, WithOperands(o, physical)).Some?
    ensures Untouched(Executed(m, o, physical))
  {
    hide Inv;
    ExecutedUntouched(m, o, physical);
  }

  /** Nothing has been moved, and results of the given size fit beside what is there. */
  ghost predicate FitsBeside(m: Memory, resultsSize: nat) {
    true == (Untouched(m) && resultsSize + m.pool.UsedBytes() <= m.pool.geo.UsableBytes())
  }

  lemma EasyToPrepare(
      m: Memory, s: Memory, pinned: seq<Value>, tokens: seq<nat>, swapInSize: nat, resultsSize: nat)
    requires Inv(s) && NewPins(m, pinned, tokens, s) && FitsBeside(m, resultsSize) && swapInSize == 0
    ensures FitsAfter(s, 0, swapInSize + resultsSize)
  {
    hide Inv;
    NothingToEvict(s, resultsSize);
  }

  lemma RoomWasThere(m: Memory, s: Memory, n: Memory, pinned: seq<Value>, tokens: seq<nat>)
    requires NewPins(m, pinned, tokens, s) && Released(s, tokens, n)
    ensures SameButPins(m, n)
  {}

  lemma PinnedIsJustPins(m: Memory, v: Value, t: nat, n: Memory)
    requires PinnedTo(m, v, t, n)
    ensures HasPhysical(n, v) <==> HasPhysical(m, v)
  {}

  lemma NoOperands(m: Memory)
    ensures OperandsAre(m, [], [])
  {}

  lemma WaitUntouched(m: Memory, o: Instr, e: Memory, s: Memory, tokens: seq<nat>, n: Memory)
    requires CanExecute(m, o, []) && o.Wait?
    requires StepNames(m.now.source, o).Some? && StepNames(m.now.target, WithOperands(o, [])).Some?
    requires e == Executed(m, o, [])
    requires s == e.(invocationToVirtual := s.invocationToVirtual, flights := s.flights)
    requires Released(s, tokens, n)
    ensures Untouched(m) ==> Untouched(n)
  {
    hide Inv;
    hide Untouched;
    if Untouched(m) {
      CanExecuteUntouched(m, o, []);
      FlightsUntouched(e, s);
      PinsKeepUntouched(s, n);
    }
  }

  lemma FitsParts(m: Memory, o: Instr)
    requires Inv(m)
    ensures FitsAsIs(m, o) ==>
              Untouched(m) && FitsBeside(m, if o.Alloc? then o.bytes else 0)
  {
    UsedFitsAlways(m);
  }

  lemma DeallocationUntouched(m: Memory, o: Instr)
    requires Inv(m) && FitsAsIs(m, o) && AtStep(m, o) && o.Dealloc? && Removable(m, o)
    ensures Untouched(BufferRemoved(m, o))
  {
    RemovalUntouched(m, o);
  }

  lemma NewAliasUntouched(m: Memory, o: Instr)
    requires Inv(m) && FitsAsIs(m, o) && AtStep(m, o) && o.Alias?
    requires o.base in m.size && o.base in m.children && o.base in m.chain && o.base in m.root
    requires StepNames(m.now.target, o).Some?
    ensures Untouched(AliasAdded(m, o))
  {
    AliasBaseFacts(m, o);
    AliasUntouched(m, o);
  }
}
