/** How far the processing of one instruction has come: which pins it holds, what it may not have changed. */
module Progresses {
  import opened Basics
  import opened Ir
  import opened Pools
  import opened Replays
  import opened Refinement
  import opened MemoryStates
  import opened SwapStates
  import opened AliasStates
  import opened PinStates
  import opened StepStates
  import opened BufferStates
  import opened FlightStates
  import opened Evictions

  /** Between `m` and `s` no original instruction was done and no program was started or finished. */
  ghost predicate Along(m: Memory, s: Memory) {
    true == (
      && s.original == m.original && s.firstFresh == m.firstFresh && s.pool.geo == m.pool.geo
      && s.size == m.size && s.parent == m.parent && s.root == m.root
      && s.flights == m.flights && s.invocationToVirtual == m.invocationToVirtual
      && s.now.pos == m.now.pos && s.now.source == m.now.source)
  }

  lemma AlongSteady(m: Memory, s: Memory, n: Memory)
    requires Along(m, s) && Steady(s, n)
    ensures Along(m, n) && n.held == s.held
  {}

  lemma AlongPins(m: Memory, s: Memory, n: Memory)
    requires Along(m, s) && SameButPins(s, n)
    ensures Along(m, n)
  {}

  ghost predicate AllLive(m: Memory, values: seq<Value>) {
    forall i :: 0 <= i < |values| ==> HasLiveRoot(m, values[i])
  }

  ghost predicate HasLiveRoot(m: Memory, v: Value) {
    v in m.size && v in m.root && m.root[v] in m.now.source.live
  }

  ghost predicate RootIsBacked(m: Memory, v: Value) {
    v in m.root && m.root[v] in m.physicalBuffers
  }

  ghost predicate PinnedTo(m: Memory, v: Value, t: nat, n: Memory) {
    true == (
      && v in m.chain && v in m.root && m.root[v] in m.pinCount && m.root[v] in m.size && m.root[v] in m.physicalBuffers
      && n == Pinned(m, v, t))
  }

  ghost predicate UnpinnedTo(m: Memory, t: nat, n: Memory) {
    true == (t in m.held && m.held[t] in m.chain && m.held[t] in m.root && n == Unpinned(m, t))
  }

  // -------------------------------------------------------------------------
  // Lists of pins

  ghost predicate NewPins(m: Memory, values: seq<Value>, tokens: seq<nat>, n: Memory) {
    true == (
      && SameButPins(m, n)
      && |tokens| == |values| && NoDuplicates(tokens)
      && (forall i :: 0 <= i < |tokens| ==> tokens[i] !in m.held && tokens[i] in n.held && n.held[tokens[i]] == values[i])
      && (forall t :: t in m.held ==> t in n.held && n.held[t] == m.held[t])
      && (forall t :: t in n.held ==> t in m.held || t in tokens))
  }

  lemma NoPins(m: Memory)
    ensures NewPins(m, [], [], m)
  {}

  lemma OneMorePin(m: Memory, values: seq<Value>, tokens: seq<nat>, s: Memory, v: Value, t: nat, n: Memory)
    requires NewPins(m, values, tokens, s) && t !in s.held && PinnedTo(s, v, t, n)
    ensures NewPins(m, values + [v], tokens + [t], n)
  {
    assert forall i :: 0 <= i < |tokens| ==> tokens[i] != t;
  }

  /** New pins are held by no program in flight. */
  lemma NewPinsAreFree(m: Memory, values: seq<Value>, tokens: seq<nat>, n: Memory)
    requires Inv(m) && NewPins(m, values, tokens, n)
    ensures TokensFor(n, values, tokens)
  {
    forall inv, i | inv in m.flights && 0 <= i < |m.flights[inv]| ensures m.flights[inv][i] in m.held {
      assert FlightAt(m, inv, i);
    }
  }

  lemma TokensSteady(m: Memory, n: Memory, values: seq<Value>, tokens: seq<nat>)
    requires TokensFor(m, values, tokens) && n.held == m.held && n.flights == m.flights
    ensures TokensFor(n, values, tokens)
  {}

  /** Pins `tokens` are given up; nothing else is. */
  ghost predicate Released(m: Memory, tokens: seq<nat>, n: Memory) {
    true == (
      && SameButPins(m, n)
      && (forall t :: t in n.held <==> t in m.held && t !in tokens)
      && (forall t :: t in n.held ==> n.held[t] == m.held[t]))
  }

  lemma ReleasedNone(m: Memory)
    ensures Released(m, [], m)
  {}

  lemma OneMoreReleased(m: Memory, tokens: seq<nat>, k: nat, s: Memory, n: Memory)
    requires k < |tokens| && Released(m, tokens[..k], s) && UnpinnedTo(s, tokens[k], n)
    ensures Released(m, tokens[..k + 1], n)
  {
    assert tokens[..k + 1] == tokens[..k] + [tokens[k]];
  }

  lemma NextIsFree(m: Memory, values: seq<Value>, tokens: seq<nat>, k: nat, s: Memory)
    requires TokensFor(m, values, tokens) && k < |tokens| && Released(m, tokens[..k], s)
    ensures FreePin(s, tokens[k]) && s.held[tokens[k]] == values[k]
  {
    assert tokens[k] !in tokens[..k];
  }

  /** Pinning a list and giving the pins up again leaves the pins as they were. */
  lemma BackToSettled(m: Memory, values: seq<Value>, tokens: seq<nat>, s: Memory, s': Memory, n: Memory)
    requires Settled(m) && NewPins(m, values, tokens, s) && s'.held == s.held && Released(s', tokens, n)
    requires n.flights == m.flights
    ensures Settled(n)
  {
    forall t | t in n.held ensures t in m.held {}
  }

  // -------------------------------------------------------------------------
  // One instruction done

  /** `n` is reached from `m` by doing the original instruction `o`. */
  ghost predicate StepDone(m: Memory, o: Instr, n: Memory) {
    true == (
      && n.original == m.original && n.firstFresh == m.firstFresh && n.pool.geo == m.pool.geo
      && n.now.pos == m.now.pos + 1 && StepNames(m.now.source, o) == Some(n.now.source))
  }

  lemma AtStepAlong(m: Memory, s: Memory, o: Instr)
    requires AtStep(m, o) && Along(m, s)
    ensures AtStep(s, o)
  {}

  /** Every operand of the next instruction is an object of a live buffer. */
  lemma OperandsAreLive(m: Memory, o: Instr)
    requires Inv(m) && AtStep(m, o)
    ensures AllLive(m, OperandsOf(o))
  {
    hide InvPhysical;
    hide InvHome;
    hide InvAlias;
    hide InvPins;
    hide InvFlights;
    forall i | 0 <= i < |OperandsOf(o)| ensures HasLiveRoot(m, OperandsOf(o)[i]) {
      assert NameAt(m, OperandsOf(o)[i]);
    }
  }

  lemma LiveAlong(m: Memory, s: Memory, v: Value)
    requires HasLiveRoot(m, v) && Along(m, s)
    ensures HasLiveRoot(s, v)
  {}

  lemma AlongItself(m: Memory)
    ensures Along(m, m)
  {}

  // -------------------------------------------------------------------------
  // Aliases

  lemma ParentFacts(m: Memory, v: Value)
    requires Inv(m) && HasLiveRoot(m, v) && v in m.parent
    ensures HasLiveRoot(m, m.parent[v]) && v in m.chain && m.parent[v] in m.chain && m.chain[m.parent[v]] < m.chain[v]
    ensures v in m.view
    ensures HasPhysical(m, m.parent[v]) ==> m.IsResident(m.parent[v])
  {
    hide InvHome;
    hide InvPins;
    hide InvFlights;
    assert TreeAt(m, v);
    assert TreeAt(m, m.parent[v]);
    if m.parent[v] !in m.parent { BufferOfChain(m, m.parent[v], m.parent[v]); }
  }

  lemma BufferIsOwnRoot(m: Memory, v: Value)
    requires Inv(m) && HasLiveRoot(m, v) && v !in m.parent
    ensures v in m.now.source.live && m.root[v] == v && (v in m.maybePhysicalBuffer <==> v in m.physicalBuffers)
  {
    hide InvHome;
    hide InvPins;
    hide InvFlights;
    assert TreeAt(m, v);
    BufferOfChain(m, v, v);
    if v in m.physicalBuffers { assert ResidentAt(m, v); }
  }

  lemma RenewIsSafe(m: Memory, a: Value)
    requires Inv(m) && HasLiveRoot(m, a) && a in m.parent && a in m.view && m.IsResident(m.parent[a])
    ensures Sees(m, m.parent[a]) && Inv(Renewed(m, a)) && Steady(m, Renewed(m, a)) && Renewed(m, a).held == m.held
  {
    hide Inv;
    ParentFacts(m, a);
    ResidentSees(m, m.parent[a]);
    RenewKeepsInv(m, a);
  }

  // -------------------------------------------------------------------------
  // Steps

  lemma NewBufferIsOut(m: Memory, o: Instr)
    requires Inv(m) && AtStep(m, o) && o.Alloc?
    ensures o.v !in m.physicalBuffers && StepNames(m.now.target, o).Some?
  {
    hide InvHome;
    hide InvAlias;
    hide InvPins;
    hide InvFlights;
    BufferNameFacts(m, o);
  }

  lemma AllocationDone(m: Memory, mid: Memory, placed: Memory, o: Instr, base: nat)
    requires Inv(m) && AtStep(m, o) && o.Alloc? && PlacedAfter(m, mid, placed, o.v, o.v, o.bytes, base)
    ensures mid.pool.geo.wordBytes > 0 && StepNames(mid.now.source, o).Some? && StepNames(mid.now.target, o).Some?
    ensures placed == Placed(mid, o.v, o.v, o.bytes, base)
    ensures Inv(BufferAdded(mid, o, base)) && StepDone(m, o, BufferAdded(mid, o, base))
    ensures BufferAdded(mid, o, base).held == m.held && BufferAdded(mid, o, base).flights == m.flights
  {
    hide Inv;
    BufferAddedKeepsInv(mid, o, base);
  }

  lemma AliasDone(m: Memory, o: Instr)
    requires Inv(m) && AtStep(m, o) && o.Alias?
    ensures o.base in m.size && o.base in m.children && o.base in m.chain && o.base in m.root
    ensures StepNames(m.now.target, o).Some?
    ensures StepNames(m.now.source, o).Some? && Inv(AliasAdded(m, o)) && StepDone(m, o, AliasAdded(m, o))
    ensures AliasAdded(m, o).held == m.held && AliasAdded(m, o).flights == m.flights
  {
    hide Inv;
    AliasAddedKeepsInv(m, o);
  }

  /** What the code of a deallocation relies on. */
  ghost predicate RemovalIsReady(m: Memory, b: Value) {
    true == (
      && (b in m.maybePhysicalBuffer <==> b in m.physicalBuffers)
      && (b in m.physicalBuffers ==>
            && m.maybePhysicalBuffer[b] == m.physicalBuffers[b]
            && (m.physicalBuffers[b].value in m.pool.live ==>
                  m.pool.live[m.physicalBuffers[b].value].base + m.pool.live[m.physicalBuffers[b].value].size <= |m.pool.used|)))
  }

  lemma DeallocationIsReady(m: Memory, b: Value)
    requires Inv(m) && b in m.now.source.live
    ensures RemovalIsReady(m, b)
  {
    hide InvHome;
    hide InvAlias;
    hide InvPins;
    hide InvFlights;
    if b in m.physicalBuffers { assert ResidentAt(m, b); }
  }

  lemma DeallocationDone(m: Memory, o: Instr)
    requires Inv(m) && Settled(m) && AtStep(m, o) && o.Dealloc?
    ensures Removable(m, o) && RemovalIsReady(m, o.v)
    ensures Inv(BufferRemoved(m, o)) && StepDone(m, o, BufferRemoved(m, o))
    ensures BufferRemoved(m, o).held == m.held && BufferRemoved(m, o).flights == m.flights
  {
    hide Inv;
    DeallocationIsReady(m, o.v);
    BufferRemovedKeepsInv(m, o);
  }

  lemma SameHeldIsSettled(m: Memory, n: Memory)
    requires Settled(m) && n.held.Keys <= m.held.Keys && n.flights == m.flights
    ensures Settled(n)
  {}

  lemma ExecuteDone(m: Memory, o: Instr, physical: seq<Value>)
    requires CanExecute(m, o, physical) && o.Op?
    ensures StepNames(m.now.source, o).Some? && StepNames(m.now.target, WithOperands(o, physical)).Some?
    ensures Inv(Executed(m, o, physical)) && StepDone(m, o, Executed(m, o, physical))
  {
    hide Inv;
    OpKeepsInv(m, o, physical);
  }

  lemma StartDone(m: Memory, o: Instr, physical: seq<Value>, tokens: seq<nat>)
    requires CanExecute(m, o, physical) && o.Start? && TokensFor(m, o.operands, tokens)
    ensures StepNames(m.now.target, WithOperands(o, physical)).Some?
    ensures Inv(Started(m, o, physical, tokens)) && StepDone(m, o, Started(m, o, physical, tokens))
  {
    hide Inv;
    StartKeepsInv(m, o, physical, tokens);
  }

  /** After a start, its pins are held by the program in flight. */
  lemma StartSettles(m: Memory, o: Instr, s: Memory, physical: seq<Value>, tokens: seq<nat>)
    requires o.Start? && Settled(m) && NewPins(m, o.operands, tokens, s) && s.flights == m.flights
    requires o.inv !in m.flights
    requires StepNames(s.now.source, o).Some? && StepNames(s.now.target, WithOperands(o, physical)).Some?
    ensures Settled(Started(s, o, physical, tokens))
  {
    var n := Started(s, o, physical, tokens);
    forall t | t in n.held ensures exists inv, i :: inv in n.flights && 0 <= i < |n.flights[inv]| && n.flights[inv][i] == t {
      if t in m.held {
        var inv, i :| inv in m.flights && 0 <= i < |m.flights[inv]| && m.flights[inv][i] == t;
        assert n.flights[inv][i] == t;
      } else {
        var i :| 0 <= i < |tokens| && tokens[i] == t;
        assert n.flights[o.inv][i] == t;
      }
    }
  }

  lemma NotInFlight(m: Memory, o: Instr)
    requires Inv(m) && AtStep(m, o)
    ensures o.Start? ==> o.inv !in m.flights
    ensures o.Wait? ==> o.inv in m.flights && o.inv in m.invocationToVirtual
  {
    hide InvHome;
    hide InvAlias;
    hide InvPins;
    hide InvPhysical;
  }

  lemma WaitDone(m: Memory, o: Instr)
    requires CanExecute(m, o, []) && o.Wait?
    ensures StepNames(m.now.source, o).Some? && StepNames(m.now.target, WithOperands(o, [])).Some?
    ensures o.inv in m.flights && o.inv in m.invocationToVirtual
    ensures Inv(Waited(m, o)) && StepDone(m, o, Waited(m, o))
    ensures TokensFor(Waited(m, o), m.invocationToVirtual[o.inv], m.flights[o.inv])
  {
    NotInFlight(m, o);
    WaitTokens(m, o);
    hide Inv;
    WaitKeepsInv(m, o);
    WaitAdvances(m, o);
    hide StepDone;
    hide AtStep;
    hide Waited;
    hide OperandsAre;
  }

  lemma WaitAdvances(m: Memory, o: Instr)
    requires o.Wait? && AtStep(m, o) && StepNames(m.now.target, WithOperands(o, [])).Some?
    ensures StepDone(m, o, Waited(m, o)) && Waited(m, o).held == m.held
  {
    hide StepNames;
  }

  lemma WaitTokens(m: Memory, o: Instr)
    requires InvFlights(m) && o.Wait? && o.inv in m.flights && o.inv in m.invocationToVirtual
    ensures |m.flights[o.inv]| == |m.invocationToVirtual[o.inv]| && NoDuplicates(m.flights[o.inv])
    ensures forall i :: 0 <= i < |m.flights[o.inv]| ==>
              m.flights[o.inv][i] in m.held && m.held[m.flights[o.inv][i]] == m.invocationToVirtual[o.inv][i]
  {
    var inv := o.inv;
    forall i | 0 <= i < |m.flights[inv]|
      ensures m.flights[inv][i] in m.held && m.held[m.flights[inv][i]] == m.invocationToVirtual[inv][i]
    {
      assert FlightAt(m, inv, i);
    }
    forall i, j | 0 <= i < j < |m.flights[inv]| ensures m.flights[inv][i] != m.flights[inv][j] {
      assert !Same(m.flights, inv, i, inv, j);
    }
  }

  /** After a wait, once its pins are given up, only the other programs in flight hold any. */
  lemma WaitSettles(m: Memory, o: Instr, s: Memory, n: Memory)
    requires o.Wait? && Settled(m) && o.inv in m.flights
    requires s.held == m.held && s.flights == m.flights - {o.inv} && Released(s, m.flights[o.inv], n)
    ensures Settled(n)
  {
    forall t | t in n.held ensures exists inv, i :: inv in n.flights && 0 <= i < |n.flights[inv]| && n.flights[inv][i] == t {
      var inv, i :| inv in m.flights && 0 <= i < |m.flights[inv]| && m.flights[inv][i] == t;
      assert n.flights[inv][i] == t;
    }
  }

  /** An operand that was found resident stays so while more operands are pinned. */
  lemma OperandsPinned(m: Memory, n: Memory, operands: seq<Value>, physical: seq<Value>)
    requires OperandsAre(m, operands, physical) && SameButPins(m, n)
    ensures OperandsAre(n, operands, physical)
  {
    forall i | 0 <= i < |operands| ensures OperandIs(n, operands[i], physical[i]) {
      assert OperandIs(m, operands[i], physical[i]);
    }
  }

  lemma ResidentOperand(m: Memory, v: Value)
    requires Inv(m) && HasLiveRoot(m, v) && HasPhysical(m, v)
    ensures Sees(m, v) && OperandIs(m, v, PhysicalValue(m, v)) && RootIsBacked(m, v)
  {
    hide Inv;
    if v !in m.parent { BufferIsOwnRoot(m, v); }
    ResidentSees(m, v);
  }

  lemma SteadyKeepsTree(m: Memory, s: Memory, v: Value)
    requires (m == s || Steady(m, s)) && HasLiveRoot(m, v)
    ensures Steady(m, s) && HasLiveRoot(s, v) && s.parent == m.parent && s.view == m.view && s.held == m.held
  {}

  lemma BroughtInFacts(m: Memory, s: Memory, v: Value)
    requires BroughtIn(m, s, v) && v !in m.parent
    ensures Steady(m, s) && s.IsResident(v) && s.held == m.held
  {
    hide Inv;
  }

  lemma SteadyItself(m: Memory)
    ensures Steady(m, m)
  {}

  lemma LiveSteady(m: Memory, s: Memory, v: Value)
    requires Steady(m, s) && HasLiveRoot(m, v)
    ensures HasLiveRoot(s, v)
  {}

  lemma LivePinned(m: Memory, s: Memory, values: seq<Value>, tokens: seq<nat>, v: Value)
    requires NewPins(m, values, tokens, s) && HasLiveRoot(m, v)
    ensures HasLiveRoot(s, v)
  {}

  /** One more operand, pinned and found resident. */
  lemma OneMoreOperand(m: Memory, s: Memory, operands: seq<Value>, physical: seq<Value>, v: Value, t: nat, n: Memory)
    requires Inv(n) && OperandsAre(s, operands, physical) && PinnedTo(s, v, t, n)
    requires HasLiveRoot(s, v) && HasPhysical(n, v)
    ensures OperandsAre(n, operands + [v], physical + [PhysicalValue(n, v)])
  {
    hide Inv;
    OperandsPinned(s, n, operands, physical);
    ResidentOperand(n, v);
    hide OperandIs;
  }

  // -------------------------------------------------------------------------
  // The steps of processing one instruction put together

  lemma OperandsAreObjects(m: Memory, s: Memory, operands: seq<Value>, pinned: seq<Value>, tokens: seq<nat>)
    requires AllLive(m, operands) && NewPins(m, pinned, tokens, s)
    ensures forall v :: v in operands ==> v in s.size
  {
    forall v | v in operands ensures v in s.size {
      var i :| 0 <= i < |operands| && operands[i] == v;
      assert HasLiveRoot(m, operands[i]);
    }
  }

  lemma RoomMade(m: Memory, s1: Memory, s2: Memory, reach: nat, pinned: seq<Value>, tokens: seq<nat>)
    requires Inv(m) && NewPins(m, pinned, tokens, s1) && exists next :: Reached(s1, s2, reach, next)
    ensures Steady(s1, s2) && TokensFor(s2, pinned, tokens)
  {
    hide Inv;
    NewPinsAreFree(m, pinned, tokens, s1);
    hide TokensFor;
    TokensSteady(s1, s2, pinned, tokens);
  }

  lemma RoomReleased(
      m: Memory, s1: Memory, s2: Memory, s3: Memory, operands: seq<Value>, pinned: seq<Value>, tokens: seq<nat>)
    requires Settled(m) && AllLive(m, operands)
    requires NewPins(m, pinned, tokens, s1) && Steady(s1, s2) && Released(s2, tokens, s3)
    ensures Settled(s3) && Along(m, s3)
    ensures forall v :: v in operands ==> HasLiveRoot(s3, v)
  {
    AlongItself(m);
    AlongPins(m, m, s1);
    AlongSteady(m, s1, s2);
    AlongPins(m, s2, s3);
    SteadyFlights(s1, s2);
    BackToSettled(m, pinned, tokens, s1, s2, s3);
    forall v | v in operands ensures HasLiveRoot(s3, v) {
      var i :| 0 <= i < |operands| && operands[i] == v;
      assert HasLiveRoot(m, operands[i]);
      LiveAlong(m, s3, v);
    }
  }

  lemma SteadyFlights(m: Memory, s: Memory)
    requires Steady(m, s)
    ensures s.held == m.held && s.flights == m.flights
  {}

  lemma SameHeldSteady(m: Memory, n: Memory)
    requires Settled(m) && Steady(m, n)
    ensures Settled(n)
  {
    SteadyFlights(m, n);
  }

  lemma SameHeldIsSettledAgain(m: Memory, n: Memory)
    requires Settled(m) && n.held == m.held && n.flights == m.flights
    ensures Settled(n)
  {}

  lemma CanExecuteNow(m: Memory, s: Memory, o: Instr, physical: seq<Value>, tokens: seq<nat>)
    requires Inv(s) && AtStep(m, o) && (o.Op? || o.Start? || o.Wait?)
    requires NewPins(m, OperandsOf(o), tokens, s) && OperandsAre(s, OperandsOf(o), physical)
    ensures CanExecute(s, o, physical)
    ensures o.Wait? ==> physical == []
  {
    hide Inv;
  }

  lemma OpReleases(m: Memory, s: Memory, s': Memory, o: Instr, values: seq<Value>, tokens: seq<nat>)
    requires Inv(m) && NewPins(m, values, tokens, s) && s'.held == s.held && s'.flights == s.flights
    ensures TokensFor(s', values, tokens)
  {
    hide Inv;
    NewPinsAreFree(m, values, tokens, s);
    hide TokensFor;
    TokensSteady(s, s', values, tokens);
  }

  lemma OpSettles(
      m: Memory, s: Memory, s': Memory, n: Memory, o: Instr, values: seq<Value>, tokens: seq<nat>)
    requires Settled(m) && NewPins(m, values, tokens, s) && s'.held == s.held && s'.flights == s.flights
    requires StepDone(s, o, s') && Released(s', tokens, n)
    ensures Settled(n) && StepDone(m, o, n)
  {
    BackToSettled(m, values, tokens, s, s', n);
  }

  lemma StartIsDone(m: Memory, s: Memory, o: Instr, physical: seq<Value>, tokens: seq<nat>)
    requires Inv(m) && Settled(m) && CanExecute(s, o, physical) && o.Start? && NewPins(m, o.operands, tokens, s)
    ensures StepNames(s.now.source, o).Some? && StepNames(s.now.target, WithOperands(o, physical)).Some?
    ensures Inv(Started(s, o, physical, tokens)) && Settled(Started(s, o, physical, tokens))
    ensures StepDone(m, o, Started(s, o, physical, tokens))
  {
    NotInFlight(s, o);
    hide Inv;
    NewPinsAreFree(m, o.operands, tokens, s);
    StartDone(s, o, physical, tokens);
    StartSettles(m, o, s, physical, tokens);
  }

  lemma WaitIsDone(m: Memory, s: Memory, s': Memory, n: Memory, o: Instr)
    requires Settled(m) && o.Wait? && o.inv in s.flights && (exists tokens :: NewPins(m, [], tokens, s))
    requires StepDone(s, o, s') && s'.held == s.held && s'.flights == s.flights - {o.inv} && Released(s', s.flights[o.inv], n)
    ensures Settled(n) && StepDone(m, o, n)
  {
    SameHeldIsSettled(m, s);
    WaitSettles(s, o, s', n);
  }

  lemma StepDoneAlong(m: Memory, s: Memory, o: Instr, n: Memory)
    requires Along(m, s) && StepDone(s, o, n)
    ensures StepDone(m, o, n)
  {}

  lemma NotACopy(m: Memory, o: Instr)
    requires AtStep(m, o)
    ensures !o.Copy?
  {}
}
