/** Pinning an object pins its whole chain, down to the physical buffer of its root. */
module PinStates {
  import opened Basics
  import opened Totals
  import opened Ir
  import opened AllocationOrders
  import opened ValueSizes
  import opened MemoryStates
  import opened SwapStates
  import opened AliasStates

  ghost function Raised(count: map<Value, nat>, chain: set<Value>): map<Value, nat> {
    map w | w in count :: if w in chain then count[w] + 1 else count[w]
  }

  ghost function Lowered(count: map<Value, nat>, chain: set<Value>): map<Value, nat> {
    map w | w in count :: if w in chain && count[w] > 0 then count[w] - 1 else count[w]
  }

  ghost predicate OnlyBuffersBacked(m: Memory) {
    forall b :: b in m.physicalBuffers ==> m.IsBuffer(b)
  }

  ghost predicate CanPin(m: Memory, v: Value, t: nat) {
    true == (
      && InvTree(m) && InvPins(m)
      && v in m.size && t !in m.held
      && OnlyBuffersBacked(m)
      && m.root[v] in m.physicalBuffers && m.physicalBuffers[m.root[v]].owner == m.root[v])
  }

  /** The state after pinning `v`; `t` identifies the pin. */
  ghost function Pinned(m: Memory, v: Value, t: nat): Memory
    requires v in m.chain && v in m.root && m.root[v] in m.pinCount && m.root[v] in m.size
    requires m.root[v] in m.physicalBuffers
  {
    var b := m.root[v];
    var first := m.pinCount[b] == 0;
    m.(
      pinCount := Raised(m.pinCount, m.chain[v]),
      pinnedBuffers := if first then m.pinnedBuffers[m.physicalBuffers[b] := 1] else m.pinnedBuffers,
      totalPinnedSize := if first then m.totalPinnedSize + m.size[b] else m.totalPinnedSize,
      held := m.held[t := v])
  }

  lemma PinHolds(m: Memory, v: Value, t: nat)
    requires v in m.chain && v in m.root && m.root[v] in m.pinCount && m.root[v] in m.size
    requires m.root[v] in m.physicalBuffers
    ensures var n := Pinned(m, v, t);
            && n.size == m.size && n.parent == m.parent && n.chain == m.chain && n.root == m.root
            && n.physicalBuffers == m.physicalBuffers && n.held == m.held[t := v]
            && n.pinCount == Raised(m.pinCount, m.chain[v])
  {}

  lemma ThroughRises(m: Memory, n: Memory, v: Value, t: nat, w: Value)
    requires n.chain == m.chain && n.held == m.held[t := v] && t !in m.held && v in m.chain
    ensures |Through(n, w)| == |Through(m, w)| + if w in m.chain[v] then 1 else 0
  {
    if w in m.chain[v] {
      assert Through(n, w) == Through(m, w) + {t};
    } else {
      assert Through(n, w) == Through(m, w);
    }
  }

  lemma CountRises(m: Memory, n: Memory, v: Value, t: nat, w: Value)
    requires CountAt(m, w) && v in m.chain && t !in m.held
    requires n.chain == m.chain && n.held == m.held[t := v] && n.parent == m.parent
    requires n.physicalBuffers == m.physicalBuffers
    requires n.pinCount == Raised(m.pinCount, m.chain[v])
    requires w in m.chain[v] && w !in m.parent ==> w in m.physicalBuffers
    ensures CountAt(n, w)
  {
    ThroughRises(m, n, v, t, w);
    hide Through;
  }

  lemma PinCountsRise(m: Memory, v: Value, t: nat)
    requires CanPin(m, v, t) && m.root[v] in m.pinCount && m.root[v] in m.size
    ensures forall w :: w in m.size ==> CountAt(Pinned(m, v, t), w)
  {
    var n := Pinned(m, v, t);
    PinHolds(m, v, t);
    hide Pinned;
    hide Raised;
    hide ShouldBePinned;
    hide PinnedSizes;
    forall w | w in m.size ensures CountAt(n, w) {
      assert CountAt(m, w);
      hide CountAt;
      if w in m.chain[v] && w !in m.parent { BufferOfChain(m, v, w); }
      CountRises(m, n, v, t, w);
    }
  }

  /** Of the physical buffers, a pin on `v` concerns that of the root of `v` only. */
  lemma PinConcerns(m: Memory, n: Memory, v: Value, q: PhysicalBuffer)
    requires InvTree(m) && v in m.size && OnlyBuffersBacked(m)
    requires m.root[v] in m.physicalBuffers && m.physicalBuffers[m.root[v]].owner == m.root[v]
    requires n.physicalBuffers == m.physicalBuffers && n.pinCount.Keys == m.pinCount.Keys
    requires forall w :: w in m.pinCount && w !in m.chain[v] ==> n.pinCount[w] == m.pinCount[w]
    requires q != m.physicalBuffers[m.root[v]]
    ensures ShouldBePinned(n, q) <==> ShouldBePinned(m, q)
  {
    if Backs(m, q) && q.owner in m.chain[v] {
      BufferOfChain(m, v, q.owner);
    }
  }

  lemma MarksAfter(m: Memory, n: Memory, v: Value)
    requires InvTree(m) && v in m.size && OnlyBuffersBacked(m)
    requires m.root[v] in m.physicalBuffers && m.physicalBuffers[m.root[v]].owner == m.root[v]
    requires n.physicalBuffers == m.physicalBuffers && n.pinCount.Keys == m.pinCount.Keys && m.root[v] in m.pinCount
    requires forall w :: w in m.pinCount && w !in m.chain[v] ==> n.pinCount[w] == m.pinCount[w]
    requires forall q :: q in m.pinnedBuffers <==> ShouldBePinned(m, q)
    requires forall q :: q != m.physicalBuffers[m.root[v]] ==> (q in n.pinnedBuffers <==> q in m.pinnedBuffers)
    requires m.physicalBuffers[m.root[v]] in n.pinnedBuffers <==> n.pinCount[m.root[v]] > 0
    ensures forall q :: q in n.pinnedBuffers <==> ShouldBePinned(n, q)
  {
    forall q ensures q in n.pinnedBuffers <==> ShouldBePinned(n, q) {
      if q != m.physicalBuffers[m.root[v]] {
        PinConcerns(m, n, v, q);
      }
    }
  }

  lemma PinChanges(m: Memory, v: Value, t: nat)
    requires v in m.chain && v in m.root && m.root[v] in m.pinCount && m.root[v] in m.size
    requires m.root[v] in m.physicalBuffers
    ensures var n, b := Pinned(m, v, t), m.root[v];
            if m.pinCount[b] == 0 then n.pinnedBuffers == m.pinnedBuffers[m.physicalBuffers[b] := 1]
                                       && n.totalPinnedSize == m.totalPinnedSize + m.size[b]
            else n.pinnedBuffers == m.pinnedBuffers && n.totalPinnedSize == m.totalPinnedSize
  {}

  lemma SizesRise(m: Memory, n: Memory, p: PhysicalBuffer)
    requires n.size == m.size && p.owner in m.size && n.pinnedBuffers == m.pinnedBuffers[p := 1]
    requires p !in m.pinnedBuffers
    ensures Total(PinnedSizes(n)) == Total(PinnedSizes(m)) + m.size[p.owner]
  {
    assert PinnedSizes(n) == PinnedSizes(m)[p := m.size[p.owner]];
    TotalAdd(PinnedSizes(m), p, m.size[p.owner]);
  }

  lemma PinSizes(m: Memory, v: Value, t: nat)
    requires CanPin(m, v, t) && m.root[v] in m.size && m.root[v] in m.pinCount
    ensures Pinned(m, v, t).totalPinnedSize == Total(PinnedSizes(Pinned(m, v, t)))
  {
    var p := m.physicalBuffers[m.root[v]];
    var n := Pinned(m, v, t);
    assert p in m.pinnedBuffers <==> ShouldBePinned(m, p);
    PinHolds(m, v, t);
    PinChanges(m, v, t);
    hide InvTree;
    hide OnlyBuffersBacked;
    hide CountAt;
    hide Pinned;
    if m.pinCount[m.root[v]] == 0 {
      hide PinnedSizes;
      SizesRise(m, n, p);
    } else {
      assert PinnedSizes(n) == PinnedSizes(m);
    }
  }

  lemma PinMarks(m: Memory, v: Value, t: nat)
    requires CanPin(m, v, t) && m.root[v] in m.size && m.root[v] in m.pinCount && m.root[v] in m.chain[v]
    ensures forall q :: q in Pinned(m, v, t).pinnedBuffers <==> ShouldBePinned(Pinned(m, v, t), q)
    ensures forall q :: q in Pinned(m, v, t).pinnedBuffers ==> Pinned(m, v, t).pinnedBuffers[q] == 1
  {
    var p, n := m.physicalBuffers[m.root[v]], Pinned(m, v, t);
    assert p in m.pinnedBuffers <==> ShouldBePinned(m, p);
    assert ShouldBePinned(m, p) <==> m.pinCount[m.root[v]] > 0;
    PinHolds(m, v, t);
    PinChanges(m, v, t);
    hide InvTree;
    hide OnlyBuffersBacked;
    hide CountAt;
    hide Pinned;
    hide PinnedSizes;
    hide ShouldBePinned;
    MarksAfter(m, n, v);
  }

  lemma PinKeepsPins(m: Memory, v: Value, t: nat)
    requires CanPin(m, v, t) && m.root[v] in m.size && m.root[v] in m.pinCount && m.root[v] in m.chain[v]
    ensures InvPins(Pinned(m, v, t))
  {
    PinCountsRise(m, v, t);
    PinSizes(m, v, t);
    PinMarks(m, v, t);
    HeldStay(m, v, t);
    hide CountAt;
    hide ShouldBePinned;
    hide PinnedSizes;
    hide CanPin;
    hide Pinned;
  }

  lemma HeldStay(m: Memory, v: Value, t: nat)
    requires CanPin(m, v, t) && m.root[v] in m.size && m.root[v] in m.pinCount
    ensures Pinned(m, v, t).size == m.size
    ensures forall u :: u in Pinned(m, v, t).held ==> Pinned(m, v, t).held[u] in m.size
  {}

  lemma PinKeepsFlights(m: Memory, v: Value, t: nat)
    requires InvFlights(m) && t !in m.held
    requires v in m.chain && v in m.root && m.root[v] in m.pinCount && m.root[v] in m.size
    requires m.root[v] in m.physicalBuffers
    ensures InvFlights(Pinned(m, v, t))
  {
    var n := Pinned(m, v, t);
    forall inv, i | inv in n.now.source.inflight && 0 <= i < |n.now.source.inflight[inv]| ensures FlightAt(n, inv, i) {
      assert FlightAt(m, inv, i);
    }
  }

  /** What depends neither on the pins nor on the programs in flight. */
  ghost predicate InvStatic(m: Memory) {
    InvTree(m) && InvTrace(m) && InvNames(m) && InvHome(m) && InvAlias(m) && InvPhysical(m) && InvReplay(m)
    && InvStock(m)
  }

  /** Only the pins differ. */
  ghost predicate SameButPins(m: Memory, n: Memory) {
    n == m.(pinCount := n.pinCount, pinnedBuffers := n.pinnedBuffers, totalPinnedSize := n.totalPinnedSize, held := n.held)
  }

  lemma StaticFrame(m: Memory, n: Memory)
    requires InvStatic(m) && SameButPins(m, n) && n.pinCount.Keys == m.pinCount.Keys
    ensures InvStatic(n)
  {
    StockFrame(m, n);
    hide InvStock;
    AliasesFrame(m, n);
    TraceFrame(m, n);
    hide InvAlias;
    hide InvTrace;
    hide InvReplay;
    TreeFrame(m, n);
    hide InvTree;
    NamesFrame(m, n);
    hide InvNames;
    HomeFrame(m, n);
    hide InvHome;
    PhysicalFrame(m, n);
  }

  lemma AliasesFrame(m: Memory, n: Memory)
    requires InvAlias(m) && SameButPins(m, n) && n.pinCount.Keys == m.pinCount.Keys
    ensures InvAlias(n)
  {
    forall a | a in n.maybePhysicalAlias ensures AliasAt(n, a) {
      assert AliasAt(m, a);
      hide AliasAt;
      AliasFrame(m, n, a);
    }
  }

  lemma TraceFrame(m: Memory, n: Memory)
    requires InvTrace(m) && InvReplay(m) && SameButPins(m, n)
    ensures InvTrace(n) && InvReplay(n)
  {}

  lemma StockFrame(m: Memory, n: Memory)
    requires InvStock(m) && SameButPins(m, n)
    ensures InvStock(n)
  {
    hide SizesAfter;
    hide CopiesFit;
    hide OperandSizes;
    hide Residents;
    CleanSame(m, n);
    forall x, v | SizedAs(m, x, v) ensures SizedAs(n, x, v) {}
  }

  lemma PinFacts(m: Memory, v: Value)
    requires Inv(m) && v in m.size && m.root[v] in m.physicalBuffers
    ensures m.root[v] in m.size && m.root[v] in m.pinCount && m.root[v] in m.chain[v] && OnlyBuffersBacked(m)
    ensures m.physicalBuffers[m.root[v]].owner == m.root[v]
    ensures InvStatic(m)
  {
    assert TreeAt(m, v);
    assert ResidentAt(m, m.root[v]);
  }

  /** Pinning an object whose root is resident keeps the invariant. */
  lemma PinKeepsInv(m: Memory, v: Value, t: nat)
    requires Inv(m) && v in m.size && t !in m.held && m.root[v] in m.physicalBuffers
    ensures m.root[v] in m.size && m.root[v] in m.pinCount && Inv(Pinned(m, v, t))
  {
    PinFacts(m, v);
    PinKeepsPins(m, v, t);
    PinKeepsFlights(m, v, t);
    PinKeepsStatic(m, v, t);
  }

  lemma PinKeepsStatic(m: Memory, v: Value, t: nat)
    requires InvStatic(m) && v in m.size && m.root[v] in m.physicalBuffers && m.root[v] in m.size
    ensures m.root[v] in m.pinCount && InvStatic(Pinned(m, v, t))
  {
    OnlyPinsChange(m, v, t);
    hide Pinned;
    hide InvTrace;
    hide InvNames;
    hide InvHome;
    hide InvAlias;
    hide InvPhysical;
    hide InvReplay;
    StaticFrame(m, Pinned(m, v, t));
  }

  lemma OnlyPinsChange(m: Memory, v: Value, t: nat)
    requires InvTree(m) && v in m.size && m.root[v] in m.physicalBuffers && m.root[v] in m.size
    ensures m.root[v] in m.pinCount && v in m.chain
    ensures SameButPins(m, Pinned(m, v, t)) && Pinned(m, v, t).pinCount.Keys == m.pinCount.Keys
  {
    hide TreeAt;
  }

  // -------------------------------------------------------------------------
  // Unpinning

  /** The state after giving up pin `t`. */
  ghost function Unpinned(m: Memory, t: nat): Memory
    requires t in m.held && m.held[t] in m.chain && m.held[t] in m.root
  {
    var v := m.held[t];
    var b := m.root[v];
    var lastPin := b in m.pinCount && m.pinCount[b] == 1 && b in m.physicalBuffers && b in m.size;
    m.(
      pinCount := Lowered(m.pinCount, m.chain[v]),
      pinnedBuffers := if lastPin then m.pinnedBuffers - {m.physicalBuffers[b]} else m.pinnedBuffers,
      totalPinnedSize := if lastPin then m.totalPinnedSize - m.size[b] else m.totalPinnedSize,
      held := m.held - {t})
  }

  /** Giving up a pin cannot fail: every object of its chain has a positive count. */
  lemma HeldIsPinned(m: Memory, t: nat)
    requires InvTree(m) && InvPins(m) && t in m.held
    ensures forall w :: w in m.chain[m.held[t]] ==> w in m.pinCount && m.pinCount[w] > 0
    ensures m.root[m.held[t]] in m.chain[m.held[t]] && m.root[m.held[t]] in m.physicalBuffers
  {
    var v := m.held[t];
    assert TreeAt(m, v);
    forall w | w in m.chain[v] ensures w in m.pinCount && m.pinCount[w] > 0 {
      PinCounts(m, w, t);
    }
    assert CountAt(m, m.root[v]);
  }

  lemma UnpinHolds(m: Memory, t: nat)
    requires t in m.held && m.held[t] in m.chain && m.held[t] in m.root
    ensures var n := Unpinned(m, t);
            && n.size == m.size && n.parent == m.parent && n.chain == m.chain && n.root == m.root
            && n.physicalBuffers == m.physicalBuffers && n.held == m.held - {t}
            && n.pinCount == Lowered(m.pinCount, m.chain[m.held[t]])
  {}

  lemma CountFalls(m: Memory, n: Memory, t: nat, w: Value)
    requires CountAt(m, w) && t in m.held && m.held[t] in m.chain
    requires n.chain == m.chain && n.held == m.held - {t} && n.parent == m.parent && n.physicalBuffers == m.physicalBuffers
    requires n.pinCount == Lowered(m.pinCount, m.chain[m.held[t]])
    ensures CountAt(n, w)
  {
    if w in m.chain[m.held[t]] {
      assert Through(n, w) == Through(m, w) - {t};
      assert t in Through(m, w);
    } else {
      assert Through(n, w) == Through(m, w);
    }
  }

  lemma PinCountsFall(m: Memory, t: nat)
    requires InvTree(m) && InvPins(m) && t in m.held
    ensures forall w :: w in m.size ==> CountAt(Unpinned(m, t), w)
  {
    var n := Unpinned(m, t);
    UnpinHolds(m, t);
    hide Unpinned;
    hide TreeAt;
    hide ShouldBePinned;
    hide PinnedSizes;
    hide Lowered;
    hide CountAt;
    forall w | w in m.size ensures CountAt(n, w) {
      assert CountAt(m, w);
      CountFalls(m, n, t, w);
    }
  }

  lemma UnpinSizes(m: Memory, t: nat)
    requires InvTree(m) && InvPins(m) && t in m.held && m.root[m.held[t]] in m.physicalBuffers
    requires m.physicalBuffers[m.root[m.held[t]]].owner == m.root[m.held[t]]
    requires m.root[m.held[t]] in m.size && m.pinCount[m.root[m.held[t]]] > 0
    ensures Unpinned(m, t).totalPinnedSize == Total(PinnedSizes(Unpinned(m, t)))
  {
    var b := m.root[m.held[t]];
    var n := Unpinned(m, t);
    var p := m.physicalBuffers[b];
    assert ShouldBePinned(m, p);
    if m.pinCount[b] == 1 {
      assert PinnedSizes(n) == PinnedSizes(m) - {p};
      TotalRemove(PinnedSizes(m), p);
    } else {
      assert PinnedSizes(n) == PinnedSizes(m);
    }
  }

  lemma UnpinMarks(m: Memory, t: nat)
    requires InvTree(m) && InvPins(m) && t in m.held && OnlyBuffersBacked(m)
    requires m.root[m.held[t]] in m.physicalBuffers && m.physicalBuffers[m.root[m.held[t]]].owner == m.root[m.held[t]]
    requires m.root[m.held[t]] in m.chain[m.held[t]] && m.root[m.held[t]] in m.pinCount
    requires m.pinCount[m.root[m.held[t]]] > 0
    ensures forall q :: q in Unpinned(m, t).pinnedBuffers <==> ShouldBePinned(Unpinned(m, t), q)
  {
    assert ShouldBePinned(m, m.physicalBuffers[m.root[m.held[t]]]);
    UnpinHolds(m, t);
    hide InvTree;
    hide OnlyBuffersBacked;
    hide CountAt;
    hide PinnedSizes;
    hide ShouldBePinned;
    MarksAfter(m, Unpinned(m, t), m.held[t]);
  }

  lemma UnpinKeepsPins(m: Memory, t: nat)
    requires InvTree(m) && InvPins(m) && t in m.held && OnlyBuffersBacked(m)
    requires m.root[m.held[t]] in m.physicalBuffers ==> m.physicalBuffers[m.root[m.held[t]]].owner == m.root[m.held[t]]
    ensures InvPins(Unpinned(m, t))
  {
    HeldIsPinned(m, t);
    PinCountsFall(m, t);
    UnpinSizes(m, t);
    UnpinMarks(m, t);
  }

  ghost predicate FreePin(m: Memory, t: nat) {
    t in m.held && forall inv, i :: inv in m.flights && 0 <= i < |m.flights[inv]| ==> m.flights[inv][i] != t
  }

  lemma UnpinKeepsFlights(m: Memory, t: nat)
    requires InvFlights(m) && FreePin(m, t) && m.held[t] in m.chain && m.held[t] in m.root
    ensures InvFlights(Unpinned(m, t))
  {
    var n := Unpinned(m, t);
    forall inv, i | inv in n.now.source.inflight && 0 <= i < |n.now.source.inflight[inv]| ensures FlightAt(n, inv, i) {
      assert FlightAt(m, inv, i);
    }
  }

  lemma UnpinKeepsStatic(m: Memory, t: nat)
    requires InvStatic(m) && t in m.held && m.held[t] in m.size
    ensures InvStatic(Unpinned(m, t))
  {
    StaticFrame(m, Unpinned(m, t));
  }

  /** Giving up a pin that no program in flight holds keeps the invariant. */
  lemma UnpinKeepsInv(m: Memory, t: nat)
    requires Inv(m) && FreePin(m, t)
    ensures m.held[t] in m.size && Inv(Unpinned(m, t))
  {
    HeldIsPinned(m, t);
    PinFacts(m, m.held[t]);
    UnpinKeepsPins(m, t);
    UnpinKeepsFlights(m, t);
    UnpinKeepsStatic(m, t);
  }
}
