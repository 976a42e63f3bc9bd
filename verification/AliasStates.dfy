/** Renewing an alias of a resident object. */
module AliasStates {
  import opened Basics
  import opened Ir
  import opened Replays
  import opened Refinement
  import opened AllocationOrders
  import opened ValueSizes
  import opened MemoryStates
  import opened SwapStates

  /** The value through which a resident object is accessed. */
  ghost function PhysicalValue(m: Memory, v: Value): Value
    requires if v in m.parent then v in m.maybePhysicalAlias else v in m.maybePhysicalBuffer
  {
    if v in m.parent then m.maybePhysicalAlias[v] else m.maybePhysicalBuffer[v].value
  }

  /** A resident object of a live buffer: its whole chain is resident and its physical value denotes its part of
      the physical buffer. */
  ghost predicate Sees(m: Memory, v: Value) {
    && v in m.chain && v in m.root && v in m.now.source.access
    && (forall w :: w in m.chain[v] ==> m.IsResident(w))
    && m.root[v] in m.physicalBuffers
    && (if v in m.parent then v in m.maybePhysicalAlias else v in m.maybePhysicalBuffer)
    && PhysicalValue(m, v) in m.now.target.access
    && m.now.target.access[PhysicalValue(m, v)] == Access(m.physicalBuffers[m.root[v]].value, m.now.source.access[v].path)
  }

  lemma ResidentSees(m: Memory, v: Value)
    requires Inv(m) && v in m.size && m.root[v] in m.now.source.live && m.IsResident(v)
    ensures Sees(m, v)
  {
    if v in m.parent {
      AliasSees(m, v);
    } else {
      BufferSees(m, v);
    }
  }

  lemma AliasSees(m: Memory, v: Value)
    requires InvAlias(m) && v in m.maybePhysicalAlias && v in m.root && m.root[v] in m.now.source.live
    ensures Sees(m, v)
  {
    assert AliasAt(m, v);
  }

  lemma BufferSees(m: Memory, v: Value)
    requires InvTree(m) && InvNames(m) && InvHome(m) && InvPhysical(m) && Coherent(m.now.target)
    requires v in m.size && v !in m.parent && v in m.physicalBuffers
    ensures Sees(m, v)
  {
    BufferItself(m, v);
    BufferValue(m, v);
  }

  lemma BufferItself(m: Memory, v: Value)
    requires InvTree(m) && InvNames(m) && v in m.size && v !in m.parent
    ensures v in m.chain && v in m.root && m.chain[v] == {v} && m.root[v] == v
    ensures v in m.now.source.access && m.now.source.access[v].path == []
  {
    assert TreeAt(m, v);
    assert NameAt(m, v);
  }

  lemma BufferValue(m: Memory, v: Value)
    requires InvHome(m) && InvPhysical(m) && Coherent(m.now.target) && v in m.physicalBuffers
    ensures v in m.maybePhysicalBuffer && m.maybePhysicalBuffer[v] == m.physicalBuffers[v]
    ensures var p := m.physicalBuffers[v].value; p in m.now.target.access && m.now.target.access[p] == Access(p, [])
  {
    assert ResidentAt(m, v);
    assert HomeAt(m, v);
  }

  /** The addresses once `v` is an alias of `base`. */
  ghost function FoundAs(found: map<Value, nat>, v: Value, base: Value): map<Value, nat> {
    if base in found then found[v := found[base]] else found
  }

  ghost function Renewal(m: Memory, a: Value): Instr
    requires a in m.parent && a in m.view && a in m.size && Sees(m, m.parent[a])
  {
    Alias(m.nextValue, PhysicalValue(m, m.parent[a]), m.view[a], m.size[a])
  }

  ghost function AfterRenewal(m: Memory, a: Value): Snapshot
    requires a in m.parent && a in m.view && a in m.size && Sees(m, m.parent[a])
  {
    var base := m.now.target.access[PhysicalValue(m, m.parent[a])];
    m.now.(target := m.now.target.(access := m.now.target.access[m.nextValue := Access(base.root, base.path + [m.view[a]])]))
  }

  /** The code: the operation that made the alias, cloned over the current value of the parent. */
  ghost function Renewed(m: Memory, a: Value): Memory
    requires a in m.parent && a in m.view && a in m.size && Sees(m, m.parent[a])
  {
    m.(
      nextValue := m.nextValue + 1,
      out := m.out + [Renewal(m, a)],
      trace := m.trace + [AfterRenewal(m, a)],
      now := AfterRenewal(m, a),
      maybePhysicalAlias := m.maybePhysicalAlias[a := m.nextValue],
      found := FoundAs(m.found, m.nextValue, PhysicalValue(m, m.parent[a])))
  }

  ghost predicate CanRenew(m: Memory, a: Value) {
    && Inv(m) && a in m.parent && a in m.view && a in m.size && m.root[a] in m.now.source.live
    && Sees(m, m.parent[a])
  }

  lemma RenewTrace(m: Memory, a: Value)
    requires CanRenew(m, a)
    ensures InvTrace(Renewed(m, a))
  {
    hide InvTree;
    hide InvHome;
    hide InvAlias;
    hide InvPhysical;
    hide InvPins;
    hide InvFlights;
    hide InvReplay;
    RenewalLinks(m, a);
    hide Linked;
    hide Matched;
    hide Certified;
    hide Sees;
    hide InvNames;
    CertifyNext(m.original, m.out, m.trace, Renewal(m, a), AfterRenewal(m, a));
    LinkKeepsMatched(m.original, m.now, Renewal(m, a), AfterRenewal(m, a));
  }

  lemma RenewalLinks(m: Memory, a: Value)
    requires InvNames(m) && Coherent(m.now.target)
    requires a in m.parent && a in m.view && a in m.size && Sees(m, m.parent[a])
    ensures Linked(m.original, m.now, Renewal(m, a), AfterRenewal(m, a))
  {
    assert m.nextValue !in m.now.target.access && m.nextValue !in m.now.target.live;
  }

  lemma RenewNames(m: Memory, a: Value)
    requires InvTree(m) && InvNames(m)
    requires a in m.parent && a in m.view && a in m.size && Sees(m, m.parent[a])
    ensures InvTree(Renewed(m, a)) && InvNames(Renewed(m, a))
  {
    var n := Renewed(m, a);
    TreeFrame(m, n);
    assert AccessKept(m, n);
    NamesFrame(m, n);
  }

  lemma RenewAlias(m: Memory, a: Value)
    requires InvTree(m) && InvNames(m) && InvAlias(m)
    requires a in m.parent && a in m.view && a in m.size && Sees(m, m.parent[a])
    ensures InvAlias(Renewed(m, a))
  {
    var n := Renewed(m, a);
    RenewKeeps(m, a);
    RenewedSees(m, a);
    hide Renewed;
    hide InvTree;
    hide InvNames;
    hide Sees;
    hide AliasAt;
    forall c | c in n.maybePhysicalAlias ensures AliasAt(n, c) {
      if c != a {
        assert AliasAt(m, c);
        AliasFrame(m, n, c);
      }
    }
  }

  lemma RenewKeeps(m: Memory, a: Value)
    requires InvNames(m) && a in m.parent && a in m.view && a in m.size && Sees(m, m.parent[a])
    ensures var n := Renewed(m, a);
            && AccessKept(m, n) && ResidentKept(m, n) && SameTree(m, n) && n.now.source == m.now.source
            && n.maybePhysicalAlias == m.maybePhysicalAlias[a := m.nextValue]
  {
    assert m.nextValue !in m.now.target.access;
    hide InvNames;
    hide Sees;
  }

  /** A renewed alias sees its part of what its parent sees. */
  lemma RenewedSees(m: Memory, a: Value)
    requires InvTree(m) && InvNames(m) && a in m.parent && a in m.view && a in m.size && Sees(m, m.parent[a])
    ensures AliasAt(Renewed(m, a), a)
  {
    assert TreeAt(m, a) && NameAt(m, a);
    hide InvTree;
    hide InvNames;
  }

  lemma RenewRest(m: Memory, a: Value)
    requires InvHome(m) && InvPhysical(m) && InvPins(m) && InvFlights(m) && InvReplay(m) && InvStock(m)
    requires m.nextValue !in m.now.target.access && m.pinCount.Keys == m.size.Keys
    requires a in m.parent && a in m.view && a in m.size && Sees(m, m.parent[a])
    requires PhysicalValue(m, m.parent[a]) in m.found
    ensures var n := Renewed(m, a); InvHome(n) && InvPhysical(n) && InvPins(n) && InvFlights(n) && InvReplay(n)
    ensures InvStock(Renewed(m, a))
  {
    RenewReplay(m, a);
    RenewStock(m, a);
    RenewSame(m, a);
    hide InvReplay;
    hide InvHome;
    hide InvPhysical;
    hide InvPins;
    hide InvFlights;
    hide Sees;
    hide Renewed;
    RestFrame(m, Renewed(m, a));
  }

  lemma RenewReplay(m: Memory, a: Value)
    requires InvReplay(m) && a in m.parent && a in m.view && a in m.size && Sees(m, m.parent[a])
    requires PhysicalValue(m, m.parent[a]) in m.found
    ensures InvReplay(Renewed(m, a))
  {
    hide Sees;
    ReplayOneMore(m.pool.geo, m.out, Renewal(m, a));
  }

  lemma RenewOrder(m: Memory, a: Value)
    requires InvOrder(m) && a in m.parent && a in m.view && a in m.size && Sees(m, m.parent[a])
    ensures InvOrder(Renewed(m, a))
  {
    hide Sees;
    hide Residents;
    ResidentsNext(m.out, Renewal(m, a));
  }

  lemma RenewCode(m: Memory, a: Value)
    requires a in m.parent && a in m.view && a in m.size && Sees(m, m.parent[a])
    ensures var n := Renewed(m, a);
            && n.out == m.out + [Renewal(m, a)] && Renewal(m, a).Alias? && Renewal(m, a).v == m.nextValue
            && Renewal(m, a).bytes == m.size[a]
            && n.size == m.size && n.original == m.original && n.now.pos == m.now.pos
            && n.now.home == m.now.home && n.now.target.live == m.now.target.live
            && n.now.target.access.Keys == m.now.target.access.Keys + {m.nextValue}
            && n.maybePhysicalAlias == m.maybePhysicalAlias[a := m.nextValue]
  {
    hide Sees;
  }

  lemma RenewStock(m: Memory, a: Value)
    requires InvStock(m) && a in m.parent && a in m.view && a in m.size && Sees(m, m.parent[a])
    requires m.nextValue !in m.now.target.access
    ensures InvStock(Renewed(m, a))
  {
    hide Renewed;
    hide Renewal;
    hide Sees;
    hide InvOrder;
    hide InvSizes;
    RenewOrder(m, a);
    RenewCode(m, a);
    RenewSizes(m, Renewed(m, a), a, Renewal(m, a));
    CleanSame(m, Renewed(m, a));
  }

  lemma RenewSizes(m: Memory, n: Memory, a: Value, e: Instr)
    requires InvSizes(m) && e.Alias? && e.v == m.nextValue && m.nextValue !in m.now.target.access
    requires a in m.size && e.bytes == m.size[a] && n.out == m.out + [e]
    requires n.size == m.size && n.original == m.original && n.now.pos == m.now.pos && n.now.home == m.now.home
    requires n.now.target.access.Keys == m.now.target.access.Keys + {m.nextValue}
    requires n.maybePhysicalAlias == m.maybePhysicalAlias[a := m.nextValue]
    ensures InvSizes(n)
  {
    hide SizesAfter;
    hide CopiesFit;
    hide OperandSizes;
    StepSizes(m.out, e);
    SizesGrow(m, n);
  }

  /** The same but for names and aliases. */
  ghost predicate SameRest(m: Memory, n: Memory) {
    && SameTree(m, n) && n.now.source == m.now.source && n.now.home == m.now.home
    && n.now.target.live == m.now.target.live
    && n.physicalBuffers == m.physicalBuffers && n.swappedOutValue == m.swappedOutValue
    && n.lastUsed == m.lastUsed
    && n.maybePhysicalBuffer == m.maybePhysicalBuffer && n.pool == m.pool
    && n.held == m.held && n.pinCount == m.pinCount && n.pinnedBuffers == m.pinnedBuffers
    && n.totalPinnedSize == m.totalPinnedSize
    && n.flights == m.flights && n.invocationToVirtual == m.invocationToVirtual
  }

  lemma RenewSame(m: Memory, a: Value)
    requires a in m.parent && a in m.view && a in m.size && Sees(m, m.parent[a])
    ensures SameRest(m, Renewed(m, a))
  {
    hide Sees;
  }

  /** Everything but names and aliases is untouched. */
  lemma RestFrame(m: Memory, n: Memory)
    requires InvHome(m) && InvPhysical(m) && InvPins(m) && InvFlights(m) && m.pinCount.Keys == m.size.Keys
    requires SameRest(m, n)
    ensures InvHome(n) && InvPhysical(n) && InvPins(n) && InvFlights(n)
  {
    hide InvHome;
    hide InvPhysical;
    hide InvPins;
    hide InvFlights;
    HomeFrame(m, n);
    PhysicalFrame(m, n);
    PinsFrame(m, n);
    FlightsFrame(m, n);
  }

  lemma HomeFrame(m: Memory, n: Memory)
    requires InvHome(m)
    requires n.now.source == m.now.source && n.now.home == m.now.home && n.now.target.live == m.now.target.live
    requires n.physicalBuffers == m.physicalBuffers && n.swappedOutValue == m.swappedOutValue
    ensures InvHome(n)
  {
    forall b | b in n.now.source.live ensures HomeAt(n, b) {
      assert HomeAt(m, b);
    }
  }

  lemma PhysicalFrame(m: Memory, n: Memory)
    requires InvPhysical(m)
    requires n.size == m.size && n.now.source.live == m.now.source.live
    requires n.physicalBuffers == m.physicalBuffers && n.lastUsed == m.lastUsed
    requires n.maybePhysicalBuffer == m.maybePhysicalBuffer && n.pool == m.pool
    ensures InvPhysical(n)
  {
    forall b | b in n.physicalBuffers ensures ResidentAt(n, b) {
      assert ResidentAt(m, b);
    }
    forall q ensures Backs(n, q) <==> Backs(m, q) {
    }
  }

  lemma ParentIsFound(m: Memory, a: Value)
    requires CanRenew(m, a)
    ensures PhysicalValue(m, m.parent[a]) in m.found
  {
    hide InvHome;
    hide InvPins;
    hide InvFlights;
    var p := m.parent[a];
    if p !in m.parent {
      assert TreeAt(m, a);
      assert TreeAt(m, p);
      assert ResidentAt(m, p);
    }
  }

  lemma NextIsUnused(m: Memory)
    requires InvNames(m)
    ensures m.nextValue !in m.now.target.access
  {}

  lemma RenewKeepsInv(m: Memory, a: Value)
    requires CanRenew(m, a)
    ensures Inv(Renewed(m, a)) && Undisturbed(m, Renewed(m, a)) && NamesKept(m.nextValue, m, Renewed(m, a))
  {
    RenewTrace(m, a);
    RenewNames(m, a);
    RenewAlias(m, a);
    ParentIsFound(m, a);
    NextIsUnused(m);
    RenewRest(m, a);
  }
}
