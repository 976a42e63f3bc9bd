/** The state changes of allocating and deallocating a buffer of the original program. */
module BufferStates {
  import opened Basics
  import opened Ir
  import opened Pools
  import opened Replays
  import opened Refinement
  import opened AllocationOrders
  import opened ValueSizes
  import opened MemoryStates
  import opened SwapStates
  import opened AliasStates
  import opened StepStates

  // -------------------------------------------------------------------------
  // Allocation

  /** The allocation stays where it is: the new buffer starts out in its own physical buffer. */
  ghost function BufferAdded(m: Memory, o: Instr, base: nat): Memory
    requires o.Alloc? && StepNames(m.now.source, o).Some? && StepNames(m.now.target, o).Some?
    requires m.pool.geo.wordBytes > 0
  {
    var now := Advanced(m, o, o, m.now.home[o.v := o.v]);
    var p := NewPhysical(m, o.v, o.v, base);
    m.(
      size := m.size[o.v := o.bytes],
      children := m.children[o.v := []],
      pinCount := m.pinCount[o.v := 0],
      chain := m.chain[o.v := {o.v}],
      root := m.root[o.v := o.v],
      maybePhysicalBuffer := m.maybePhysicalBuffer[o.v := p],
      physicalBuffers := m.physicalBuffers[o.v := p],
      lastUsed := m.lastUsed + [p],
      pool := Allocated(m.pool, o.v, base, m.pool.geo.WordsFor(o.bytes)),
      found := m.found[o.v := base * m.pool.geo.wordBytes],
      out := m.out + [o], trace := m.trace + [now], now := now)
  }

  lemma AllocStep(n: Names, o: Instr)
    requires o.Alloc? && StepNames(n, o).Some?
    ensures var n' := StepNames(n, o).value;
            && o.v !in n.access && o.v !in n.live
            && n'.access == n.access[o.v := Access(o.v, [])] && n'.live == n.live[o.v := o.space] && n'.inflight == n.inflight
  {}

  ghost predicate CanAddBuffer(m: Memory, o: Instr, base: nat) {
    && Inv(m) && o.Alloc? && AtStep(m, o) && HasRoom(m.pool, o.bytes, base)
  }

  lemma BufferNameFacts(m: Memory, o: Instr)
    requires InvNames(m) && Coherent(m.now.target) && o.Alloc? && AtStep(m, o)
    ensures o.v !in m.size && o.v < m.firstFresh && o.v !in m.now.target.access && o.v !in m.now.target.live
    ensures StepNames(m.now.target, o).Some? && o.v !in m.now.source.live
  {}

  lemma BufferFacts(m: Memory, o: Instr, base: nat)
    requires CanAddBuffer(m, o, base)
    ensures o.v !in m.size && o.v !in m.parent && o.v < m.firstFresh && o.v !in m.now.target.access
    ensures o.v !in m.now.target.live
    ensures StepNames(m.now.target, o).Some? && o.v !in m.now.source.live && o.v !in m.physicalBuffers
    ensures o.v !in m.pool.live
    ensures m.pool.geo.wordBytes > 0
  {
    BufferNameFacts(m, o);
    FreshNotInPool(m, o.v);
  }

  lemma BufferSame(m: Memory, o: Instr, base: nat, w: Value)
    requires InvTree(m) && o.Alloc? && o.v !in m.size && o.v !in m.parent && m.pool.geo.wordBytes > 0 && w in m.size
    requires StepNames(m.now.source, o).Some? && StepNames(m.now.target, o).Some?
    ensures SameObject(m, BufferAdded(m, o, base), o.v, w)
  {
    assert TreeAt(m, w);
  }

  lemma BufferAllSame(m: Memory, o: Instr, base: nat)
    requires InvTree(m) && o.Alloc? && o.v !in m.size && o.v !in m.parent && m.pool.geo.wordBytes > 0
    requires StepNames(m.now.source, o).Some? && StepNames(m.now.target, o).Some?
    ensures forall w {:trigger SameObject(m, BufferAdded(m, o, base), o.v, w)} :: w in m.size ==>
              SameObject(m, BufferAdded(m, o, base), o.v, w)
  {
    forall w | w in m.size ensures SameObject(m, BufferAdded(m, o, base), o.v, w) {
      BufferSame(m, o, base, w);
    }
  }

  lemma BufferGrows(m: Memory, o: Instr, base: nat)
    requires o.Alloc? && o.v !in m.size && m.pool.geo.wordBytes > 0
    requires m.children.Keys == m.size.Keys && m.chain.Keys == m.size.Keys && m.root.Keys == m.size.Keys
    requires m.parent.Keys <= m.size.Keys
    requires StepNames(m.now.source, o).Some? && StepNames(m.now.target, o).Some?
    requires forall w {:trigger SameObject(m, BufferAdded(m, o, base), o.v, w)} :: w in m.size ==>
              SameObject(m, BufferAdded(m, o, base), o.v, w)
    ensures Grown(m, BufferAdded(m, o, base), o.v)
  {
    BufferKeys(m, o, base);
    hide BufferAdded;
    hide SameObject;
    hide StepNames;
  }

  lemma BufferKeys(m: Memory, o: Instr, base: nat)
    requires o.Alloc? && m.pool.geo.wordBytes > 0
    requires m.children.Keys == m.size.Keys && m.chain.Keys == m.size.Keys && m.root.Keys == m.size.Keys
    requires StepNames(m.now.source, o).Some? && StepNames(m.now.target, o).Some?
    ensures var n := BufferAdded(m, o, base);
            && n.size.Keys == m.size.Keys + {o.v} && n.children.Keys == n.size.Keys && n.chain.Keys == n.size.Keys
            && n.root.Keys == n.size.Keys && n.parent == m.parent && n.pinCount == m.pinCount[o.v := 0]
  {
    hide StepNames;
  }

  lemma BufferTree(m: Memory, o: Instr, base: nat)
    requires InvTree(m) && o.Alloc? && o.v !in m.size && o.v !in m.parent && m.pool.geo.wordBytes > 0
    requires StepNames(m.now.source, o).Some? && StepNames(m.now.target, o).Some?
    ensures InvTree(BufferAdded(m, o, base)) && Grown(m, BufferAdded(m, o, base), o.v)
  {
    BufferAllSame(m, o, base);
    BufferGrows(m, o, base);
    assert TreeAt(BufferAdded(m, o, base), o.v);
    TreeGrown(m, BufferAdded(m, o, base), o.v);
  }

  lemma BufferNameAt(m: Memory, o: Instr, base: nat)
    requires o.Alloc? && o.v < m.firstFresh && o.v !in m.parent && m.pool.geo.wordBytes > 0 && o.space == Lram
    requires StepNames(m.now.source, o).Some? && StepNames(m.now.target, o).Some?
    ensures NameAt(BufferAdded(m, o, base), o.v) && LiveGrows(m, BufferAdded(m, o, base), o.v)
  {
    AllocStep(m.now.source, o);
    AllocStep(m.now.target, o);
    hide StepNames;
    hide NewPhysical;
    hide Allocated;
  }

  lemma BufferNamesGrow(m: Memory, o: Instr, base: nat)
    requires o.Alloc? && m.pool.geo.wordBytes > 0
    requires StepNames(m.now.source, o).Some? && StepNames(m.now.target, o).Some?
    ensures NamesGrow(m, BufferAdded(m, o, base))
  {
    AllocStep(m.now.source, o);
    AllocStep(m.now.target, o);
    hide StepNames;
    hide NewPhysical;
    hide Allocated;
  }

  lemma BufferNameKeys(m: Memory, o: Instr, base: nat)
    requires o.Alloc? && m.pool.geo.wordBytes > 0
    requires StepNames(m.now.source, o).Some? && StepNames(m.now.target, o).Some?
    ensures var n := BufferAdded(m, o, base);
            && n.firstFresh == m.firstFresh && n.nextValue == m.nextValue
            && n.now.source.access.Keys == m.now.source.access.Keys + {o.v}
            && n.now.target.access.Keys == m.now.target.access.Keys + {o.v}
  {
    AllocStep(m.now.source, o);
    AllocStep(m.now.target, o);
    hide StepNames;
  }

  lemma BufferNames(m: Memory, o: Instr, base: nat)
    requires InvNames(m) && o.Alloc? && o.v < m.firstFresh && o.v !in m.size && o.v !in m.parent
    requires m.pool.geo.wordBytes > 0
    requires o.space == Lram && StepNames(m.now.source, o).Some? && StepNames(m.now.target, o).Some?
    requires Grown(m, BufferAdded(m, o, base), o.v)
    ensures InvNames(BufferAdded(m, o, base)) && NamesGrow(m, BufferAdded(m, o, base))
  {
    BufferNameAt(m, o, base);
    BufferNamesGrow(m, o, base);
    BufferNameKeys(m, o, base);
    hide BufferAdded;
    hide StepNames;
    hide InvNames;
    hide Grown;
    hide NamesGrow;
    hide LiveGrows;
    hide NameAt;
    NamesGrown(m, BufferAdded(m, o, base), o.v);
  }

  lemma BufferHome(m: Memory, o: Instr, base: nat)
    requires InvHome(m) && o.Alloc? && m.pool.geo.wordBytes > 0 && o.space == Lram
    requires StepNames(m.now.source, o).Some? && StepNames(m.now.target, o).Some?
    ensures InvHome(BufferAdded(m, o, base))
  {
    var n := BufferAdded(m, o, base);
    forall c | c in n.now.source.live ensures HomeAt(n, c) {
      if c != o.v { assert HomeAt(m, c); }
    }
  }

  lemma BufferAlias(m: Memory, o: Instr, base: nat)
    requires InvTree(m) && InvAlias(m) && o.Alloc? && m.pool.geo.wordBytes > 0 && o.v !in m.physicalBuffers
    requires o.v !in m.size
    requires StepNames(m.now.source, o).Some? && StepNames(m.now.target, o).Some?
    requires Grown(m, BufferAdded(m, o, base), o.v) && NamesGrow(m, BufferAdded(m, o, base))
    ensures InvAlias(BufferAdded(m, o, base))
  {
    var n := BufferAdded(m, o, base);
    BufferKeepsResidents(m, o, base);
    AliasRoots(m);
    hide BufferAdded;
    hide StepNames;
    hide AliasAt;
    hide InvTree;
    hide Grown;
    hide NamesGrow;
    hide ResidentKept;
    forall a | a in n.maybePhysicalAlias ensures AliasAt(n, a) {
      assert AliasAt(m, a);
      OnlyBufferIsNew(m, o, base, m.root[a]);
      AliasGrown(m, n, o.v, a);
    }
  }

  lemma BufferKeepsResidents(m: Memory, o: Instr, base: nat)
    requires o.Alloc? && m.pool.geo.wordBytes > 0 && o.v !in m.physicalBuffers
    requires StepNames(m.now.source, o).Some? && StepNames(m.now.target, o).Some?
    ensures ResidentKept(m, BufferAdded(m, o, base))
    ensures BufferAdded(m, o, base).maybePhysicalAlias == m.maybePhysicalAlias
  {
    hide StepNames;
    hide NewPhysical;
    hide Allocated;
  }

  lemma OnlyBufferIsNew(m: Memory, o: Instr, base: nat, b: Value)
    requires o.Alloc? && m.pool.geo.wordBytes > 0 && b != o.v
    requires StepNames(m.now.source, o).Some? && StepNames(m.now.target, o).Some?
    ensures b in BufferAdded(m, o, base).now.source.live ==> b in m.now.source.live
  {
    AllocStep(m.now.source, o);
    hide StepNames;
  }

  lemma AliasRoots(m: Memory)
    requires InvTree(m) && InvAlias(m)
    ensures forall a :: a in m.maybePhysicalAlias ==> a in m.size && a in m.root && m.root[a] in m.size
  {
    forall a | a in m.maybePhysicalAlias ensures a in m.size && a in m.root && m.root[a] in m.size {
      assert AliasAt(m, a) && TreeAt(m, a);
    }
  }

  lemma BufferPhysical(m: Memory, o: Instr, base: nat)
    requires InvPhysical(m) && o.Alloc? && HasRoom(m.pool, o.bytes, base) && o.v !in m.physicalBuffers
    requires o.v !in m.pool.live && o.v !in m.size
    requires StepNames(m.now.source, o).Some? && StepNames(m.now.target, o).Some?
    ensures InvPhysical(BufferAdded(m, o, base))
  {
    AllocStep(m.now.source, o);
    hide StepNames;
    hide InvPhysical;
    hide Allocated;
    AdditionPhysical(m, BufferAdded(m, o, base), o.v, NewPhysical(m, o.v, o.v, base), base);
  }

  lemma BackedAreObjects(m: Memory)
    requires InvPhysical(m)
    ensures forall b :: b in m.physicalBuffers ==> b in m.size
  {
    forall b | b in m.physicalBuffers ensures b in m.size {
      assert ResidentAt(m, b);
    }
  }

  lemma BufferPins(m: Memory, o: Instr, base: nat)
    requires InvTree(m) && InvPins(m) && o.Alloc? && m.pool.geo.wordBytes > 0 && o.v !in m.physicalBuffers
    requires forall b :: b in m.physicalBuffers ==> b in m.size
    requires StepNames(m.now.source, o).Some? && StepNames(m.now.target, o).Some?
    requires Grown(m, BufferAdded(m, o, base), o.v)
    ensures InvPins(BufferAdded(m, o, base))
  {
    BufferPinFields(m, o, base);
    hide BufferAdded;
    hide StepNames;
    hide InvPins;
    hide InvTree;
    hide Grown;
    PinsGrown(m, BufferAdded(m, o, base), o.v);
  }

  lemma BufferPinFields(m: Memory, o: Instr, base: nat)
    requires o.Alloc? && m.pool.geo.wordBytes > 0 && o.v !in m.physicalBuffers
    requires StepNames(m.now.source, o).Some? && StepNames(m.now.target, o).Some?
    ensures var n := BufferAdded(m, o, base);
            && n.held == m.held && n.pinnedBuffers == m.pinnedBuffers && n.totalPinnedSize == m.totalPinnedSize
            && (forall b :: b in m.physicalBuffers ==> b in n.physicalBuffers && n.physicalBuffers[b] == m.physicalBuffers[b])
            && (forall b :: b in n.physicalBuffers && b !in m.physicalBuffers ==> b == o.v)
  {
    hide StepNames;
  }

  lemma BufferFlightFields(m: Memory, o: Instr, base: nat)
    requires o.Alloc? && m.pool.geo.wordBytes > 0
    requires StepNames(m.now.source, o).Some? && StepNames(m.now.target, o).Some?
    ensures var n := BufferAdded(m, o, base);
            && n.held == m.held && n.flights == m.flights && n.invocationToVirtual == m.invocationToVirtual
            && n.now.source.inflight == m.now.source.inflight
            && forall v :: v in m.now.source.access ==>
                 v in n.now.source.access && n.now.source.access[v] == m.now.source.access[v]
  {
    AllocStep(m.now.source, o);
    hide StepNames;
  }

  lemma BufferRest(m: Memory, o: Instr, base: nat)
    requires InvFlights(m) && InvReplay(m) && o.Alloc? && o.space == Lram && HasRoom(m.pool, o.bytes, base)
    requires o.v !in m.pool.live
    requires StepNames(m.now.source, o).Some? && StepNames(m.now.target, o).Some?
    ensures InvFlights(BufferAdded(m, o, base)) && InvReplay(BufferAdded(m, o, base))
  {
    BufferReplay(m, o, base);
    BufferFlightFields(m, o, base);
    hide BufferAdded;
    hide StepNames;
    hide InvFlights;
    hide InvReplay;
    FlightsFrame(m, BufferAdded(m, o, base));
  }

  lemma BufferReplay(m: Memory, o: Instr, base: nat)
    requires InvReplay(m) && o.Alloc? && o.space == Lram && HasRoom(m.pool, o.bytes, base) && o.v !in m.pool.live
    requires StepNames(m.now.source, o).Some? && StepNames(m.now.target, o).Some?
    ensures InvReplay(BufferAdded(m, o, base))
  {
    hide StepNames;
    ReplayOneMore(m.pool.geo, m.out, o);
  }

  lemma BufferOrder(m: Memory, o: Instr, base: nat)
    requires InvOrder(m) && o.Alloc? && o.space == Lram && m.pool.geo.wordBytes > 0
    requires StepNames(m.now.source, o).Some? && StepNames(m.now.target, o).Some?
    ensures InvOrder(BufferAdded(m, o, base))
  {
    hide StepNames;
    hide Residents;
    ResidentsNext(m.out, o);
    ListGains(m.lastUsed, NewPhysical(m, o.v, o.v, base));
  }

  lemma BufferCode(m: Memory, o: Instr, base: nat)
    requires AtStep(m, o) && o.Alloc? && m.pool.geo.wordBytes > 0
    requires StepNames(m.now.source, o).Some? && StepNames(m.now.target, o).Some?
    ensures var n := BufferAdded(m, o, base);
            && n.out == m.out + [o] && n.size == m.size[o.v := o.bytes]
            && n.original == m.original && n.now.pos == m.now.pos + 1
            && m.original[..n.now.pos] == m.original[..m.now.pos] + [o]
            && n.now.home == m.now.home[o.v := o.v] && n.maybePhysicalAlias == m.maybePhysicalAlias
            && n.now.target.live.Keys == m.now.target.live.Keys + {o.v}
            && n.now.target.access.Keys == m.now.target.access.Keys + {o.v}
  {
    AllocStep(m.now.target, o);
    hide StepNames;
  }

  lemma BufferStock(m: Memory, o: Instr, base: nat)
    requires InvStock(m) && AtStep(m, o) && o.Alloc? && m.pool.geo.wordBytes > 0
    requires StepNames(m.now.source, o).Some? && StepNames(m.now.target, o).Some?
    requires o.v !in m.now.target.access && o.v !in m.size && o.v !in m.now.home
    ensures InvStock(BufferAdded(m, o, base))
  {
    hide BufferAdded;
    hide StepNames;
    hide InvOrder;
    hide InvClean;
    hide InvSizes;
    BufferOrder(m, o, base);
    BufferCode(m, o, base);
    SizesStep(m, BufferAdded(m, o, base), o, o);
    CleanNew(m, BufferAdded(m, o, base), o.v);
  }

  lemma CleanNew(m: Memory, n: Memory, v: Value)
    requires InvClean(m) && v !in m.now.home
    requires n.now.home == m.now.home[v := v] && n.now.target.live.Keys == m.now.target.live.Keys + {v}
    ensures InvClean(n)
  {
    forall x | x in n.now.target.live ensures IsHome(n.now, x) {
      if x == v {
        assert n.now.home[v] == x;
      } else {
        assert IsHome(m.now, x);
        var c :| c in m.now.home && m.now.home[c] == x;
        assert n.now.home[c] == x;
      }
    }
  }

  /** Allocating a buffer keeps the invariant. */
  lemma BufferAddedKeepsInv(m: Memory, o: Instr, base: nat)
    requires CanAddBuffer(m, o, base)
    ensures m.pool.geo.wordBytes > 0 && StepNames(m.now.target, o).Some? && Inv(BufferAdded(m, o, base))
  {
    BufferFacts(m, o, base);
    StepTrace(m, BufferAdded(m, o, base), o, o);
    BufferTree(m, o, base);
    BufferNames(m, o, base);
    BufferHome(m, o, base);
    BufferAlias(m, o, base);
    BufferPhysical(m, o, base);
    BackedAreObjects(m);
    BufferPins(m, o, base);
    BufferRest(m, o, base);
    HomesAreLive(m, o.v);
    BufferStock(m, o, base);
  }

  lemma HomesAreLive(m: Memory, v: Value)
    requires InvTrace(m) && v !in m.now.source.live
    ensures v !in m.now.home
  {}

  // -------------------------------------------------------------------------
  // Deallocation

  /** The value a deallocation is redirected to. */
  ghost function CurrentValue(m: Memory, b: Value): Value
    requires b in m.maybePhysicalBuffer || b in m.swappedOutValue
  {
    if b in m.maybePhysicalBuffer then m.maybePhysicalBuffer[b].value else m.swappedOutValue[b]
  }

  ghost function Redirected(m: Memory, b: Value): Instr
    requires b in m.maybePhysicalBuffer || b in m.swappedOutValue
  {
    Dealloc(CurrentValue(m, b), if b in m.maybePhysicalBuffer then Lram else Xram)
  }

  /** The deallocation is redirected to wherever the contents are now. */
  ghost function BufferRemoved(m: Memory, o: Instr): Memory
    requires o.Dealloc? && (o.v in m.maybePhysicalBuffer || o.v in m.swappedOutValue)
    requires StepNames(m.now.source, o).Some? && StepNames(m.now.target, Redirected(m, o.v)).Some?
  {
    var b, e := o.v, Redirected(m, o.v);
    var now := Advanced(m, o, e, m.now.home - {b});
    var resident := b in m.physicalBuffers;
    m.(
      physicalBuffers := m.physicalBuffers - {b},
      lastUsed := if resident then Without(m.lastUsed, m.physicalBuffers[b]) else m.lastUsed,
      pool := if resident then Freed(m.pool, m.physicalBuffers[b].value) else m.pool,
      out := m.out + [e], trace := m.trace + [now], now := now)
  }

  ghost predicate CanRemoveBuffer(m: Memory, o: Instr) {
    && Inv(m) && Settled(m) && o.Dealloc? && AtStep(m, o)
  }

  lemma HomeIsCurrent(m: Memory, b: Value)
    requires Inv(m) && b in m.now.source.live
    ensures b in m.maybePhysicalBuffer || b in m.swappedOutValue
    ensures b in m.now.home && m.now.home[b] == CurrentValue(m, b)
    ensures CurrentValue(m, b) in m.now.target.live
    ensures m.now.target.live[CurrentValue(m, b)] == if b in m.maybePhysicalBuffer then Lram else Xram
    ensures b in m.maybePhysicalBuffer <==> b in m.physicalBuffers
    ensures b in m.physicalBuffers ==> m.physicalBuffers[b].value == CurrentValue(m, b)
  {
    assert HomeAt(m, b);
    if b in m.physicalBuffers { assert ResidentAt(m, b); }
  }

  lemma RemovalFacts(m: Memory, o: Instr)
    requires CanRemoveBuffer(m, o)
    ensures o.v in m.now.source.live && m.IsBuffer(o.v) && o.v in m.pinCount && m.pinCount[o.v] == 0
    ensures o.v in m.maybePhysicalBuffer || o.v in m.swappedOutValue
    ensures StepNames(m.now.target, Redirected(m, o.v)).Some?
    ensures o.v in m.now.home && m.now.home[o.v] == Redirected(m, o.v).v
    ensures o.v in m.physicalBuffers <==> o.v in m.maybePhysicalBuffer
    ensures o.v in m.physicalBuffers ==> m.physicalBuffers[o.v].value == Redirected(m, o.v).v
  {
    HomeIsCurrent(m, o.v);
    IdleIsUnpinned(m, o.v);
    IdleHome(m.now, o.v);
  }

  ghost predicate Removable(m: Memory, o: Instr) {
    && o.Dealloc? && (o.v in m.maybePhysicalBuffer || o.v in m.swappedOutValue)
    && StepNames(m.now.source, o).Some? && StepNames(m.now.target, Redirected(m, o.v)).Some?
    && o.v in m.now.home && m.now.home[o.v] == Redirected(m, o.v).v
  }

  lemma RemovalSnapshot(m: Memory, o: Instr)
    requires Removable(m, o)
    ensures var n := BufferRemoved(m, o);
            && n.now.source.access == m.now.source.access && n.now.target.access == m.now.target.access
            && n.now.source.live == m.now.source.live - {o.v}
            && n.now.target.live == m.now.target.live - {m.now.home[o.v]}
            && n.now.source.inflight == m.now.source.inflight
            && n.now.home == m.now.home - {o.v}
            && n.now.pos == m.now.pos + 1
  {}

  lemma RemovalObjects(m: Memory, o: Instr)
    requires Removable(m, o)
    ensures var n := BufferRemoved(m, o);
            && SameTree(m, n) && n.physicalBuffers == m.physicalBuffers - {o.v}
            && n.pinCount == m.pinCount && n.held == m.held && n.pinnedBuffers == m.pinnedBuffers
            && n.totalPinnedSize == m.totalPinnedSize
            && n.flights == m.flights && n.invocationToVirtual == m.invocationToVirtual
  {
    hide StepNames;
  }

  lemma RemovalNames(m: Memory, n: Memory, b: Value)
    requires InvTree(m) && InvNames(m) && SameTree(m, n)
    requires n.now.source.access == m.now.source.access && n.now.target.access == m.now.target.access
    requires n.now.source.live == m.now.source.live - {b}
    requires n.nextValue == m.nextValue && n.firstFresh == m.firstFresh
    ensures InvTree(n) && InvNames(n)
  {
    TreeFrame(m, n);
    hide InvTree;
    Taken(m);
    forall v | v in n.size ensures NameAt(n, v) {
      assert NameAt(m, v);
    }
    hide NameAt;
    AreNames(n);
  }

  lemma RemovalHome(m: Memory, n: Memory, b: Value)
    requires InvHome(m) && Injective(m.now.home) && b in m.now.home
    requires n.now.source.live == m.now.source.live - {b} && n.now.home == m.now.home - {b}
    requires n.now.target.live == m.now.target.live - {m.now.home[b]}
    requires n.physicalBuffers == m.physicalBuffers - {b} && n.swappedOutValue == m.swappedOutValue
    ensures InvHome(n)
  {
    forall c | c in n.now.source.live ensures HomeAt(n, c) {
      assert HomeAt(m, c);
    }
  }

  lemma RemovalAlias(m: Memory, n: Memory, b: Value)
    requires InvTree(m) && InvAlias(m) && SameTree(m, n) && b !in m.parent
    requires n.now.source.access == m.now.source.access && n.now.target.access == m.now.target.access
    requires n.now.source.live == m.now.source.live - {b}
    requires n.physicalBuffers == m.physicalBuffers - {b} && n.maybePhysicalAlias == m.maybePhysicalAlias
    ensures InvAlias(n)
  {
    forall a | a in n.maybePhysicalAlias ensures AliasAt(n, a) {
      assert AliasAt(m, a);
      assert TreeAt(m, a);
      if m.root[a] != b {
        forall w | w in m.chain[a] && m.IsResident(w) ensures n.IsResident(w) {
          if w == b { BufferOfChain(m, a, w); }
        }
      }
    }
  }

  lemma RemovalResidency(m: Memory, o: Instr)
    requires InvPhysical(m) && Removable(m, o) && (o.v in m.physicalBuffers <==> o.v in m.maybePhysicalBuffer)
    requires o.v in m.physicalBuffers ==> DistinctFrom(m, o.v)
    ensures InvPhysical(BufferRemoved(m, o))
  {
    var n := BufferRemoved(m, o);
    if o.v in m.physicalBuffers {
      RemovalPhysical(m, n, o.v);
    } else {
      assert n.physicalBuffers == m.physicalBuffers;
      forall b | b in n.physicalBuffers ensures ResidentAt(n, b) {
        assert ResidentAt(m, b);
      }
      forall q ensures Backs(n, q) <==> Backs(m, q) {
      }
    }
  }

  lemma RemovalRest(m: Memory, o: Instr)
    requires InvPins(m) && InvFlights(m) && InvReplay(m) && Removable(m, o) && m.pinCount.Keys == m.size.Keys
    requires o.v in m.pinCount && m.pinCount[o.v] == 0
    requires o.v in m.physicalBuffers <==> o.v in m.maybePhysicalBuffer
    requires o.v in m.physicalBuffers ==> m.physicalBuffers[o.v].value == Redirected(m, o.v).v
    ensures InvPins(BufferRemoved(m, o)) && InvFlights(BufferRemoved(m, o)) && InvReplay(BufferRemoved(m, o))
  {
    RemovalReplay(m, o);
    RemovalSnapshot(m, o);
    RemovalObjects(m, o);
    hide BufferRemoved;
    hide Removable;
    hide StepNames;
    hide InvFlights;
    hide InvReplay;
    hide InvPins;
    PinsFrame(m, BufferRemoved(m, o));
    FlightsFrame(m, BufferRemoved(m, o));
  }

  lemma RemovalReplay(m: Memory, o: Instr)
    requires InvReplay(m) && Removable(m, o)
    requires o.v in m.physicalBuffers <==> o.v in m.maybePhysicalBuffer
    requires o.v in m.physicalBuffers ==> m.physicalBuffers[o.v].value == Redirected(m, o.v).v
    ensures InvReplay(BufferRemoved(m, o))
  {
    ReplayOneMore(m.pool.geo, m.out, Redirected(m, o.v));
  }

  lemma RemovalOrder(m: Memory, o: Instr)
    requires InvPhysical(m) && InvOrder(m) && Removable(m, o) && (o.v in m.physicalBuffers <==> o.v in m.maybePhysicalBuffer)
    requires o.v in m.physicalBuffers ==> DistinctFrom(m, o.v) && m.physicalBuffers[o.v].value == Redirected(m, o.v).v
    ensures InvOrder(BufferRemoved(m, o))
  {
    hide StepNames;
    hide Residents;
    hide InvPhysical;
    ResidentsNext(m.out, Redirected(m, o.v));
    if o.v in m.physicalBuffers { ListLoses(m, o.v); }
  }

  lemma RemovalCode(m: Memory, o: Instr)
    requires AtStep(m, o) && Removable(m, o)
    ensures var n := BufferRemoved(m, o);
            && n.out == m.out + [Redirected(m, o.v)] && n.size == m.size
            && n.original == m.original && n.now.pos == m.now.pos + 1
            && m.original[..n.now.pos] == m.original[..m.now.pos] + [o]
            && n.maybePhysicalAlias == m.maybePhysicalAlias
  {
    hide StepNames;
  }

  lemma RemovalStock(m: Memory, o: Instr)
    requires InvPhysical(m) && InvStock(m) && AtStep(m, o) && Removable(m, o)
    requires o.v in m.physicalBuffers <==> o.v in m.maybePhysicalBuffer
    requires o.v in m.physicalBuffers ==> DistinctFrom(m, o.v) && m.physicalBuffers[o.v].value == Redirected(m, o.v).v
    ensures InvStock(BufferRemoved(m, o))
  {
    hide BufferRemoved;
    hide InvPhysical;
    hide StepNames;
    hide InvOrder;
    hide InvClean;
    hide InvSizes;
    RemovalOrder(m, o);
    RemovalCode(m, o);
    RemovalSnapshot(m, o);
    SizesStep(m, BufferRemoved(m, o), o, Redirected(m, o.v));
    CleanRemoval(m, BufferRemoved(m, o), o.v);
  }

  lemma CleanRemoval(m: Memory, n: Memory, b: Value)
    requires InvClean(m) && b in m.now.home
    requires n.now.home == m.now.home - {b} && n.now.target.live == m.now.target.live - {m.now.home[b]}
    ensures InvClean(n)
  {
    forall x | x in n.now.target.live ensures IsHome(n.now, x) {
      assert IsHome(m.now, x);
      var c :| c in m.now.home && m.now.home[c] == x;
      assert n.now.home[c] == x;
    }
  }

  lemma RemovalTrace(m: Memory, o: Instr)
    requires InvTrace(m) && AtStep(m, o) && Removable(m, o)
    ensures InvTrace(BufferRemoved(m, o))
  {
    var n := BufferRemoved(m, o);
    assert Translated(m.now, o, Redirected(m, o.v), n.now);
    StepTrace(m, n, o, Redirected(m, o.v));
  }

  lemma RemovalNaming(m: Memory, o: Instr)
    requires InvTree(m) && InvNames(m) && InvHome(m) && InvAlias(m) && Removable(m, o) && o.v !in m.parent
    requires Injective(m.now.home)
    ensures var n := BufferRemoved(m, o); InvTree(n) && InvNames(n) && InvHome(n) && InvAlias(n)
  {
    var n := BufferRemoved(m, o);
    RemovalSnapshot(m, o);
    RemovalNames(m, n, o.v);
    RemovalHome(m, n, o.v);
    RemovalAlias(m, n, o.v);
  }

  /** Deallocating a buffer that no program in flight uses keeps the invariant, resident or not. */
  lemma BufferRemovedKeepsInv(m: Memory, o: Instr)
    requires CanRemoveBuffer(m, o)
    ensures Removable(m, o) && Inv(BufferRemoved(m, o))
  {
    RemovalFacts(m, o);
    if o.v in m.physicalBuffers { ResidentIsDistinct(m, o.v); }
    RemovalTrace(m, o);
    RemovalNaming(m, o);
    RemovalResidency(m, o);
    RemovalRest(m, o);
    RemovalStock(m, o);
  }
}
