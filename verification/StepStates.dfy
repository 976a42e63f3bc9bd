/** The state changes that stand for one instruction of the original program. */
module StepStates {
  import opened Basics
  import opened Ir
  import opened Pools
  import opened Replays
  import opened Refinement
  import opened AllocationOrders
  import opened ValueSizes
  import opened MemoryStates
  import opened SwapStates
  import opened AliasStates

  /** The instructions a program handed to the conversion consists of: buffers live in LRAM, and copies
      between buffers are operations like any other. */
  predicate IsSource(o: Instr) {
    match o
    case Alloc(_, space, _) => space == Lram
    case Dealloc(_, space) => space == Lram
    case Copy(_, _) => false
    case _ => true
  }

  /** The next original instruction is `o`, and it is not wrong. */
  ghost predicate AtStep(m: Memory, o: Instr) {
    && m.now.pos < |m.original|
    && m.original[m.now.pos] == o
    && IsSource(o)
    && StepNames(m.now.source, o).Some?
    && (o.Alloc? || o.Alias? ==> o.v < m.firstFresh)
  }

  ghost function Advanced(m: Memory, o: Instr, e: Instr, home: map<Value, Value>): Snapshot
    requires StepNames(m.now.source, o).Some? && StepNames(m.now.target, e).Some?
  {
    Snapshot(m.now.pos + 1, StepNames(m.now.source, o).value, StepNames(m.now.target, e).value, home)
  }

  lemma StepTrace(m: Memory, n: Memory, o: Instr, e: Instr)
    requires InvTrace(m) && AtStep(m, o)
    requires Translated(m.now, o, e, n.now) && StepNames(m.now.target, e) == Some(n.now.target)
    requires n.original == m.original && n.out == m.out + [e] && n.trace == m.trace + [n.now]
    ensures InvTrace(n)
  {
    CertifyNext(m.original, m.out, m.trace, e, n.now);
    LinkKeepsMatched(m.original, m.now, e, n.now);
  }

  // -------------------------------------------------------------------------
  // New objects

  /** `n` has one more object than `m`, named `v`; the others are as before. */
  ghost predicate Grown(m: Memory, n: Memory, v: Value) {
    && v !in m.size && n.size.Keys == m.size.Keys + {v}
    && n.children.Keys == n.size.Keys && n.chain.Keys == n.size.Keys && n.root.Keys == n.size.Keys
    && n.parent.Keys <= n.size.Keys
    && n.pinCount == m.pinCount[v := 0]
    && (forall w {:trigger SameObject(m, n, v, w)} :: w in m.size ==> SameObject(m, n, v, w))
  }

  ghost predicate SameObject(m: Memory, n: Memory, v: Value, w: Value) {
    && w in m.size && w in n.size && n.size[w] == m.size[w]
    && (w in n.parent <==> w in m.parent)
    && (w in m.parent ==> n.parent[w] == m.parent[w])
    && (w in m.view ==> w in n.view && n.view[w] == m.view[w])
    && w in m.chain && w in n.chain && n.chain[w] == m.chain[w]
    && w in m.root && w in n.root && n.root[w] == m.root[w]
    && w in m.children && w in n.children
    && forall c :: c in n.children[w] <==> c in m.children[w] || (c == v && v in n.parent && n.parent[v] == w)
  }

  lemma TreeGrown(m: Memory, n: Memory, v: Value)
    requires InvTree(m) && Grown(m, n, v) && TreeAt(n, v)
    ensures InvTree(n)
  {
    hide TreeAt;
    hide SameObject;
    forall w | w in m.size ensures TreeAt(n, w) {
      TreeAtGrown(m, n, v, w);
    }
  }

  lemma TreeAtGrown(m: Memory, n: Memory, v: Value, w: Value)
    requires InvTree(m) && Grown(m, n, v) && w in m.size
    ensures TreeAt(n, w)
  {
    assert TreeAt(m, w);
    assert SameObject(m, n, v, w);
    assert SameObject(m, n, v, m.root[w]);
    forall c | c in n.children[w] ensures c in n.parent && n.parent[c] == w {
      if c in m.children[w] {
        assert SameObject(m, n, v, c);
      }
    }
    if w in m.parent {
      assert SameObject(m, n, v, m.parent[w]);
    }
  }

  ghost predicate NamesGrow(m: Memory, n: Memory) {
    && AccessKept(m, n)
    && (forall w :: w in m.now.source.access ==>
          w in n.now.source.access && n.now.source.access[w] == m.now.source.access[w])
  }

  lemma NameAtGrown(m: Memory, n: Memory, v: Value, w: Value)
    requires NameAt(m, w) && SameObject(m, n, v, w) && NamesGrow(m, n) && n.firstFresh == m.firstFresh
    ensures NameAt(n, w)
  {}

  lemma LiveGrown(m: Memory, n: Memory, v: Value, b: Value)
    requires Grown(m, n, v) && b in m.size && m.IsBuffer(b)
    ensures n.IsBuffer(b)
  {
    assert SameObject(m, n, v, b);
  }

  ghost predicate LiveGrows(m: Memory, n: Memory, v: Value) {
    && (forall b :: b in n.now.source.live && b != v ==>
          b in m.now.source.live && n.now.source.live[b] == m.now.source.live[b])
    && (v in n.now.source.live ==> n.IsBuffer(v) && n.now.source.live[v] == Lram)
  }

  lemma NamesAtGrown(m: Memory, n: Memory, v: Value)
    requires InvNames(m) && Grown(m, n, v) && NamesGrow(m, n) && n.firstFresh == m.firstFresh && NameAt(n, v)
    ensures forall w {:trigger NameAt(n, w)} :: w in n.size ==> NameAt(n, w)
  {
    forall w | w in n.size ensures NameAt(n, w) {
      if w != v {
        assert NameAt(m, w);
        assert SameObject(m, n, v, w);
        NameAtGrown(m, n, v, w);
      }
    }
  }

  lemma LiveAllGrown(m: Memory, n: Memory, v: Value)
    requires InvNames(m) && Grown(m, n, v) && LiveGrows(m, n, v)
    ensures forall b :: b in n.now.source.live ==> n.IsBuffer(b) && n.now.source.live[b] == Lram
  {
    forall b | b in n.now.source.live ensures n.IsBuffer(b) && n.now.source.live[b] == Lram {
      if b != v {
        LiveGrown(m, n, v, b);
      }
    }
  }

  lemma NamesGrown(m: Memory, n: Memory, v: Value)
    requires InvNames(m) && Grown(m, n, v) && NamesGrow(m, n) && LiveGrows(m, n, v)
    requires n.firstFresh == m.firstFresh && n.nextValue == m.nextValue && NameAt(n, v)
    requires n.now.source.access.Keys == m.now.source.access.Keys + {v}
    requires n.now.target.access.Keys == m.now.target.access.Keys + {v}
    ensures InvNames(n)
  {
    assert v < n.firstFresh;
    hide NameAt;
    hide Grown;
    hide NamesGrow;
    hide LiveGrows;
    hide InvNames;
    NamesAtGrown(m, n, v);
    LiveAllGrown(m, n, v);
    TakenGrown(m, n, v);
    AreNames(n);
  }

  lemma AreNames(n: Memory)
    requires n.now.source.access.Keys == n.size.Keys && n.firstFresh <= n.nextValue
    requires forall w {:trigger NameAt(n, w)} :: w in n.size ==> NameAt(n, w)
    requires forall b :: b in n.now.source.live ==> n.IsBuffer(b) && n.now.source.live[b] == Lram
    requires forall w :: w in n.now.target.access ==> w < n.nextValue && (w < n.firstFresh ==> w in n.size)
    ensures InvNames(n)
  {
    hide NameAt;
  }

  lemma TakenGrown(m: Memory, n: Memory, v: Value)
    requires InvNames(m) && Grown(m, n, v) && v < m.firstFresh
    requires n.now.source.access.Keys == m.now.source.access.Keys + {v}
    requires n.now.target.access.Keys == m.now.target.access.Keys + {v}
    ensures n.now.source.access.Keys == n.size.Keys && m.firstFresh <= m.nextValue
    ensures forall w :: w in n.now.target.access ==> w < m.nextValue && (w < m.firstFresh ==> w in n.size)
  {
    Taken(m);
    hide InvNames;
    hide SameObject;
    OneMoreTaken(m.now.target.access.Keys, n.now.target.access.Keys, m.size.Keys, n.size.Keys, v, m.firstFresh, m.nextValue);
  }

  lemma Taken(m: Memory)
    requires InvNames(m)
    ensures m.now.source.access.Keys == m.size.Keys && m.firstFresh <= m.nextValue
    ensures forall w :: w in m.now.target.access.Keys ==> w < m.nextValue && (w < m.firstFresh ==> w in m.size.Keys)
  {
    hide NameAt;
  }

  lemma OneMoreTaken(
      taken: set<Value>, taken': set<Value>, objects: set<Value>, objects': set<Value>, v: Value, first: Value, next: Value)
    requires forall w :: w in taken ==> w < next && (w < first ==> w in objects)
    requires taken' == taken + {v} && objects' == objects + {v} && v < first <= next
    ensures forall w :: w in taken' ==> w < next && (w < first ==> w in objects')
  {}

  lemma PinnedSizesGrown(m: Memory, n: Memory, v: Value)
    requires Grown(m, n, v) && n.pinnedBuffers == m.pinnedBuffers
    requires forall p :: p in m.pinnedBuffers ==> p.owner in m.size
    ensures PinnedSizes(n) == PinnedSizes(m)
  {
    forall p | p in m.pinnedBuffers ensures n.size[p.owner] == m.size[p.owner] {
      assert SameObject(m, n, v, p.owner);
    }
  }

  lemma PinMarksGrown(m: Memory, n: Memory, v: Value)
    requires n.pinCount == m.pinCount[v := 0] && v !in m.physicalBuffers
    requires forall b :: b in m.physicalBuffers ==> b in n.physicalBuffers && n.physicalBuffers[b] == m.physicalBuffers[b]
    requires forall b :: b in n.physicalBuffers && b !in m.physicalBuffers ==> b == v
    ensures forall p :: ShouldBePinned(n, p) <==> ShouldBePinned(m, p)
  {}

  lemma PinsGrown(m: Memory, n: Memory, v: Value)
    requires InvPins(m) && InvTree(m) && Grown(m, n, v)
    requires n.held == m.held && n.pinnedBuffers == m.pinnedBuffers && n.totalPinnedSize == m.totalPinnedSize
    requires forall b :: b in m.physicalBuffers ==>
               b in m.size && b in n.physicalBuffers && n.physicalBuffers[b] == m.physicalBuffers[b]
    requires forall b :: b in n.physicalBuffers && b !in m.physicalBuffers ==> b == v
    ensures InvPins(n)
  {
    forall w | w in n.size ensures CountAt(n, w) {
      CountGrown(m, n, v, w);
    }
    PinMarksGrown(m, n, v);
    forall p | p in m.pinnedBuffers ensures p.owner in m.size {
      assert ShouldBePinned(m, p);
    }
    PinnedSizesGrown(m, n, v);
  }

  lemma ChainGrown(m: Memory, n: Memory, v: Value, w: Value)
    requires InvTree(m) && Grown(m, n, v) && w in m.size
    ensures w in m.chain && w in n.chain && n.chain[w] == m.chain[w] && v !in m.chain[w]
  {
    assert SameObject(m, n, v, w);
    assert TreeAt(m, w);
  }

  lemma CountGrown(m: Memory, n: Memory, v: Value, w: Value)
    requires InvPins(m) && InvTree(m) && Grown(m, n, v) && w in n.size && n.held == m.held
    requires forall b :: b in m.physicalBuffers ==> b in n.physicalBuffers
    ensures CountAt(n, w)
  {
    hide InvTree;
    hide ShouldBePinned;
    hide PinnedSizes;
    forall t | t in m.held
      ensures m.held[t] in m.chain && m.held[t] in n.chain && n.chain[m.held[t]] == m.chain[m.held[t]]
      ensures v !in m.chain[m.held[t]]
    {
      ChainGrown(m, n, v, m.held[t]);
    }
    if w == v {
      assert Through(n, w) == {};
    } else {
      assert CountAt(m, w) && SameObject(m, n, v, w);
      assert Through(n, w) == Through(m, w);
    }
  }

  lemma AliasGrown(m: Memory, n: Memory, v: Value, a: Value)
    requires InvTree(m) && AliasAt(m, a) && Grown(m, n, v) && NamesGrow(m, n) && a in m.size
    requires ResidentKept(m, n) && a in m.maybePhysicalAlias && n.maybePhysicalAlias[a] == m.maybePhysicalAlias[a]
    requires m.root[a] in n.now.source.live ==> m.root[a] in m.now.source.live
    ensures AliasAt(n, a)
  {
    assert TreeAt(m, a) && SameObject(m, n, v, a);
    if m.root[a] in n.now.source.live {
      forall w | w in m.chain[a] ensures n.IsResident(w) {
        assert SameObject(m, n, v, w);
      }
    }
  }

  // -------------------------------------------------------------------------
  // An alias is named

  ghost predicate HasPhysical(m: Memory, v: Value) {
    if v in m.parent then v in m.maybePhysicalAlias else v in m.maybePhysicalBuffer
  }

  /** The alias operation stays where it is; it is usable at once only if its base still has its first value. */
  ghost function AliasAdded(m: Memory, o: Instr): Memory
    requires o.Alias? && StepNames(m.now.source, o).Some? && StepNames(m.now.target, o).Some?
    requires o.base in m.children && o.base in m.chain && o.base in m.root
  {
    var now := Advanced(m, o, o, m.now.home);
    m.(
      size := m.size[o.v := o.bytes],
      parent := m.parent[o.v := o.base],
      view := m.view[o.v := o.view],
      children := m.children[o.v := []][o.base := m.children[o.base] + [o.v]],
      pinCount := m.pinCount[o.v := 0],
      chain := m.chain[o.v := {o.v} + m.chain[o.base]],
      root := m.root[o.v := m.root[o.base]],
      maybePhysicalAlias := if HasPhysical(m, o.base) && PhysicalValue(m, o.base) == o.base
                            then m.maybePhysicalAlias[o.v := o.v] else m.maybePhysicalAlias,
      found := FoundAs(m.found, o.v, o.base),
      out := m.out + [o], trace := m.trace + [now], now := now)
  }

  ghost predicate CanAddAlias(m: Memory, o: Instr) {
    && Inv(m) && o.Alias? && AtStep(m, o)
  }

  lemma AliasBaseFacts(m: Memory, o: Instr)
    requires InvNames(m) && o.Alias? && AtStep(m, o)
    ensures o.base in m.size && o.v !in m.size && o.v < m.firstFresh
  {}

  lemma AliasTargetFacts(m: Memory, o: Instr)
    requires InvNames(m) && Coherent(m.now.target) && o.Alias? && AtStep(m, o) && o.base in m.size && o.v !in m.size
    requires o.v < m.firstFresh
    ensures o.base in m.now.target.access && StepNames(m.now.target, o).Some?
  {
    assert NameAt(m, o.base);
    assert o.v !in m.now.target.access;
  }

  lemma AliasTreeFacts(m: Memory, o: Instr)
    requires InvTree(m) && InvAlias(m) && o.Alias? && o.base in m.size && o.v !in m.size
    ensures o.v !in m.chain[o.base] && m.chain[o.base] <= m.size.Keys && o.base in m.chain[o.base]
    ensures m.root[o.base] in m.chain[o.base] && m.root[o.base] !in m.parent
    ensures o.v !in m.parent && o.v !in m.maybePhysicalAlias
  {
    assert TreeAt(m, o.base);
    forall a | a in m.maybePhysicalAlias ensures a in m.parent {
      assert AliasAt(m, a);
    }
  }

  lemma AliasFacts(m: Memory, o: Instr)
    requires CanAddAlias(m, o)
    ensures o.base in m.size && o.base in m.children && o.base in m.chain && o.base in m.root && o.v !in m.size
    ensures o.base in m.now.target.access && StepNames(m.now.target, o).Some? && o.v < m.firstFresh
    ensures o.v !in m.chain[o.base] && m.chain[o.base] <= m.size.Keys && o.base in m.chain[o.base]
    ensures m.root[o.base] in m.chain[o.base] && m.root[o.base] !in m.parent
    ensures o.v !in m.parent && o.v !in m.maybePhysicalAlias
  {
    AliasBaseFacts(m, o);
    AliasTargetFacts(m, o);
    AliasTreeFacts(m, o);
  }

  lemma AliasAddedSame(m: Memory, o: Instr, w: Value)
    requires InvTree(m) && o.Alias? && o.v !in m.size && o.v !in m.parent && o.base in m.size && w in m.size
    requires StepNames(m.now.source, o).Some? && StepNames(m.now.target, o).Some?
    ensures SameObject(m, AliasAdded(m, o), o.v, w)
  {
    assert TreeAt(m, w);
  }

  lemma AliasAddedAt(m: Memory, o: Instr)
    requires InvTree(m) && o.Alias? && o.v !in m.size && o.v !in m.parent && o.base in m.size
    requires StepNames(m.now.source, o).Some? && StepNames(m.now.target, o).Some?
    requires o.v !in m.chain[o.base] && m.chain[o.base] <= m.size.Keys && o.base in m.chain[o.base]
    requires m.root[o.base] in m.chain[o.base] && m.root[o.base] !in m.parent
    ensures TreeAt(AliasAdded(m, o), o.v)
  {}

  lemma AliasAddedKeys(m: Memory, o: Instr)
    requires InvTree(m) && o.Alias? && o.base in m.size
    requires StepNames(m.now.source, o).Some? && StepNames(m.now.target, o).Some?
    ensures o.base in m.children && o.base in m.chain && o.base in m.root
    ensures var n := AliasAdded(m, o);
            && n.size.Keys == m.size.Keys + {o.v} && n.children.Keys == n.size.Keys && n.chain.Keys == n.size.Keys
            && n.root.Keys == n.size.Keys && n.parent.Keys <= n.size.Keys && n.pinCount == m.pinCount[o.v := 0]
  {
    hide TreeAt;
    hide StepNames;
    hide FoundAs;
    hide HasPhysical;
    hide PhysicalValue;
  }

  lemma AliasAddedGrows(m: Memory, o: Instr)
    requires InvTree(m) && o.Alias? && o.v !in m.size && o.v !in m.parent && o.base in m.size
    requires StepNames(m.now.source, o).Some? && StepNames(m.now.target, o).Some?
    ensures Grown(m, AliasAdded(m, o), o.v)
  {
    var n := AliasAdded(m, o);
    AliasAddedKeys(m, o);
    hide SameObject;
    hide InvTree;
    hide StepNames;
    hide AliasAdded;
    forall w | w in m.size ensures SameObject(m, n, o.v, w) {
      AliasAddedSame(m, o, w);
    }
  }

  lemma AliasAddedTree(m: Memory, o: Instr)
    requires CanAddAlias(m, o) && o.base in m.size && StepNames(m.now.target, o).Some?
    ensures InvTree(AliasAdded(m, o)) && Grown(m, AliasAdded(m, o), o.v)
  {
    AliasFacts(m, o);
    AliasAddedGrows(m, o);
    AliasAddedAt(m, o);
    TreeGrown(m, AliasAdded(m, o), o.v);
  }

  lemma AliasStep(n: Names, o: Instr)
    requires o.Alias? && StepNames(n, o).Some?
    ensures o.v !in n.access && o.v !in n.live && o.base in n.access && StepNames(n, o).value.live == n.live
    ensures StepNames(n, o).value.access ==
            n.access[o.v := Access(n.access[o.base].root, n.access[o.base].path + [o.view])]
  {}

  lemma AliasAddedNames(m: Memory, o: Instr)
    requires InvNames(m) && o.Alias? && o.base in m.size && o.v < m.firstFresh && o.v !in m.size
    requires o.base in m.children && o.base in m.chain && o.base in m.root
    requires StepNames(m.now.source, o).Some? && StepNames(m.now.target, o).Some?
    requires Grown(m, AliasAdded(m, o), o.v)
    ensures InvNames(AliasAdded(m, o)) && NamesGrow(m, AliasAdded(m, o))
  {
    AliasStep(m.now.source, o);
    hide StepNames;
    hide AliasAdded;
    assert NameAt(m, o.base);
    AliasIsNamed(m, o);
    AliasNamesGrow(m, o);
    hide NameAt;
    hide Grown;
    NamesGrown(m, AliasAdded(m, o), o.v);
  }

  lemma AliasIsNamed(m: Memory, o: Instr)
    requires o.Alias? && o.v < m.firstFresh && NameAt(m, o.base)
    requires o.base in m.children && o.base in m.chain && o.base in m.root
    requires StepNames(m.now.source, o).Some? && StepNames(m.now.target, o).Some?
    ensures var n := AliasAdded(m, o);
            && NameAt(n, o.v) && n.firstFresh == m.firstFresh && n.nextValue == m.nextValue
            && n.now.source.access.Keys == m.now.source.access.Keys + {o.v}
            && n.now.target.access.Keys == m.now.target.access.Keys + {o.v}
  {
    AliasStep(m.now.source, o);
    AliasStep(m.now.target, o);
    hide StepNames;
    hide FoundAs;
  }

  lemma AliasNamesGrow(m: Memory, o: Instr)
    requires InvNames(m) && o.Alias? && o.base in m.size && o.v !in m.size && o.v !in m.now.source.live
    requires o.base in m.children && o.base in m.chain && o.base in m.root
    requires StepNames(m.now.source, o).Some? && StepNames(m.now.target, o).Some?
    ensures NamesGrow(m, AliasAdded(m, o)) && LiveGrows(m, AliasAdded(m, o), o.v)
  {
    AliasStep(m.now.source, o);
    AliasStep(m.now.target, o);
    hide StepNames;
    hide FoundAs;
    hide InvNames;
  }

  lemma AliasAddedAlias(m: Memory, o: Instr)
    requires InvTree(m) && InvAlias(m) && o.Alias? && o.base in m.size && o.v !in m.maybePhysicalAlias
    requires StepNames(m.now.source, o).Some? && StepNames(m.now.target, o).Some?
    requires Grown(m, AliasAdded(m, o), o.v) && NamesGrow(m, AliasAdded(m, o))
    requires HasPhysical(m, o.base) && m.root[o.base] in m.now.source.live ==> Sees(m, o.base)
    ensures InvAlias(AliasAdded(m, o))
  {
    var n := AliasAdded(m, o);
    AliasAddedKeeps(m, o);
    AliasesAreObjects(m);
    hide StepNames;
    hide AliasAdded;
    hide AliasAt;
    hide InvTree;
    hide Sees;
    hide Grown;
    hide NamesGrow;
    forall a | a in n.maybePhysicalAlias ensures AliasAt(n, a) {
      if a == o.v {
        NewAliasSees(m, o);
      } else {
        assert AliasAt(m, a);
        AliasGrown(m, n, o.v, a);
      }
    }
  }

  lemma AliasesAreObjects(m: Memory)
    requires InvTree(m) && InvAlias(m)
    ensures forall a :: a in m.maybePhysicalAlias ==> a in m.size
  {
    forall a | a in m.maybePhysicalAlias ensures a in m.size { assert AliasAt(m, a); }
  }

  lemma AliasAddedKeeps(m: Memory, o: Instr)
    requires InvTree(m) && o.Alias? && o.base in m.size && o.v !in m.maybePhysicalAlias
    requires StepNames(m.now.source, o).Some? && StepNames(m.now.target, o).Some?
    ensures var n := AliasAdded(m, o);
            && ResidentKept(m, n) && n.now.source.live == m.now.source.live
            && (forall a :: a in n.maybePhysicalAlias && a != o.v ==>
                  a in m.maybePhysicalAlias && n.maybePhysicalAlias[a] == m.maybePhysicalAlias[a])
            && (o.v in n.maybePhysicalAlias ==> HasPhysical(m, o.base) && PhysicalValue(m, o.base) == o.base)
  {
    AliasStep(m.now.source, o);
    hide TreeAt;
    hide FoundAs;
  }

  lemma NewAliasFields(m: Memory, o: Instr)
    requires o.Alias? && StepNames(m.now.source, o).Some? && StepNames(m.now.target, o).Some?
    requires o.base in m.children && o.base in m.chain && o.base in m.root
    requires HasPhysical(m, o.base) && PhysicalValue(m, o.base) == o.base
    ensures var n := AliasAdded(m, o);
            && o.v in n.parent && n.root[o.v] == m.root[o.base] && n.chain[o.v] == {o.v} + m.chain[o.base]
            && o.v in n.maybePhysicalAlias && n.maybePhysicalAlias[o.v] == o.v
            && n.physicalBuffers == m.physicalBuffers && m.maybePhysicalAlias.Keys <= n.maybePhysicalAlias.Keys
            && n.now.source.live == m.now.source.live
            && o.base in m.now.source.access && o.base in m.now.target.access
            && n.now.source.access == m.now.source.access[o.v := Below(m.now.source.access[o.base], o.view)]
            && n.now.target.access == m.now.target.access[o.v := Below(m.now.target.access[o.base], o.view)]
  {
    AliasStep(m.now.source, o);
    AliasStep(m.now.target, o);
    hide StepNames;
    hide FoundAs;
  }

  ghost function Below(a: Access, view: View): Access {
    Access(a.root, a.path + [view])
  }

  lemma ChainStaysResident(m: Memory, n: Memory, v: Value, base: Value)
    requires InvTree(m) && Grown(m, n, v) && base in m.size && Sees(m, base)
    requires n.physicalBuffers == m.physicalBuffers && m.maybePhysicalAlias.Keys <= n.maybePhysicalAlias.Keys
    ensures forall w :: w in m.chain[base] ==> n.IsResident(w)
  {
    assert TreeAt(m, base);
    forall w | w in m.chain[base] ensures n.IsResident(w) {
      assert SameObject(m, n, v, w);
    }
  }

  lemma NewAliasSees(m: Memory, o: Instr)
    requires InvTree(m) && o.Alias? && o.base in m.size
    requires StepNames(m.now.source, o).Some? && StepNames(m.now.target, o).Some?
    requires Grown(m, AliasAdded(m, o), o.v)
    requires HasPhysical(m, o.base) && PhysicalValue(m, o.base) == o.base
    requires m.root[o.base] in m.now.source.live ==> Sees(m, o.base)
    ensures AliasAt(AliasAdded(m, o), o.v)
  {
    var n := AliasAdded(m, o);
    NewAliasFields(m, o);
    hide AliasAdded;
    hide StepNames;
    hide TreeAt;
    hide Grown;
    if m.root[o.base] in m.now.source.live {
      ChainStaysResident(m, n, o.v, o.base);
      hide InvTree;
    }
  }

  lemma AliasAddedPins(m: Memory, o: Instr)
    requires InvTree(m) && InvPhysical(m) && InvPins(m)
    requires o.Alias? && o.base in m.size && StepNames(m.now.source, o).Some? && StepNames(m.now.target, o).Some?
    requires Grown(m, AliasAdded(m, o), o.v)
    ensures InvPins(AliasAdded(m, o))
  {
    forall b | b in m.physicalBuffers ensures b in m.size {
      assert ResidentAt(m, b);
    }
    PinsGrown(m, AliasAdded(m, o), o.v);
  }

  lemma AliasAddedRest(m: Memory, o: Instr)
    requires InvHome(m) && InvFlights(m) && InvReplay(m)
    requires o.Alias? && StepNames(m.now.source, o).Some? && StepNames(m.now.target, o).Some?
    requires o.base in m.children && o.base in m.chain && o.base in m.root && o.base in m.size
    ensures var n := AliasAdded(m, o); InvHome(n) && InvFlights(n) && InvReplay(n)
  {
    var n := AliasAdded(m, o);
    HomeGrown(m, n);
    FlightsFrame(m, n);
    ReplayOneMore(m.pool.geo, m.out, o);
  }

  lemma AliasAddedOrder(m: Memory, o: Instr)
    requires InvOrder(m) && o.Alias? && StepNames(m.now.source, o).Some? && StepNames(m.now.target, o).Some?
    requires o.base in m.children && o.base in m.chain && o.base in m.root
    ensures InvOrder(AliasAdded(m, o))
  {
    hide StepNames;
    hide Residents;
    ResidentsNext(m.out, o);
  }

  lemma AliasAddedCode(m: Memory, o: Instr)
    requires AtStep(m, o) && o.Alias? && StepNames(m.now.source, o).Some? && StepNames(m.now.target, o).Some?
    requires o.base in m.children && o.base in m.chain && o.base in m.root
    ensures var n := AliasAdded(m, o);
            && n.out == m.out + [o] && n.size == m.size[o.v := o.bytes]
            && n.original == m.original && n.now.pos == m.now.pos + 1
            && m.original[..n.now.pos] == m.original[..m.now.pos] + [o]
            && n.now.home == m.now.home && n.now.target.live == m.now.target.live
            && n.now.target.access.Keys == m.now.target.access.Keys + {o.v}
            && (n.maybePhysicalAlias == m.maybePhysicalAlias || n.maybePhysicalAlias == m.maybePhysicalAlias[o.v := o.v])
  {
    AliasStep(m.now.target, o);
    hide StepNames;
  }

  lemma AliasAddedStock(m: Memory, o: Instr)
    requires InvStock(m) && AtStep(m, o) && o.Alias? && StepNames(m.now.source, o).Some? && StepNames(m.now.target, o).Some?
    requires o.base in m.children && o.base in m.chain && o.base in m.root
    requires o.v !in m.now.target.access && o.v !in m.size
    ensures InvStock(AliasAdded(m, o))
  {
    hide AliasAdded;
    hide StepNames;
    hide InvOrder;
    hide InvClean;
    hide InvSizes;
    AliasAddedOrder(m, o);
    AliasAddedCode(m, o);
    SizesStep(m, AliasAdded(m, o), o, o);
    CleanSame(m, AliasAdded(m, o));
  }

  lemma HomeGrown(m: Memory, n: Memory)
    requires InvHome(m) && n.now.source.live == m.now.source.live && n.now.home == m.now.home
    requires n.now.target.live == m.now.target.live
    requires n.physicalBuffers == m.physicalBuffers && n.swappedOutValue == m.swappedOutValue
    ensures InvHome(n)
  {
    forall b | b in n.now.source.live ensures HomeAt(n, b) {
      assert HomeAt(m, b);
    }
  }

  lemma PhysicalGrown(m: Memory, n: Memory, v: Value)
    requires InvPhysical(m) && Grown(m, n, v)
    requires n.now.source.live == m.now.source.live
    requires n.physicalBuffers == m.physicalBuffers && n.lastUsed == m.lastUsed
    requires n.maybePhysicalBuffer == m.maybePhysicalBuffer && n.pool == m.pool
    ensures InvPhysical(n)
  {
    forall b | b in n.physicalBuffers ensures ResidentAt(n, b) {
      assert ResidentAt(m, b) && SameObject(m, n, v, b);
    }
    forall q ensures Backs(n, q) <==> Backs(m, q) {
    }
  }

  lemma BaseSees(m: Memory, o: Instr)
    requires CanAddAlias(m, o) && o.base in m.size && HasPhysical(m, o.base) && m.root[o.base] in m.now.source.live
    ensures Sees(m, o.base)
  {
    assert TreeAt(m, o.base);
    if o.base !in m.parent {
      BufferOfChain(m, o.base, o.base);
    }
    ResidentSees(m, o.base);
  }

  /** Naming an alias keeps the invariant. */
  lemma AliasAddedKeepsInv(m: Memory, o: Instr)
    requires CanAddAlias(m, o)
    ensures o.base in m.size && o.base in m.children && o.base in m.chain && o.base in m.root
    ensures StepNames(m.now.target, o).Some?
    ensures Inv(AliasAdded(m, o))
  {
    hide InvTree;
    hide InvTrace;
    hide InvNames;
    hide InvHome;
    hide InvAlias;
    hide InvPhysical;
    hide InvPins;
    hide InvFlights;
    hide InvReplay;
    hide InvStock;
    AliasFacts(m, o);
    AliasAddedTrace(m, o);
    AliasAddedTree(m, o);
    AliasAddedPhysical(m, o);
    if HasPhysical(m, o.base) && m.root[o.base] in m.now.source.live {
      BaseSees(m, o);
    }
    hide AliasAdded;
    hide StepNames;
    hide Grown;
    AliasAddedNames(m, o);
    AliasAddedAlias(m, o);
    AliasAddedPins(m, o);
    AliasAddedRest(m, o);
    AliasAddedStock(m, o);
  }

  lemma AliasAddedTrace(m: Memory, o: Instr)
    requires InvTrace(m) && AtStep(m, o) && o.Alias? && StepNames(m.now.target, o).Some?
    requires o.base in m.children && o.base in m.chain && o.base in m.root
    ensures InvTrace(AliasAdded(m, o))
  {
    AliasStep(m.now.source, o);
    AliasStep(m.now.target, o);
    hide StepNames;
    hide FoundAs;
    StepTrace(m, AliasAdded(m, o), o, o);
  }

  lemma AliasAddedPhysical(m: Memory, o: Instr)
    requires InvPhysical(m) && o.Alias? && StepNames(m.now.source, o).Some? && StepNames(m.now.target, o).Some?
    requires o.base in m.children && o.base in m.chain && o.base in m.root && Grown(m, AliasAdded(m, o), o.v)
    ensures InvPhysical(AliasAdded(m, o))
  {
    AliasStep(m.now.source, o);
    hide StepNames;
    hide FoundAs;
    hide InvPhysical;
    hide Grown;
    PhysicalGrown(m, AliasAdded(m, o), o.v);
  }
}
