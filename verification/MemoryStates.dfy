/** The state of the virtual memory during the conversion of a program, the invariant it keeps,
    and the state changes of swapping, pinning, aliasing and allocation. */
module MemoryStates {
  import opened Basics
  import opened Totals
  import opened Ir
  import opened Pools
  import opened Replays
  import opened Refinement
  import opened AllocationOrders
  import opened ValueSizes

  /** A buffer of the small memory: the value that names it, the virtual buffer it backs, its address. */
  datatype PhysicalBuffer = PhysicalBuffer(value: Value, owner: Value, address: nat)

  datatype Memory = Memory(
    // the program being converted; its values are below `firstFresh`
    original: seq<Instr>,
    firstFresh: Value,
    // virtual objects: buffers and aliases, by the value of the original program
    size: map<Value, nat>,
    parent: map<Value, Value>,
    view: map<Value, View>,
    children: map<Value, seq<Value>>,
    pinCount: map<Value, nat>,
    maybePhysicalBuffer: map<Value, PhysicalBuffer>,
    swappedOutValue: map<Value, Value>,
    maybePhysicalAlias: map<Value, Value>,
    // physical memory
    physicalBuffers: map<Value, PhysicalBuffer>,
    lastUsed: seq<PhysicalBuffer>,
    pinnedBuffers: map<PhysicalBuffer, nat>,
    totalPinnedSize: int,
    pool: PoolState,
    // the operands of the programs in flight
    invocationToVirtual: map<Invocation, seq<Value>>,
    // the converted program so far
    nextValue: Value,
    out: seq<Instr>,
    // bookkeeping of the proof: the buffer and the chain of every alias, outstanding pins and the ones held by
    // programs in flight, the address of every physical value ever made, the certificate and its last snapshot
    root: map<Value, Value>,
    chain: map<Value, set<Value>>,
    held: map<nat, Value>,
    flights: map<Invocation, seq<nat>>,
    found: map<Value, nat>,
    trace: seq<Snapshot>,
    now: Snapshot)
  {
    ghost predicate IsBuffer(v: Value) {
      v in size && v !in parent
    }

    ghost predicate IsResident(v: Value) {
      if v in parent then v in maybePhysicalAlias else v in physicalBuffers
    }
  }

  // -------------------------------------------------------------------------
  // The invariant
  //
  // Each part quantifies over one predicate about a single object, which is also its trigger.
  // The predicates written as `true == (...)` are passed on in one piece by the verifier.

  /** A buffer is its own root; an alias has the root of its parent, and its chain leads to it. */
  ghost predicate TreeAt(m: Memory, v: Value) {
    && v in m.children && v in m.pinCount && v in m.chain && v in m.root
    && v in m.chain[v] && m.chain[v] <= m.size.Keys
    && m.root[v] in m.chain[v] && m.root[v] !in m.parent
    && (forall c :: c in m.children[v] ==> c in m.parent && m.parent[c] == v)
    && if v in m.parent then
         var p := m.parent[v];
         && v in m.view
         && p in m.size && p in m.chain && p in m.root && p in m.children
         && m.chain[v] == {v} + m.chain[p] && v !in m.chain[p]
         && m.root[v] == m.root[p]
         && v in m.children[p]
       else
         m.chain[v] == {v}
  }

  ghost predicate InvTree(m: Memory) {
    true == (
      && m.parent.Keys <= m.size.Keys
      && m.children.Keys == m.size.Keys && m.pinCount.Keys == m.size.Keys
      && m.chain.Keys == m.size.Keys && m.root.Keys == m.size.Keys
      && (forall v {:trigger TreeAt(m, v)} :: v in m.size ==> TreeAt(m, v)))
  }

  ghost predicate InvTrace(m: Memory) {
    && Certified(m.original, m.out, m.trace)
    && m.trace[|m.out|] == m.now
    && Matched(m.now)
  }

  ghost predicate NameAt(m: Memory, v: Value) {
    var s := m.now;
    && v < m.firstFresh
    && v in s.target.access && v in s.source.access && v in m.root
    && s.source.access[v].root == m.root[v]
    && if v in m.parent then
         && m.parent[v] in s.source.access && v in m.view
         && s.source.access[v].path == s.source.access[m.parent[v]].path + [m.view[v]]
       else
         s.source.access[v].path == []
  }

  /** The virtual objects are the values of the original program so far, and no name is taken twice. */
  ghost predicate InvNames(m: Memory) {
    var s := m.now;
    && s.source.access.Keys == m.size.Keys
    && (forall v {:trigger NameAt(m, v)} :: v in m.size ==> NameAt(m, v))
    && (forall b :: b in s.source.live ==> m.IsBuffer(b) && s.source.live[b] == Lram)
    && (forall v :: v in s.target.access ==> v < m.nextValue && (v < m.firstFresh ==> v in m.size))
    && m.firstFresh <= m.nextValue
  }

  /** The contents of a live buffer are in its physical buffer or else in its swap buffer. */
  ghost predicate HomeAt(m: Memory, b: Value) {
    var s := m.now;
    && b in s.home && s.home[b] in s.target.live
    && if b in m.physicalBuffers then
         s.home[b] == m.physicalBuffers[b].value && s.target.live[s.home[b]] == Lram
       else
         b in m.swappedOutValue && s.home[b] == m.swappedOutValue[b] && s.target.live[s.home[b]] == Xram
  }

  /** A valid alias of a live buffer: its whole chain is resident, and it sees its part of the physical buffer. */
  ghost predicate AliasAt(m: Memory, a: Value) {
    var s := m.now;
    && a in m.parent && a in m.root && a in m.chain && a in m.maybePhysicalAlias
    && (m.root[a] in s.source.live ==>
          && m.root[a] in m.physicalBuffers
          && (forall w :: w in m.chain[a] ==> m.IsResident(w))
          && a in s.source.access && m.maybePhysicalAlias[a] in s.target.access
          && s.target.access[m.maybePhysicalAlias[a]] == Access(m.physicalBuffers[m.root[a]].value, s.source.access[a].path))
  }

  ghost predicate InvHome(m: Memory) {
    forall b {:trigger HomeAt(m, b)} :: b in m.now.source.live ==> HomeAt(m, b)
  }

  ghost predicate InvAlias(m: Memory) {
    forall a {:trigger AliasAt(m, a)} :: a in m.maybePhysicalAlias ==> AliasAt(m, a)
  }

  ghost predicate NoDuplicates<T>(s: seq<T>) {
    forall i, j :: 0 <= i < j < |s| ==> s[i] != s[j]
  }

  ghost predicate Backs(m: Memory, p: PhysicalBuffer) {
    p.owner in m.physicalBuffers && m.physicalBuffers[p.owner] == p
  }

  ghost predicate ResidentAt(m: Memory, b: Value) {
    && b in m.size && b in m.physicalBuffers && m.pool.geo.wordBytes > 0
    && var p := m.physicalBuffers[b];
       && p.owner == b
       && b in m.maybePhysicalBuffer && m.maybePhysicalBuffer[b] == p
       && p.value in m.pool.live
       && m.pool.live[p.value].size == m.pool.geo.WordsFor(m.size[b])
       && p.address == m.pool.live[p.value].base * m.pool.geo.wordBytes
  }

  /** Resident virtual buffers, physical buffers, eviction list and pool allocations correspond one to one. */
  ghost predicate InvPhysical(m: Memory) {
    && m.physicalBuffers.Keys <= m.now.source.live.Keys
    && (forall b {:trigger ResidentAt(m, b)} :: b in m.physicalBuffers ==> ResidentAt(m, b))
    && (forall b :: b in m.now.source.live && b in m.maybePhysicalBuffer ==> b in m.physicalBuffers)
    && NoDuplicates(m.lastUsed)
    && (forall p :: p in m.lastUsed <==> Backs(m, p))
    && Exact(m.pool)
    && (forall v :: v in m.pool.live ==> exists b :: b in m.physicalBuffers && m.physicalBuffers[b].value == v)
  }

  /** The outstanding pins on `v` itself or on an alias of it. */
  ghost function Through(m: Memory, v: Value): set<nat> {
    set t | t in m.held && m.held[t] in m.chain && v in m.chain[m.held[t]]
  }

  ghost function PinnedSizes(m: Memory): map<PhysicalBuffer, nat> {
    map p | p in m.pinnedBuffers :: if p.owner in m.size then m.size[p.owner] else 0
  }

  /** A buffer with a pin on it is resident. */
  ghost predicate CountAt(m: Memory, v: Value) {
    && v in m.pinCount && m.pinCount[v] == |Through(m, v)|
    && (v !in m.parent && m.pinCount[v] > 0 ==> v in m.physicalBuffers)
  }

  ghost predicate ShouldBePinned(m: Memory, p: PhysicalBuffer) {
    Backs(m, p) && p.owner in m.pinCount && m.pinCount[p.owner] > 0
  }

  /** The pin count of an object counts the pins on it and on its aliases, direct or not; the pinned
      physical buffers are exactly those whose virtual buffer has a positive count. */
  ghost predicate InvPins(m: Memory) {
    && (forall t :: t in m.held ==> m.held[t] in m.size)
    && (forall v {:trigger CountAt(m, v)} :: v in m.size ==> CountAt(m, v))
    && (forall p :: p in m.pinnedBuffers <==> ShouldBePinned(m, p))
    && (forall p :: p in m.pinnedBuffers ==> m.pinnedBuffers[p] == 1)
    && m.totalPinnedSize == Total(PinnedSizes(m))
  }

  /** Every operand of a program in flight holds a pin of its own. */
  ghost predicate FlightAt(m: Memory, inv: Invocation, i: nat) {
    var s := m.now;
    && inv in m.flights && inv in m.invocationToVirtual && inv in s.source.inflight
    && i < |m.flights[inv]| && i < |m.invocationToVirtual[inv]| && i < |s.source.inflight[inv]|
    && m.flights[inv][i] in m.held
    && m.held[m.flights[inv][i]] == m.invocationToVirtual[inv][i]
    && m.invocationToVirtual[inv][i] in s.source.access
    && s.source.inflight[inv][i] == s.source.access[m.invocationToVirtual[inv][i]]
  }

  ghost predicate InvFlights(m: Memory) {
    var s := m.now;
    && m.flights.Keys == s.source.inflight.Keys && m.invocationToVirtual.Keys == s.source.inflight.Keys
    && (forall inv :: inv in m.flights ==> |m.flights[inv]| == |m.invocationToVirtual[inv]| == |s.source.inflight[inv]|)
    && (forall inv, i {:trigger FlightAt(m, inv, i)} ::
          inv in s.source.inflight && 0 <= i < |s.source.inflight[inv]| ==> FlightAt(m, inv, i))
    && (forall inv, i, inv', i' :: Same(m.flights, inv, i, inv', i') ==> inv == inv' && i == i')
  }

  ghost predicate Same(flights: map<Invocation, seq<nat>>, inv: Invocation, i: nat, inv': Invocation, i': nat) {
    && inv in flights && inv' in flights
    && i < |flights[inv]| && i' < |flights[inv']|
    && flights[inv][i] == flights[inv'][i']
  }

  /** Replaying the program so far gives the current pool and every address found so far; whatever the program
      can still name has one. */
  ghost predicate InvReplay(m: Memory) {
    && m.pool.geo.Valid()
    && ReplayOf(m.pool.geo, m.out).Some?
    && ReplayOf(m.pool.geo, m.out).value.pool == m.pool
    && ReplayOf(m.pool.geo, m.out).value.address == m.found
    && (forall v :: v in m.size ==> v in m.found)
    && (forall b :: b in m.physicalBuffers ==> m.physicalBuffers[b].value in m.found)
    && (forall a :: a in m.maybePhysicalAlias ==> m.maybePhysicalAlias[a] in m.found)
  }

  ghost function ValuesOf(ps: seq<PhysicalBuffer>): (r: seq<Value>)
    ensures |r| == |ps| && forall i :: 0 <= i < |ps| ==> r[i] == ps[i].value
  {
    seq(|ps|, i requires 0 <= i < |ps| => ps[i].value)
  }

  /** The eviction list is in the order in which the code so far has allocated the buffers. */
  ghost predicate InvOrder(m: Memory) {
    ValuesOf(m.lastUsed) == Residents(m.out)
  }

  ghost predicate IsHome(s: Snapshot, x: Value) {
    exists b :: b in s.home && s.home[b] == x
  }

  /** Nothing is allocated but the homes of the live buffers. */
  ghost predicate InvClean(m: Memory) {
    forall x :: x in m.now.target.live ==> IsHome(m.now, x)
  }

  /** Value `x` of the code is as large as object `v`. */
  ghost predicate SizedAs(m: Memory, x: Value, v: Value) {
    x in SizesAfter(m.out) && v in m.size && SizesAfter(m.out)[x] == m.size[v]
  }

  /** The sizes of the objects are those of the original program, what stands for an object in the code is as large, and
      every use of a value so far was of the same size. */
  ghost predicate InvSizes(m: Memory) {
    && m.now.pos <= |m.original| && SizesAfter(m.original[..m.now.pos]) == m.size
    && SizesAfter(m.out).Keys == m.now.target.access.Keys
    && CopiesFit(m.out) && OperandSizes(m.out) == OperandSizes(m.original[..m.now.pos])
    && (forall b :: b in m.now.home ==> SizedAs(m, m.now.home[b], b))
    && (forall a :: a in m.maybePhysicalAlias ==> SizedAs(m, m.maybePhysicalAlias[a], a))
  }

  ghost predicate InvStock(m: Memory) {
    true == (InvOrder(m) && InvClean(m) && InvSizes(m))
  }

  ghost predicate Inv(m: Memory) {
    true == (
      InvTree(m) && InvTrace(m) && InvNames(m) && InvHome(m) && InvAlias(m) && InvPhysical(m) && InvPins(m) && InvFlights(m)
      && InvReplay(m) && InvStock(m))
  }

  // -------------------------------------------------------------------------
  // What the invariant says about pins

  lemma PinCounts(m: Memory, v: Value, t: nat)
    requires InvPins(m) && v in m.size && v in m.pinCount && t in Through(m, v)
    ensures m.pinCount[v] > 0
  {
    assert CountAt(m, v);
  }

  lemma FlightHolds(m: Memory, b: Value) returns (t: nat)
    requires InvFlights(m) && Busy(m.now.source, b)
    ensures t in m.held && m.held[t] in m.now.source.access && m.now.source.access[m.held[t]].root == b
  {
    var s := m.now;
    var inv :| inv in s.source.inflight && exists i ::
          0 <= i < |s.source.inflight[inv]| && s.source.inflight[inv][i].root == b;
    var i :| 0 <= i < |s.source.inflight[inv]| && s.source.inflight[inv][i].root == b;
    assert FlightAt(m, inv, i);
    t := m.flights[inv][i];
  }

  lemma RootOfName(m: Memory, v: Value)
    requires InvTree(m) && InvNames(m) && v in m.now.source.access
    ensures v in m.size && m.root[v] == m.now.source.access[v].root && m.root[v] in m.chain[v] && m.root[v] in m.size
  {
    assert NameAt(m, v) && TreeAt(m, v);
  }

  /** A buffer used by a program in flight is pinned. */
  lemma BusyIsPinned(m: Memory, b: Value)
    requires Inv(m) && Busy(m.now.source, b)
    ensures b in m.size && m.pinCount[b] > 0
  {
    hide InvTrace;
    hide InvHome;
    hide InvAlias;
    hide InvPhysical;
    hide InvReplay;
    var t := FlightHolds(m, b);
    hide InvFlights;
    hide Busy;
    RootOfName(m, m.held[t]);
    hide InvNames;
    assert t in Through(m, b);
    PinCounts(m, b, t);
  }

  /** Nothing but the programs in flight holds a pin. */
  ghost predicate Settled(m: Memory) {
    forall t :: t in m.held ==> exists inv, i :: inv in m.flights && 0 <= i < |m.flights[inv]| && m.flights[inv][i] == t
  }

  lemma IdleIsUnpinned(m: Memory, b: Value)
    requires Inv(m) && Settled(m) && m.IsBuffer(b) && !Busy(m.now.source, b)
    ensures m.pinCount[b] == 0
  {
    forall t | t in m.held && m.held[t] in m.chain && b in m.chain[m.held[t]] ensures false {
      var inv, i :| inv in m.flights && 0 <= i < |m.flights[inv]| && m.flights[inv][i] == t;
      assert FlightAt(m, inv, i);
      assert NameAt(m, m.held[t]);
      BufferOfChain(m, m.held[t], b);
      assert false;
    }
    assert Through(m, b) == {};
    assert CountAt(m, b);
  }

  /** The only buffer in a chain is its root. */
  lemma {:induction false} BufferOfChain(m: Memory, v: Value, b: Value)
    requires InvTree(m) && v in m.size && b in m.chain[v] && b !in m.parent
    ensures m.root[v] == b
    decreases m.chain[v]
  {
    assert TreeAt(m, v);
    if v in m.parent {
      BufferOfChain(m, m.parent[v], b);
    }
  }

  /** All objects of a chain have the same root. */
  lemma {:induction false} RootOfChain(m: Memory, v: Value, w: Value)
    requires InvTree(m) && v in m.size && w in m.chain[v]
    ensures w in m.size && m.root[w] == m.root[v]
    ensures m.chain[w] <= m.chain[v]
    decreases m.chain[v]
  {
    assert TreeAt(m, v);
    if w != v {
      RootOfChain(m, m.parent[v], w);
    }
  }

  // -------------------------------------------------------------------------
  // Sizes and leaks

  /** What had a size keeps it, and what is new in the code is as large as what it stands for. */
  lemma SizesGrow(m: Memory, n: Memory)
    requires InvSizes(m)
    requires n.now.pos <= |n.original| && SizesAfter(n.original[..n.now.pos]) == n.size
    requires SizesAfter(n.out).Keys == n.now.target.access.Keys
    requires CopiesFit(n.out) && OperandSizes(n.out) == OperandSizes(n.original[..n.now.pos])
    requires forall x :: x in SizesAfter(m.out) ==> x in SizesAfter(n.out) && SizesAfter(n.out)[x] == SizesAfter(m.out)[x]
    requires forall v :: v in m.size ==> v in n.size && n.size[v] == m.size[v]
    requires forall b :: b in n.now.home ==>
              (b in m.now.home && n.now.home[b] == m.now.home[b]) || SizedAs(n, n.now.home[b], b)
    requires forall a :: a in n.maybePhysicalAlias ==>
               (a in m.maybePhysicalAlias && n.maybePhysicalAlias[a] == m.maybePhysicalAlias[a])
               || SizedAs(n, n.maybePhysicalAlias[a], a)
    ensures InvSizes(n)
  {
    hide SizesAfter;
    hide CopiesFit;
    hide OperandSizes;
    forall b | b in n.now.home ensures SizedAs(n, n.now.home[b], b) {
      if b in m.now.home && n.now.home[b] == m.now.home[b] { assert SizedAs(m, m.now.home[b], b); }
    }
    forall a | a in n.maybePhysicalAlias ensures SizedAs(n, n.maybePhysicalAlias[a], a) {
      if a in m.maybePhysicalAlias && n.maybePhysicalAlias[a] == m.maybePhysicalAlias[a] {
        assert SizedAs(m, m.maybePhysicalAlias[a], a);
      }
    }
  }

  /** A buffer is moved to `x`. */
  lemma SizesMove(m: Memory, n: Memory, b: Value, x: Value, space: Space, other: Space)
    requires InvSizes(m) && b in m.now.home && b in m.size && x !in m.now.target.access
    requires n.out == m.out + [Alloc(x, space, m.size[b])] + [Copy(x, m.now.home[b])] + [Dealloc(m.now.home[b], other)]
    requires n.size == m.size && n.original == m.original && n.now.pos == m.now.pos
    requires n.now.home == m.now.home[b := x] && n.now.target.access.Keys == m.now.target.access.Keys + {x}
    requires forall a :: a in n.maybePhysicalAlias ==>
               a in m.maybePhysicalAlias && n.maybePhysicalAlias[a] == m.maybePhysicalAlias[a]
    ensures InvSizes(n)
  {
    hide SizesAfter;
    hide CopiesFit;
    hide OperandSizes;
    assert SizedAs(m, m.now.home[b], b);
    MoveSizes(m.out, x, space, m.size[b], m.now.home[b], other);
    SizesGrow(m, n);
  }

  /** An original instruction that is neither an operation nor a start is done by `e`. */
  lemma SizesStep(m: Memory, n: Memory, o: Instr, e: Instr)
    requires InvSizes(m) && !o.Copy? && !o.Op? && !o.Start? && !e.Copy? && !e.Op? && !e.Start?
    requires (o.Alloc? || o.Alias?) ==> e == o && o.v !in m.now.target.access && o.v !in m.size
    requires !(o.Alloc? || o.Alias?) ==> !(e.Alloc? || e.Alias?)
    requires n.out == m.out + [e] && n.size == if o.Alloc? || o.Alias? then m.size[o.v := o.bytes] else m.size
    requires n.original == m.original && m.now.pos < |m.original| && m.original[m.now.pos] == o && n.now.pos == m.now.pos + 1
    requires n.now.target.access.Keys == m.now.target.access.Keys + if o.Alloc? || o.Alias? then {o.v} else {}
    requires forall b :: b in n.now.home ==>
               (b in m.now.home && n.now.home[b] == m.now.home[b]) || (o.Alloc? && b == o.v && n.now.home[b] == o.v)
    requires forall a :: a in n.maybePhysicalAlias ==>
               (a in m.maybePhysicalAlias && n.maybePhysicalAlias[a] == m.maybePhysicalAlias[a])
               || (o.Alias? && a == o.v && n.maybePhysicalAlias[a] == o.v)
    ensures InvSizes(n)
  {
    hide SizesAfter;
    hide CopiesFit;
    hide OperandSizes;
    assert m.original[..n.now.pos] == m.original[..m.now.pos] + [o];
    StepSizes(m.out, e);
    StepSizes(m.original[..m.now.pos], o);
    SizesGrow(m, n);
  }

  /** Where homes and live buffers are the same, nothing is left behind. */
  lemma CleanSame(m: Memory, n: Memory)
    requires InvClean(m) && n.now.home == m.now.home && n.now.target.live == m.now.target.live
    ensures InvClean(n)
  {
    forall x | x in n.now.target.live ensures IsHome(n.now, x) { assert IsHome(m.now, x); }
  }

  /** Moving a buffer leaves nothing behind. */
  lemma CleanMove(m: Memory, n: Memory, b: Value, x: Value)
    requires InvClean(m) && b in m.now.home
    requires n.now.target.live.Keys == m.now.target.live.Keys + {x} - {m.now.home[b]} && n.now.home == m.now.home[b := x]
    ensures InvClean(n)
  {
    forall y | y in n.now.target.live ensures IsHome(n.now, y) {
      if y == x {
        assert n.now.home[b] == x;
      } else {
        assert IsHome(m.now, y);
        var c :| c in m.now.home && m.now.home[c] == y;
        assert n.now.home[c] == y;
      }
    }
  }
}
