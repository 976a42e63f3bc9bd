/** The virtual memory: the objects of the program, the physical memory that backs some of them,
    and the code it inserts.  Asserts of the original are failures here: a method that returns `false`
    has aborted the conversion, and nothing is promised about the state it leaves. */
module VirtualMemories {
  import opened Basics
  import opened Totals
  import opened Ir
  import opened Pools
  import opened Replays
  import opened Refinement
  import opened AllocationOrders
  import opened MemoryStates
  import opened SwapStates
  import opened AliasStates
  import opened PinStates
  import opened StepStates
  import opened BufferStates
  import opened FlightStates
  import opened Evictions
  import opened Progresses
  import opened Fittings
  import opened Rooms

  /** The aliases left valid when everything derived from `v`, but not `v` itself, is invalidated. */
  ghost function Invalidated(alias: map<Value, Value>, chain: map<Value, set<Value>>, v: Value): map<Value, Value> {
    map c | c in alias && !(c in chain && v in chain[c] && c != v) :: alias[c]
  }

  /** Below an object, the chain of a derived object passes through one of its children. */
  lemma {:induction false} PassesChild(m: Memory, v: Value, c: Value)
    requires InvTree(m) && c in m.size && v in m.chain[c] && c != v && v in m.size
    ensures exists d :: d in m.children[v] && d in m.chain[c]
    decreases m.chain[c]
  {
    assert TreeAt(m, c);
    var p := m.parent[c];
    assert TreeAt(m, p);
    if p != v {
      PassesChild(m, v, p);
    }
  }

  /** None of the first `k` children of `v` is on the chain of `c`. */
  ghost predicate Spared(m: Memory, v: Value, k: nat, c: Value)
    requires v in m.children && k <= |m.children[v]| && c in m.chain
  {
    forall j :: 0 <= j < k ==> m.children[v][j] !in m.chain[c]
  }

  lemma ChildChains(m: Memory, v: Value, d: Value)
    requires InvTree(m) && v in m.size && d in m.children[v]
    ensures d in m.size && d != v && v in m.chain[d] && m.chain[d] == {d} + m.chain[v] && d !in m.chain[v]
    ensures m.size.Keys - m.chain[d] < m.size.Keys - m.chain[v]
  {
    assert TreeAt(m, v);
    assert TreeAt(m, d);
    assert d in m.size.Keys - m.chain[v];
  }

  /** One step down the chain of an object. */
  lemma ChainOf(m: Memory, v: Value)
    requires InvTree(m) && v in m.size
    ensures v in m.chain && v in m.root && m.root[v] in m.size
    ensures if v in m.parent then
              var p := m.parent[v];
              p in m.size && p in m.chain && p in m.root && m.chain[v] == {v} + m.chain[p] && v !in m.chain[p]
              && m.chain[p] < m.chain[v] && m.root[v] == m.root[p] && m.root[v] != v
            else m.chain[v] == {v} && m.root[v] == v
  {
    assert TreeAt(m, v);
    if v in m.parent {
      assert TreeAt(m, m.parent[v]);
    } else {
      BufferOfChain(m, v, v);
    }
  }

  lemma RaisedNext(count: map<Value, nat>, v: Value, rest: set<Value>)
    requires v in count && v !in rest
    ensures Raised(count[v := count[v] + 1], rest) == Raised(count, {v} + rest)
    ensures {v} + {} == {v} && Raised(count[v := count[v] + 1], {}) == count[v := count[v] + 1]
  {}

  lemma LoweredNext(count: map<Value, nat>, v: Value, rest: set<Value>)
    requires v in count && count[v] > 0 && v !in rest
    ensures Lowered(count[v := count[v] - 1], rest) == Lowered(count, {v} + rest)
    ensures {v} + {} == {v} && Lowered(count[v := count[v] - 1], {}) == count[v := count[v] - 1]
  {}

  lemma NoneSpared(m: Memory, v: Value)
    requires InvTree(m) && v in m.size
    ensures v in m.children && m.chain.Keys == m.size.Keys
    ensures forall c :: c in m.chain ==> Spared(m, v, 0, c)
  {}

  lemma SparedNext(m: Memory, v: Value, k: nat, c: Value)
    requires v in m.children && k < |m.children[v]| && c in m.chain
    ensures Spared(m, v, k + 1, c) <==> Spared(m, v, k, c) && m.children[v][k] !in m.chain[c]
  {}

  /** What spares all children of `v` is not derived from it. */
  lemma SparedByAll(m: Memory, v: Value, c: Value)
    requires InvTree(m) && v in m.size && c in m.size
    ensures v in m.children && c in m.chain
    ensures Spared(m, v, |m.children[v]|, c) <==> !(v in m.chain[c] && c != v)
  {
    if v in m.chain[c] && c != v {
      PassesChild(m, v, c);
    } else {
      forall j | 0 <= j < |m.children[v]| ensures m.children[v][j] !in m.chain[c] {
        ChildChains(m, v, m.children[v][j]);
        if m.children[v][j] in m.chain[c] { RootOfChain(m, c, m.children[v][j]); }
      }
    }
  }

  /** The state before the first instruction. */
  ghost function Empty(original: seq<Instr>, firstFresh: Value, geo: Geometry): Memory
    requires geo.wordBytes > 0
  {
    Memory(original, firstFresh, map[], map[], map[], map[], map[], map[], map[], map[], map[], [], map[], 0, Fresh(geo),
           map[], firstFresh, [], map[], map[], map[], map[], map[], [START], START)
  }

  lemma EmptyIsValid(original: seq<Instr>, firstFresh: Value, geo: Geometry)
    requires geo.Valid()
    ensures Inv(Empty(original, firstFresh, geo)) && Settled(Empty(original, firstFresh, geo))
  {
    FreshIsExact(geo);
    assert PinnedSizes(Empty(original, firstFresh, geo)) == map[];
  }

  /** Everything known about the objects of the program, by the value of the original program. */
  datatype VirtualObjects = VirtualObjects(
    size: map<Value, nat>,
    parent: map<Value, Value>,
    view: map<Value, View>,
    children: map<Value, seq<Value>>,
    pinCount: map<Value, nat>,
    maybePhysicalBuffer: map<Value, PhysicalBuffer>,
    swappedOutValue: map<Value, Value>,
    maybePhysicalAlias: map<Value, Value>)

  /** The active physical buffers, in order of becoming resident, and the pinned ones. */
  datatype PhysicalMemory = PhysicalMemory(
    physicalBuffers: map<Value, PhysicalBuffer>,
    lastUsed: seq<PhysicalBuffer>,
    pinnedBuffers: map<PhysicalBuffer, nat>,
    totalPinnedSize: int)

  /** The program written so far and the next unused name. */
  datatype Code = Code(nextValue: Value, out: seq<Instr>)

  datatype Bookkeeping = Bookkeeping(
    root: map<Value, Value>,
    chain: map<Value, set<Value>>,
    held: map<nat, Value>,
    flights: map<Invocation, seq<nat>>,
    found: map<Value, nat>,
    trace: seq<Snapshot>,
    now: Snapshot)

  /** The object is usable, under the value `p`. */
  ghost predicate HasValue(m: Memory, v: Value, p: Value) {
    HasPhysical(m, v) && p == PhysicalValue(m, v)
  }

  ghost predicate InRange(pool: PoolState, v: Value) {
    v in pool.live ==> pool.live[v].base + pool.live[v].size <= |pool.used|
  }

  ghost function PhysicallyPinned(m: PhysicalMemory, p: PhysicalBuffer, bytes: nat): PhysicalMemory {
    var count := if p in m.pinnedBuffers then m.pinnedBuffers[p] else 0;
    m.(pinnedBuffers := m.pinnedBuffers[p := count + 1],
       totalPinnedSize := if count == 0 then m.totalPinnedSize + bytes else m.totalPinnedSize)
  }

  ghost function PhysicallyUnpinned(m: PhysicalMemory, p: PhysicalBuffer, bytes: nat): PhysicalMemory {
    if p in m.pinnedBuffers && m.pinnedBuffers[p] != 1
    then m.(pinnedBuffers := m.pinnedBuffers[p := if m.pinnedBuffers[p] > 0 then m.pinnedBuffers[p] - 1 else 0])
    else m.(pinnedBuffers := m.pinnedBuffers - {p}, totalPinnedSize := m.totalPinnedSize - bytes)
  }

  class VirtualMemory {
    ghost const original: seq<Instr>
    ghost const firstFresh: Value
    const pool: Pool

    var objects: VirtualObjects
    var physical: PhysicalMemory
    var invocationToVirtual: map<Invocation, seq<Value>>
    var code: Code
    ghost var book: Bookkeeping
    ghost var nextPin: nat
    ghost var defragmentations: nat  // how often the memory has been defragmented

    ghost function State(): Memory
      reads this, pool
    {
      var o, p, b := objects, physical, book;
      Memory(original, firstFresh, o.size, o.parent, o.view, o.children, o.pinCount, o.maybePhysicalBuffer,
             o.swappedOutValue, o.maybePhysicalAlias, p.physicalBuffers, p.lastUsed, p.pinnedBuffers, p.totalPinnedSize,
             pool.State(), invocationToVirtual, code.nextValue, code.out,
             b.root, b.chain, b.held, b.flights, b.found, b.trace, b.now)
    }

    ghost predicate Valid()
      reads this, pool
    {
      pool.Valid() && Inv(State()) && forall t :: t in book.held ==> t < nextPin
    }

    constructor (pool: Pool, ghost original: seq<Instr>, ghost firstFresh: Value, nextValue: Value)
      requires pool.Valid() && pool.State() == Fresh(pool.geo) && nextValue == firstFresh
      ensures Valid() && State() == Empty(original, firstFresh, pool.geo) && this.pool == pool
    {
      this.pool := pool;
      this.original := original;
      this.firstFresh := firstFresh;
      objects := VirtualObjects(map[], map[], map[], map[], map[], map[], map[], map[]);
      physical := PhysicalMemory(map[], [], map[], 0);
      invocationToVirtual := map[];
      code := Code(nextValue, []);
      book := Bookkeeping(map[], map[], map[], map[], map[], [START], START);
      nextPin, defragmentations := 0, 0;
      new;
      EmptyIsValid(original, firstFresh, pool.geo);
    }

    // -----------------------------------------------------------------------
    // Aliases

    ghost predicate HasTree(m: Memory)
      reads this
    {
      objects.children == m.children && book.chain == m.chain && objects.size == m.size && InvTree(m)
    }

    method Invalidate(a: Value, ghost m: Memory)
      requires HasTree(m) && a in m.size
      requires forall c :: c in objects.maybePhysicalAlias ==> c in m.size
      modifies this`objects
      ensures objects == old(objects).(maybePhysicalAlias := objects.maybePhysicalAlias)
      ensures objects.maybePhysicalAlias == Invalidated(old(objects.maybePhysicalAlias), m.chain, a) - {a}
      decreases m.size.Keys - m.chain[a], 1
    {
      objects := objects.(maybePhysicalAlias := objects.maybePhysicalAlias - {a});
      InvalidateChildren(a, m);
    }

    /** Every alias derived from `v`, however indirectly, becomes invalid. */
    method InvalidateChildren(v: Value, ghost m: Memory)
      requires HasTree(m) && v in m.size
      requires forall c :: c in objects.maybePhysicalAlias ==> c in m.size
      modifies this`objects
      ensures objects == old(objects).(maybePhysicalAlias := objects.maybePhysicalAlias)
      ensures objects.maybePhysicalAlias == Invalidated(old(objects.maybePhysicalAlias), m.chain, v)
      decreases m.size.Keys - m.chain[v], 0
    {
      hide TreeAt;
      hide Spared;
      ghost var was := objects.maybePhysicalAlias;
      NoneSpared(m, v);
      hide InvTree;
      for k := 0 to |objects.children[v]|
        invariant objects == old(objects).(maybePhysicalAlias := objects.maybePhysicalAlias)
        invariant forall c :: c in objects.maybePhysicalAlias <==> c in was && Spared(m, v, k, c)
        invariant forall c :: c in objects.maybePhysicalAlias ==> objects.maybePhysicalAlias[c] == was[c]
      {
        var d := objects.children[v][k];
        ChildChains(m, v, d);
        Invalidate(d, m);
        forall c | c in was ensures Spared(m, v, k + 1, c) <==> Spared(m, v, k, c) && d !in m.chain[c] {
          SparedNext(m, v, k, c);
        }
      }
      forall c | c in was ensures c in objects.maybePhysicalAlias <==> !(v in m.chain[c] && c != v) {
        SparedByAll(m, v, c);
      }
    }

    method IsSwappedOut(v: Value) returns (b: bool)
      ensures b == !HasPhysical(State(), v)
    {
      b := if v in objects.parent then v !in objects.maybePhysicalAlias else v !in objects.maybePhysicalBuffer;
    }

    // -----------------------------------------------------------------------
    // Swapping out

    /** Drops the physical buffer of `b`. */
    method Remove(b: Value)
      requires pool.Valid() && b in physical.physicalBuffers && InRange(pool.State(), physical.physicalBuffers[b].value)
      modifies this`physical, pool
      ensures pool.Valid() && pool.State() == Freed(old(pool.State()), old(physical).physicalBuffers[b].value)
      ensures physical == old(physical).(physicalBuffers := old(physical).physicalBuffers - {b},
                                         lastUsed := Without(old(physical).lastUsed, old(physical).physicalBuffers[b]))
    {
      var p := physical.physicalBuffers[b];
      physical := physical.(lastUsed := Without(physical.lastUsed, p), physicalBuffers := physical.physicalBuffers - {b});
      pool.Release(p.value);
    }

    /** Inserts the code that moves the contents of `b` from `src` to the new buffer `x`. */
    method EmitMove(b: Value, x: Value, space: Space, bytes: nat, src: Value, srcSpace: Space)
      modifies this`code, this`book
      ensures code == old(code).(out := old(code).out + [Alloc(x, space, bytes)] + [Copy(x, src)] + [Dealloc(src, srcSpace)])
      ensures var s1 := AfterAlloc(old(book).now, x, space); var s2 := AfterCopy(s1, b, x);
              book == old(book).(now := AfterFree(s2, src), trace := old(book).trace + [s1] + [s2] + [AfterFree(s2, src)])
    {
      code := code.(out := code.out + [Alloc(x, space, bytes)] + [Copy(x, src)] + [Dealloc(src, srcSpace)]);
      ghost var s1 := AfterAlloc(book.now, x, space);
      ghost var s2 := AfterCopy(s1, b, x);
      book := book.(now := AfterFree(s2, src), trace := book.trace + [s1] + [s2] + [AfterFree(s2, src)]);
    }

    /** Makes `x` the swap buffer of `b` and its derived objects unusable. */
    method Forget(b: Value, x: Value)
      requires InvTree(State()) && b in objects.size
      requires forall a :: a in objects.maybePhysicalAlias ==> a in objects.size
      modifies this`objects
      ensures objects == old(objects).(swappedOutValue := old(objects).swappedOutValue[b := x],
                                       maybePhysicalBuffer := old(objects).maybePhysicalBuffer - {b},
                                       maybePhysicalAlias := Invalidated(old(objects).maybePhysicalAlias, book.chain, b))
    {
      hide Invalidated;
      InvalidateChildren(b, State());
      objects := objects.(swappedOutValue := objects.swappedOutValue[b := x],
                          maybePhysicalBuffer := objects.maybePhysicalBuffer - {b});
    }

    /** Stores a resident buffer to a new swap buffer and drops its physical buffer. */
    method Evict(b: Value)
      requires pool.Valid() && InvTree(State())
      requires b in physical.physicalBuffers && InRange(pool.State(), physical.physicalBuffers[b].value)
      requires b in objects.size && b in objects.maybePhysicalBuffer
      requires objects.maybePhysicalBuffer[b] == physical.physicalBuffers[b]
      requires forall a :: a in objects.maybePhysicalAlias ==> a in objects.size
      requires WithoutAliasesOf(State(), b) == Invalidated(objects.maybePhysicalAlias, book.chain, b)
      modifies this, pool
      ensures pool.Valid() && State() == SwappedOut(old(State()), b) && nextPin == old(nextPin)
      ensures defragmentations == old(defragmentations)
    {
      hide InvTree;
      hide WithoutAliasesOf;
      hide Invalidated;
      hide AfterAlloc;
      hide AfterCopy;
      hide AfterFree;
      hide Freed;
      hide Without;
      hide InRange;
      var p := objects.maybePhysicalBuffer[b];
      var x := code.nextValue;
      Forget(b, x);
      code := code.(nextValue := x + 1);
      EmitMove(b, x, Xram, objects.size[b], p.value, Lram);
      Remove(b);
    }

    /** Moves an unpinned resident buffer out. */
    method SwapOut(b: Value)
      requires Valid() && CanSwapOut(State(), b)
      modifies this, pool
      ensures Valid() && State() == SwappedOut(old(State()), b)
      ensures Steady(old(State()), State()) && nextPin == old(nextPin) && defragmentations == old(defragmentations)
    {
      SwapOutKeepsInv(State(), b);
      EvictFacts(State(), b);
      Evict(b);
    }

    // -----------------------------------------------------------------------
    // Pinning

    method PinPhysical(p: PhysicalBuffer, bytes: nat)
      modifies this`physical
      ensures physical == PhysicallyPinned(old(physical), p, bytes)
    {
      var count := if p in physical.pinnedBuffers then physical.pinnedBuffers[p] else 0;
      if count == 0 {
        physical := physical.(totalPinnedSize := physical.totalPinnedSize + bytes);
      }
      physical := physical.(pinnedBuffers := physical.pinnedBuffers[p := count + 1]);
    }

    /** Fails if the buffer has no physical buffer to pin. */
    method PinBuffer(v: Value) returns (ok: bool)
      requires v in objects.pinCount && v in objects.size
      modifies this`objects, this`physical
      ensures ok <==> old(objects).pinCount[v] > 0 || v in old(objects).maybePhysicalBuffer
      ensures ok ==> objects == old(objects).(pinCount := old(objects).pinCount[v := old(objects).pinCount[v] + 1])
      ensures ok ==> physical == if old(objects).pinCount[v] > 0 then old(physical)
                                 else PhysicallyPinned(old(physical), old(objects).maybePhysicalBuffer[v], old(objects).size[v])
    {
      hide PhysicallyPinned;
      if objects.pinCount[v] == 0 {
        if v !in objects.maybePhysicalBuffer {
          return false;
        }
        PinPhysical(objects.maybePhysicalBuffer[v], objects.size[v]);
      }
      objects := objects.(pinCount := objects.pinCount[v := objects.pinCount[v] + 1]);
      ok := true;
    }

    /** Fails if the root has no physical buffer to pin. */
    method PinObject(v: Value, ghost m: Memory) returns (ok: bool)
      requires HasTree(m) && objects.parent == m.parent && v in m.size && objects.pinCount.Keys == m.size.Keys
      modifies this`objects, this`physical
      ensures m.root[v] in m.size
      ensures ok <==> old(objects).pinCount[m.root[v]] > 0 || m.root[v] in old(objects).maybePhysicalBuffer
      ensures ok ==> objects == old(objects).(pinCount := Raised(old(objects).pinCount, m.chain[v]))
      ensures ok ==> physical == if old(objects).pinCount[m.root[v]] > 0 then old(physical)
                                 else PhysicallyPinned(old(physical), old(objects).maybePhysicalBuffer[m.root[v]], m.size[m.root[v]])
      decreases m.chain[v]
    {
      ChainOf(m, v);
      hide InvTree;
      hide Raised;
      hide PhysicallyPinned;
      if v in objects.parent {
        RaisedNext(objects.pinCount, v, m.chain[m.parent[v]]);
        objects := objects.(pinCount := objects.pinCount[v := objects.pinCount[v] + 1]);
        ok := PinObject(objects.parent[v], m);
      } else {
        RaisedNext(objects.pinCount, v, {});
        ok := PinBuffer(v);
      }
    }

    method PinAs(v: Value, ghost t: nat) returns (ok: bool)
      requires InvTree(State()) && v in objects.size
      requires RootIsReady(State(), v)
      modifies this`objects, this`physical, this`book
      ensures ok <==> RootIsBacked(old(State()), v)
      ensures ok ==> PinnedTo(old(State()), v, t, State())
    {
      ok := PinObject(v, State());
      book := book.(held := book.held[t := v]);
    }

    /** Protects the buffer behind `v` from being moved; fails only if it is not resident. */
    method Pin(v: Value) returns (ok: bool, ghost t: nat)
      requires Valid() && HasLiveRoot(State(), v)
      modifies this`objects, this`physical, this`book, this`nextPin
      ensures ok <==> RootIsBacked(old(State()), v)
      ensures ok ==> Valid() && t !in old(book).held && PinnedTo(old(State()), v, t, State())
    {
      hide Inv;
      t := nextPin;
      PinIsSafe(State(), v, t);
      ok := PinAs(v, t);
      nextPin := nextPin + 1;
    }

    method UnpinPhysical(p: PhysicalBuffer, bytes: nat)
      requires p in physical.pinnedBuffers
      modifies this`physical
      ensures physical == PhysicallyUnpinned(old(physical), p, bytes)
    {
      var count := physical.pinnedBuffers[p];
      if count == 1 {
        physical := physical.(pinnedBuffers := physical.pinnedBuffers - {p}, totalPinnedSize := physical.totalPinnedSize - bytes);
      } else {
        physical := physical.(pinnedBuffers := physical.pinnedBuffers[p := if count > 0 then count - 1 else 0]);
      }
    }

    method UnpinBuffer(v: Value)
      requires v in objects.pinCount && v in objects.size && objects.pinCount[v] > 0
      requires v in objects.maybePhysicalBuffer && objects.maybePhysicalBuffer[v] in physical.pinnedBuffers
      modifies this`objects, this`physical
      ensures objects == old(objects).(pinCount := old(objects).pinCount[v := old(objects).pinCount[v] - 1])
      ensures physical == if old(objects).pinCount[v] > 1 then old(physical)
                          else PhysicallyUnpinned(old(physical), old(objects).maybePhysicalBuffer[v], old(objects).size[v])
    {
      hide PhysicallyUnpinned;
      objects := objects.(pinCount := objects.pinCount[v := objects.pinCount[v] - 1]);
      if objects.pinCount[v] == 0 {
        UnpinPhysical(objects.maybePhysicalBuffer[v], objects.size[v]);
      }
    }

    method UnpinObject(v: Value, ghost m: Memory)
      requires HasTree(m) && objects.parent == m.parent && v in m.size && objects.pinCount.Keys == m.size.Keys
      requires forall w :: w in m.chain[v] ==> w in objects.pinCount && objects.pinCount[w] > 0
      requires m.root[v] in m.size && m.root[v] in objects.maybePhysicalBuffer
      requires objects.maybePhysicalBuffer[m.root[v]] in physical.pinnedBuffers
      modifies this`objects, this`physical
      ensures objects == old(objects).(pinCount := Lowered(old(objects).pinCount, m.chain[v]))
      ensures physical == if old(objects).pinCount[m.root[v]] > 1 then old(physical)
                          else PhysicallyUnpinned(old(physical), old(objects).maybePhysicalBuffer[m.root[v]], m.size[m.root[v]])
      decreases m.chain[v]
    {
      ChainOf(m, v);
      hide InvTree;
      hide Lowered;
      hide PhysicallyUnpinned;
      if v in objects.parent {
        LoweredNext(objects.pinCount, v, m.chain[m.parent[v]]);
        objects := objects.(pinCount := objects.pinCount[v := objects.pinCount[v] - 1]);
        UnpinObject(objects.parent[v], m);
      } else {
        LoweredNext(objects.pinCount, v, {});
        UnpinBuffer(v);
      }
    }

    method UnpinAs(v: Value, ghost t: nat)
      requires InvTree(State()) && t in book.held && book.held[t] == v && v in objects.size
      requires PinIsReady(State(), t)
      modifies this`objects, this`physical, this`book
      ensures UnpinnedTo(old(State()), t, State())
    {
      UnpinObject(v, State());
      book := book.(held := book.held - {t});
    }

    /** Gives up pin `t` on `v`; no assertion of the original can fail. */
    method Unpin(v: Value, ghost t: nat)
      requires Valid() && FreePin(State(), t) && book.held[t] == v
      modifies this`objects, this`physical, this`book
      ensures Valid() && UnpinnedTo(old(State()), t, State())
    {
      hide Inv;
      hide InvTree;
      hide FreePin;
      hide PinIsReady;
      hide UnpinnedTo;
      ghost var m := State();
      UnpinIsSafe(m, t);
      UnpinAs(v, t);
    }

    // -----------------------------------------------------------------------
    // Making room

    /** Evicts unpinned buffers in list order until `space` bytes are free: exactly the unpinned ones among the
        first `reach` entries, where `reach` is least possible; fails only if even evicting all of them is not enough. */
    method FreeSpace(space: nat) returns (ok: bool, ghost reach: nat)
      requires Valid()
      modifies this, pool
      ensures Valid() && nextPin == old(nextPin) && defragmentations == old(defragmentations)
      ensures exists next :: Reached(old(State()), State(), reach, next)
      ensures OldestFirst(old(State()), State())
      ensures reach <= |old(State()).lastUsed|
      ensures forall k :: 0 <= k < reach ==> !FitsAfter(old(State()), k, space)
      ensures ok <==> FitsAfter(old(State()), reach, space)
      ensures !ok ==> reach == |old(State()).lastUsed|
      ensures reach == 0 ==> State() == old(State())
    {
      hide Inv;
      hide Steady;
      hide SwappedOut;
      hide CanSwapOut;
      hide Reached;
      hide OldestFirst;
      ghost var m := State();
      ReachStart(m);
      var next := 0;
      reach := 0;
      var usable := pool.UsableSize();
      var used := pool.UsedSize();
      while used + space > usable
        invariant Valid() && Reached(m, State(), reach, next) && nextPin == old(nextPin)
        invariant defragmentations == old(defragmentations)
        invariant used == pool.State().UsedBytes() && reach <= |m.lastUsed|
        invariant reach == 0 ==> State() == m
        invariant forall k :: 0 <= k < reach ==> !FitsAfter(m, k, space)
        decreases |m.lastUsed| - reach
      {
        ReachFits(m, State(), reach, next, space);
        if next >= |physical.lastUsed| {
          ReachedOldestFirst(m, State(), reach, next);
          return false, reach;
        }
        var p := physical.lastUsed[next];
        if p in physical.pinnedBuffers {
          ReachPinned(m, State(), reach, next);
          next := next + 1;
        } else {
          ReachEvicted(m, State(), reach, next);
          SwapOut(p.owner);
          used := pool.UsedSize();
        }
        reach := reach + 1;
      }
      ok := true;
      ReachFits(m, State(), reach, next, space);
      ReachedOldestFirst(m, State(), reach, next);
    }

    /** Swaps out every unpinned buffer, in any order, and then swaps all of them in again; fails only if there is no place
        for one of them. `at` is the point at which they are all out, or at which there is no place. */
    method Defragment() returns (ok: bool, ghost at: Memory)
      requires Valid()
      modifies this, pool
      ensures ok ==> Valid() && nextPin == old(nextPin) && Defragmented(old(State()), State())
      ensures if ok then Compacted(old(State()), at, State()) else StuckAt(old(State()), at)
      ensures defragmentations > old(defragmentations)
      decreases false, 5
    {
      hide Inv;
      hide Vacated;
      hide Defragmented;
      hide Compacted;
      hide StuckAt;
      ghost var m := State();
      defragmentations := defragmentations + 1;
      var toMove := Unpinned();
      MoveOut(toMove);
      MovedOut(m, State(), toMove, SumWords(m, toMove) - SumWords(m, toMove[..0]));
      ok, at := MoveIn(toMove, m, State());
      if ok {
        RestoredAll(m, State(), toMove);
      }
    }

    method MoveOut(bs: seq<Value>)
      requires Valid() && Movable(State(), bs)
      modifies this, pool
      ensures Valid() && nextPin == old(nextPin) && defragmentations == old(defragmentations)
      ensures Vacated(old(State()), State(), bs[0..], SumWords(old(State()), bs) - SumWords(old(State()), bs[..0]))
    {
      hide Inv;
      hide CanSwapOut;
      hide SwappedOut;
      hide Vacated;
      hide Steady;
      ghost var m := State();
      VacatedNone(m);
      assert bs[..0] == [];
      for i := 0 to |bs|
        invariant Valid() && nextPin == old(nextPin) && Vacated(m, State(), bs[..i], SumWords(m, bs[..i]))
        invariant defragmentations == old(defragmentations)
      {
        VacateOne(m, State(), bs, i);
        SwapOut(bs[i]);
      }
      assert bs[..|bs|] == bs == bs[0..];
    }

    method MoveIn(bs: seq<Value>, ghost m: Memory, ghost out: Memory) returns (ok: bool, ghost at: Memory)
      requires Valid() && Inv(m) && Movable(m, bs) && Compacted(m, out, State())
      requires Vacated(m, State(), bs[0..], SumWords(m, bs) - SumWords(m, bs[..0]))
      modifies this, pool
      ensures ok ==> Valid() && nextPin == old(nextPin)
      ensures ok ==> Vacated(m, State(), bs[|bs|..], SumWords(m, bs) - SumWords(m, bs[..|bs|]))
      ensures if ok then Compacted(m, at, State()) else StuckAt(m, at)
      ensures defragmentations >= old(defragmentations)
      decreases false, 3
    {
      hide Inv;
      hide Vacated;
      hide BroughtIn;
      hide Compacted;
      hide StuckAt;
      hide NoPlaceFor;
      at := out;
      for i := 0 to |bs|
        invariant Valid() && nextPin == old(nextPin) && Compacted(m, at, State())
        invariant Vacated(m, State(), bs[i..], SumWords(m, bs) - SumWords(m, bs[..i]))
        invariant defragmentations >= old(defragmentations)
      {
        ghost var s := State();
        ToRestore(m, s, bs, i);
        ok := SwapInBuffer(bs[i], false);
        if !ok {
          Stuck(m, s, bs, i, SumWords(m, bs) - SumWords(m, bs[..i]));
          return false, s;
        }
        SteadyBroughtIn(s, State(), bs[i]);
        CompactedNext(m, at, s, State());
        RestoreOne(m, s, State(), bs, i);
      }
      ok := true;
    }

    /** The buffers whose physical buffer is not pinned, in any order. */
    method Unpinned() returns (bs: seq<Value>)
      ensures Movable(State(), bs)
      ensures forall b :: b in physical.physicalBuffers ==> b in bs || physical.physicalBuffers[b] in physical.pinnedBuffers
    {
      bs := [];
      var rest := physical.physicalBuffers.Keys;
      while rest != {}
        invariant rest <= physical.physicalBuffers.Keys
        invariant NoDuplicates(bs) && forall b :: b in bs ==> b !in rest
        invariant forall b :: b in bs ==>
                  b in physical.physicalBuffers && physical.physicalBuffers[b] !in physical.pinnedBuffers
        invariant forall b :: b in physical.physicalBuffers && b !in rest ==>
                    b in bs || physical.physicalBuffers[b] in physical.pinnedBuffers
        decreases rest
      {
        var b :| b in rest;
        rest := rest - {b};
        if physical.physicalBuffers[b] !in physical.pinnedBuffers {
          bs := bs + [b];
        }
      }
    }

    /** Finds a place for `value` to back `b`, after a defragmentation if need be and allowed; any code that inserts
        comes before the definition of `value`, which the caller writes afterwards. */
    method Add(b: Value, value: Value, bytes: nat, allowDefragment: bool)
      returns (ok: bool, ghost mid: Memory, ghost base: nat)
      requires Valid() && b !in physical.physicalBuffers
      modifies this, pool
      ensures ok ==> pool.Valid() && nextPin == old(nextPin) && (forall t :: t in book.held ==> t < nextPin)
      ensures ok ==> PlacedAfter(old(State()), mid, State(), b, value, bytes, base)
      ensures bytes + old(State()).pool.UsedBytes() <= pool.geo.UsableBytes()
                && Placement(old(pool.State()), bytes).Some? ==>
                ok && mid == old(State())
      ensures defragmentations >= old(defragmentations)
      ensures ok && defragmentations == old(defragmentations) ==> mid == old(State())
      ensures !ok && defragmentations == old(defragmentations) && allowDefragment ==>
                bytes + old(State()).pool.UsedBytes() > pool.geo.UsableBytes()
      ensures !ok && defragmentations > old(defragmentations) ==>
                StuckAt(old(State()), mid) || NoPlaceCompacted(old(State()), mid, bytes)
      decreases allowDefragment, 1
    {
      hide Inv;
      hide Steady;
      hide Compacted;
      hide StuckAt;
      hide NoPlaceCompacted;
      ghost var m := State();
      mid, base := m, 0;
      UsedIsNatural(m);
      var used := pool.UsedSize();
      var usable := pool.UsableSize();
      if bytes + used > usable {
        return false, mid, base;  // an assertion of the original
      }
      FittingIsSmall(pool.geo, bytes, used);
      var address := pool.Allocate(value, bytes);
      if address.None? {
        if !allowDefragment {
          return false, mid, base;
        }
        ghost var at;
        ok, at := Defragment();
        if !ok {
          return false, at, base;
        }
        mid := State();
        address := pool.Allocate(value, bytes);
        if address.None? {
          NoPlaceLeft(m, at, mid, bytes);
          return false, mid, base;
        }
      }
      base := Placement(mid.pool, bytes).value;
      var p := PhysicalBuffer(value, b, address.value);
      physical := physical.(physicalBuffers := physical.physicalBuffers[b := p], lastUsed := physical.lastUsed + [p]);
      PlacedIs(m, mid, State(), b, value, bytes, base);
      ok := true;
    }

    method TakeName() returns (p: Value)
      requires Valid()
      modifies this`code
      ensures Valid() && State() == old(State()).(nextValue := old(code.nextValue) + 1) && p == old(code.nextValue)
    {
      hide Inv;
      hide Undisturbed;
      ReserveKeepsInv(State());
      p := code.nextValue;
      code := code.(nextValue := p + 1);
    }

    /** Brings a buffer back from its swap buffer. */
    method SwapInBuffer(b: Value, allowDefragment: bool) returns (ok: bool)
      requires Valid() && b in book.now.source.live && b !in physical.physicalBuffers
      modifies this, pool
      ensures ok ==> Valid() && nextPin == old(nextPin) && BroughtIn(old(State()), State(), b)
      ensures defragmentations >= old(defragmentations)
      ensures ok && defragmentations == old(defragmentations) ==> Grew(old(State()), State(), b)
      ensures !ok && defragmentations == old(defragmentations) && allowDefragment ==> TooBig(old(State()), b)
      ensures !ok && !allowDefragment ==> NoPlaceFor(old(State()), b)
      decreases allowDefragment, 2
    {
      hide Inv;
      hide PlacedAfter;
      hide BroughtIn;
      hide Undisturbed;
      hide SwappedIn;
      hide Placed;
      hide Grew;
      ghost var m := State();
      SwappedOutFacts(m, b);
      var p := TakeName();
      ghost var mid, base;
      ok, mid, base := Add(b, p, objects.size[b], allowDefragment);
      if !ok {
        return false;
      }
      BringIn(m, mid, State(), b, base);
      if defragmentations == old(defragmentations) {
        BringInGrows(m, mid, b, base);
      }
      FinishSwapIn(b, p, mid, base);
    }

    method FinishSwapIn(b: Value, p: Value, ghost mid: Memory, ghost base: nat)
      requires b in mid.swappedOutValue && b in mid.size && mid.pool.geo.wordBytes > 0
      requires State() == Placed(mid, b, p, mid.size[b], base)
      modifies this`objects, this`code, this`book
      ensures State() == SwappedIn(mid, b, p, base)
    {
      var x := objects.swappedOutValue[b];
      EmitMove(b, p, Lram, objects.size[b], x, Xram);
      objects := objects.(swappedOutValue := objects.swappedOutValue - {b},
                          maybePhysicalBuffer := objects.maybePhysicalBuffer[b := physical.physicalBuffers[b]]);
      book := book.(found := book.found[p := base * mid.pool.geo.wordBytes]);
    }

    // -----------------------------------------------------------------------
    // Swapping in

    /** Clones the operation that made alias `a` over the current value of its parent. */
    method Renew(a: Value)
      requires a in objects.parent && a in objects.view && a in objects.size && Sees(State(), objects.parent[a])
      modifies this`objects, this`code, this`book
      ensures State() == Renewed(old(State()), a)
    {
      hide AfterRenewal;
      hide FoundAs;
      ghost var now := AfterRenewal(State(), a);
      var p := objects.parent[a];
      var base := if p in objects.parent then objects.maybePhysicalAlias[p] else objects.maybePhysicalBuffer[p].value;
      var x := code.nextValue;
      code := Code(x + 1, code.out + [Alias(x, base, objects.view[a], objects.size[a])]);
      objects := objects.(maybePhysicalAlias := objects.maybePhysicalAlias[a := x]);
      book := book.(trace := book.trace + [now], now := now, found := FoundAs(book.found, x, base));
    }

    /** Makes `v` usable: its buffer is brought in and the aliases up to `v` are renewed. */
    method SwapIn(v: Value, allowDefragment: bool) returns (ok: bool)
      requires Valid() && HasLiveRoot(State(), v)
      modifies this, pool
      ensures ok ==> Valid() && nextPin == old(nextPin) && Steady(old(State()), State()) && State().IsResident(v)
      ensures ok ==> State().held == old(State()).held
      ensures defragmentations >= old(defragmentations)
      ensures ok && defragmentations == old(defragmentations) ==> Grew(old(State()), State(), old(book).root[v])
      ensures !ok && defragmentations == old(defragmentations) && allowDefragment ==> NotForSwapIn(old(State()), v)
      decreases book.chain[v]
    {
      hide Inv;
      hide Undisturbed;
      hide Steady;
      hide Grew;
      hide NotForSwapIn;
      hide Sees;
      hide Renewed;
      hide HasLiveRoot;
      hide BroughtIn;
      ghost var m := State();
      if v in objects.parent {
        ParentFacts(m, v);
        var out := IsSwappedOut(objects.parent[v]);
        if out {
          ok := SwapIn(objects.parent[v], allowDefragment);
          if !ok {
            if NotForSwapIn(m, m.parent[v]) { NotForSwapInEither(m, v); }
            return false;
          }
        } else {
          ParentIsBacked(m, v);
        }
        ghost var s := State();
        AliasComesIn(m, s, v);
        Renew(v);
        ok := true;
      } else {
        BufferIsOwnRoot(m, v);
        if v in objects.maybePhysicalBuffer {
          InAlready(m, v);
          return false;  // an assertion of the original
        }
        ok := SwapInBuffer(v, allowDefragment);
        IsObject(m, v);
        if TooBig(m, v) { RoomIsMissing(m, v); }
        if ok {
          BroughtInFacts(m, State(), v);
        }
      }
    }

    // -----------------------------------------------------------------------
    // The instructions of the original program

    /** Writes `e`, which stands for the next original instruction. */
    method EmitStep(e: Instr, ghost now: Snapshot)
      modifies this`code, this`book
      ensures code == old(code).(out := old(code).out + [e])
      ensures book == old(book).(trace := old(book).trace + [now], now := now)
    {
      code := code.(out := code.out + [e]);
      book := book.(trace := book.trace + [now], now := now);
    }

    method FinishAllocation(o: Instr, ghost mid: Memory, ghost base: nat)
      requires o.Alloc? && o.v in physical.physicalBuffers && mid.pool.geo.wordBytes > 0
      requires StepNames(mid.now.source, o).Some? && StepNames(mid.now.target, o).Some?
      requires State() == Placed(mid, o.v, o.v, o.bytes, base)
      modifies this`objects, this`code, this`book
      ensures State() == BufferAdded(mid, o, base)
    {
      EmitStep(o, Advanced(mid, o, o, mid.now.home[o.v := o.v]));
      objects := objects.(size := objects.size[o.v := o.bytes], children := objects.children[o.v := []],
                          pinCount := objects.pinCount[o.v := 0],
                          maybePhysicalBuffer := objects.maybePhysicalBuffer[o.v := physical.physicalBuffers[o.v]]);
      book := book.(chain := book.chain[o.v := {o.v}], root := book.root[o.v := o.v],
                    found := book.found[o.v := base * mid.pool.geo.wordBytes]);
    }

    /** A new buffer starts out in a physical buffer of its own. */
    method AddAllocation(o: Instr) returns (ok: bool)
      requires Valid() && AtStep(State(), o) && o.Alloc?
      modifies this, pool
      ensures ok ==> Valid() && StepDone(old(State()), o, State())
      ensures ok ==> State().held == old(State()).held && State().flights == old(State()).flights
      ensures defragmentations >= old(defragmentations)
      ensures HasSpace(old(State()), o.bytes) && defragmentations == old(defragmentations) ==> ok
      ensures FitsAsIs(old(State()), o) ==> ok && Untouched(State())
    {
      hide Inv;
      hide PlacedAfter;
      hide StepDone;
      hide AtStep;
      hide Untouched;
      hide StuckAt;
      hide NoPlaceCompacted;
      hide BufferAdded;
      ghost var m := State();
      NewBufferIsOut(m, o);
      NewBufferIsNew(m, o);
      ghost var mid, base;
      ok, mid, base := Add(o.v, o.v, o.bytes, true);
      if ok {
        AllocationDone(m, mid, State(), o, base);
        FinishAllocation(o, mid, base);
        if FitsAsIs(m, o) { AdditionUntouched(m, o, base); }
      }
    }

    method IsUnderOwnValue(v: Value) returns (b: bool)
      ensures b <==> HasPhysical(State(), v) && PhysicalValue(State(), v) == v
    {
      b := if v in objects.parent then v in objects.maybePhysicalAlias && objects.maybePhysicalAlias[v] == v
           else v in objects.maybePhysicalBuffer && objects.maybePhysicalBuffer[v].value == v;
    }

    method LinkAlias(o: Instr, first: bool)
      requires o.Alias? && o.base in objects.children
      modifies this`objects
      ensures State() == Attached(old(State()), o, first)
    {
      var siblings: seq<Value> := objects.children[o.base] + [o.v];
      var children: map<Value, seq<Value>> := objects.children[o.v := []];
      children := children[o.base := siblings];
      objects := objects.(
        size := objects.size[o.v := o.bytes], parent := objects.parent[o.v := o.base], view := objects.view[o.v := o.view],
        children := children,
        pinCount := objects.pinCount[o.v := 0],
        maybePhysicalAlias := if first then objects.maybePhysicalAlias[o.v := o.v] else objects.maybePhysicalAlias);
    }

    method EmitAlias(o: Instr, ghost now: Snapshot)
      requires o.Alias? && o.base in book.chain && o.base in book.root
      modifies this`code, this`book
      ensures State() == Emitted(old(State()), o, now)
    {
      hide FoundAs;
      code := code.(out := code.out + [o]);
      book := book.(chain := book.chain[o.v := {o.v} + book.chain[o.base]], root := book.root[o.v := book.root[o.base]],
                    found := FoundAs(book.found, o.v, o.base), trace := book.trace + [now], now := now);
    }

    /** An alias needs no room and no contents: its operation stays where it is, and it is usable at once only if its
        base still has its first value. */
    method AddAlias(o: Instr)
      requires o.Alias? && StepNames(State().now.source, o).Some? && StepNames(State().now.target, o).Some?
      requires o.base in objects.children && o.base in book.chain && o.base in book.root
      modifies this`objects, this`code, this`book
      ensures State() == AliasAdded(old(State()), o)
    {
      hide StepNames;
      hide AliasAdded;
      hide HasPhysical;
      hide PhysicalValue;
      hide Advanced;
      hide Attached;
      hide Emitted;
      ghost var m := State();
      var first := IsUnderOwnValue(o.base);
      AliasAddedIf(m, o, first);
      LinkAlias(o, first);
      EmitAlias(o, Advanced(m, o, o, m.now.home));
    }

    /** Frees the buffer that holds the contents now, in either memory. */
    method Deallocate(o: Instr)
      requires pool.Valid() && Removable(State(), o) && RemovalIsReady(State(), o.v)
      modifies this`physical, this`code, this`book, pool
      ensures pool.Valid() && State() == BufferRemoved(old(State()), o)
    {
      var b := o.v;
      ghost var now := Advanced(State(), o, Redirected(State(), b), book.now.home - {b});
      var value := if b in objects.maybePhysicalBuffer then objects.maybePhysicalBuffer[b].value
          else objects.swappedOutValue[b];
      if b in objects.maybePhysicalBuffer {
        Remove(b);
      }
      assert physical.physicalBuffers == old(physical).physicalBuffers - {b};
      EmitStep(Dealloc(value, if b in objects.maybePhysicalBuffer then Lram else Xram), now);
    }

    method EmitExecuted(o: Instr, operands: seq<Value>)
      requires StepNames(State().now.source, o).Some? && StepNames(State().now.target, WithOperands(o, operands)).Some?
      modifies this`code, this`book
      ensures State() == Executed(old(State()), o, operands)
    {
      ghost var now := Advanced(State(), o, WithOperands(o, operands), book.now.home);
      EmitStep(WithOperands(o, operands), now);
    }

    // -----------------------------------------------------------------------
    // Processing one instruction

    /** Gives up a list of pins. */
    method UnpinAll(values: seq<Value>, ghost tokens: seq<nat>)
      requires Valid() && TokensFor(State(), values, tokens)
      modifies this`objects, this`physical, this`book
      ensures Valid() && Released(old(State()), tokens, State())
    {
      hide Inv;
      hide Released;
      hide UnpinnedTo;
      hide FreePin;
      ghost var m := State();
      ReleasedNone(m);
      assert tokens[..0] == [];
      for k := 0 to |values|
        invariant Valid() && Released(m, tokens[..k], State())
      {
        NextIsFree(m, values, tokens, k, State());
        ghost var s := State();
        Unpin(values[k], tokens[k]);
        OneMoreReleased(m, tokens, k, s, State());
      }
      assert tokens[..|values|] == tokens;
    }

    /** Pins the operands that are in, so that they are not evicted, and collects those that are out. */
    method PinResidents(operands: seq<Value>)
      returns (toSwapIn: set<Value>, pinned: seq<Value>, ghost tokens: seq<nat>)
      requires Valid() && AllLive(State(), operands)
      modifies this`objects, this`physical, this`book, this`nextPin
      ensures Valid() && NewPins(old(State()), pinned, tokens, State())
      ensures PinsResidents(old(State()), operands, pinned)
      ensures toSwapIn == OperandsOut(old(State()), operands)
    {
      hide Inv;
      hide NewPins;
      hide PinnedTo;
      hide HasLiveRoot;
      ghost var m := State();
      toSwapIn, pinned, tokens := {}, [], [];
      NoPins(m);
      for i := 0 to |operands|
        invariant Valid() && NewPins(m, pinned, tokens, State())
        invariant forall v :: v in pinned <==> v in operands[..i] && HasPhysical(m, v)
        invariant forall v :: v in toSwapIn <==> v in operands[..i] && !HasPhysical(m, v)
      {
        var v := operands[i];
        assert operands[..i + 1] == operands[..i] + [v];
        ghost var s := State();
        LivePinned(m, s, pinned, tokens, v);
        NewPinsAreJustPins(m, pinned, tokens, s);
        var out := IsSwappedOut(v);
        if out {
          toSwapIn := toSwapIn + {v};
        } else {
          ResidentOperand(s, v);
          ghost var t;
          var ok;
          ok, t := Pin(v);
          OneMorePin(m, pinned, tokens, s, v, t, State());
          pinned, tokens := pinned + [v], tokens + [t];
        }
      }
      assert operands[..|operands|] == operands;
    }

    /** The total size of a set of objects, added up in any order. */
    method TotalSize(values: set<Value>) returns (total: nat)
      requires forall v :: v in values ==> v in objects.size
      ensures total == Total(SizesOf(objects.size, values))
    {
      total := 0;
      var rest := values;
      ghost var sizes := SizesOf(objects.size, values);
      assert sizes - (values - rest) == sizes;
      while rest != {}
        invariant rest <= values
        invariant total + Total(sizes - (values - rest)) == Total(sizes)
        decreases rest
      {
        var v :| v in rest;
        ghost var left := sizes - (values - rest);
        TotalRemove(left, v);
        rest := rest - {v};
        assert sizes - (values - rest) == left - {v};
        total := total + objects.size[v];
      }
      assert sizes - (values - rest) == map[];
    }

    /** Brings in a set of objects, in any order. */
    method SwapInAll(values: set<Value>) returns (ok: bool)
      requires Valid() && forall v :: v in values ==> HasLiveRoot(State(), v)
      modifies this, pool
      ensures ok ==> Valid() && Steady(old(State()), State()) && State().held == old(State()).held
      ensures values == {} ==> ok && State() == old(State()) && nextPin == old(nextPin)
      ensures defragmentations >= old(defragmentations)
      ensures ok && defragmentations == old(defragmentations) ==> BroughtAll(old(State()), State(), values)
      ensures RoomForAll(old(State()), values) && defragmentations == old(defragmentations) ==> ok
    {
      hide Inv;
      hide Steady;
      hide HasLiveRoot;
      hide BroughtAll;
      hide RoomForAll;
      hide Grew;
      hide NotForSwapIn;
      ghost var m := State();
      SteadyItself(m);
      NothingBrought(m);
      var rest := values;
      assert values - rest == {};
      while rest != {}
        invariant rest <= values && Valid() && Steady(m, State()) && State().held == m.held
        invariant rest == values ==> State() == m && nextPin == old(nextPin)
        invariant defragmentations >= old(defragmentations)
        invariant defragmentations == old(defragmentations) ==> BroughtAll(m, State(), values - rest)
        decreases rest
      {
        var v :| v in rest;
        ghost var done := values - rest;
        rest := rest - {v};
        assert values - rest == done + {v};
        ghost var s := State();
        LiveSteady(m, s, v);
        ok := SwapIn(v, true);
        if !ok {
          if RoomForAll(m, values) && defragmentations == old(defragmentations) { NextIsNotForSwapIn(m, s, values, done, v); }
          return false;
        }
        if defragmentations == old(defragmentations) { BroughtNext(m, s, State(), done, v); }
        SteadyTransitive(m, s, State());
      }
      assert values - rest == values;
      ok := true;
    }

    /** Pins an operand and finds its physical value; an operand that is out fails an assertion. */
    method PinOperand(v: Value) returns (ok: bool, p: Value, ghost t: nat)
      requires Valid() && HasLiveRoot(State(), v)
      modifies this`objects, this`physical, this`book, this`nextPin
      ensures ok ==> Valid() && t !in old(book).held && PinnedTo(old(State()), v, t, State())
      ensures ok ==> HasValue(State(), v, p)
      ensures HasPhysical(old(State()), v) ==> ok
    {
      hide Inv;
      hide HasLiveRoot;
      ghost var s := State();
      if HasPhysical(s, v) { ResidentOperand(s, v); }
      p := 0;
      ok, t := Pin(v);
      if !ok {
        return;
      }
      PinnedIsJustPins(s, v, t, State());
      var out := IsSwappedOut(v);
      if out {
        return false, p, t;
      }
      p := if v in objects.parent then objects.maybePhysicalAlias[v] else objects.maybePhysicalBuffer[v].value;
    }

    /** Pins every operand and replaces it by its physical value; an operand that is out fails an assertion. */
    method PinOperands(operands: seq<Value>) returns (ok: bool, replaced: seq<Value>, ghost tokens: seq<nat>)
      requires Valid() && AllLive(State(), operands)
      modifies this`objects, this`physical, this`book, this`nextPin
      ensures ok ==> Valid() && NewPins(old(State()), operands, tokens, State()) && OperandsAre(State(), operands, replaced)
      ensures (forall v :: v in operands ==> HasPhysical(old(State()), v)) ==> ok
    {
      hide Inv;
      hide NewPins;
      hide PinnedTo;
      hide HasLiveRoot;
      hide HasPhysical;
      hide OperandsAre;
      hide PhysicalValue;
      ghost var m := State();
      replaced, tokens := [], [];
      NoPins(m);
      NoOperands(m);
      assert operands[..0] == [];
      for i := 0 to |operands|
        invariant Valid() && NewPins(m, operands[..i], tokens, State()) && OperandsAre(State(), operands[..i], replaced)
      {
        var v := operands[i];
        ghost var s := State();
        LivePinned(m, s, operands[..i], tokens, v);
        NewPinsAreJustPins(m, operands[..i], tokens, s);
        var p; ghost var t;
        ok, p, t := PinOperand(v);
        if !ok {
          return;
        }
        OneMorePin(m, operands[..i], tokens, s, v, t, State());
        OneMoreOperand(m, s, operands[..i], replaced, v, t, State());
        replaced, tokens := replaced + [p], tokens + [t];
        assert operands[..i + 1] == operands[..i] + [v];
      }
      assert operands[..|operands|] == operands;
      ok := true;
    }

    /** Makes room for the operands that are out and for the results, without evicting the operands that are in. */
    method MakeRoom(operands: seq<Value>, resultsSize: nat) returns (ok: bool, toSwapIn: set<Value>)
      requires Valid() && Settled(State()) && AllLive(State(), operands)
      modifies this, pool
      ensures ok ==> Valid() && Settled(State()) && Along(old(State()), State())
      ensures ok ==> forall v :: v in toSwapIn ==> HasLiveRoot(State(), v)
      ensures ok <==> EnoughRoom(old(State()), operands, resultsSize)
      ensures ok ==> toSwapIn == OperandsOut(old(State()), operands)
      ensures ok ==> RoomIsMade(old(State()), operands, resultsSize, State())
      ensures defragmentations == old(defragmentations)
      ensures FitsBeside(old(State()), resultsSize) ==> ok && toSwapIn == {} && SameButPins(old(State()), State())
    {
      hide Inv;
      hide Steady;
      hide NewPins;
      hide Released;
      hide Along;
      hide Settled;
      hide TokensFor;
      hide Reached;
      hide HasLiveRoot;
      hide FitsBeside;
      hide SameButPins;
      hide FitsAfter;
      hide HasPhysical;
      hide PinsResidents;
      hide OperandsOut;
      hide EnoughRoom;
      hide RoomIsMade;
      hide SizesOf;
      ghost var m := State();
      var pinned; ghost var tokens;
      toSwapIn, pinned, tokens := PinResidents(operands);
      ghost var s1 := State();
      OperandsAreObjects(m, s1, operands, pinned, tokens);
      if FitsBeside(m, resultsSize) { NothingToSwapIn(m, operands, resultsSize); }
      OutAreOperands(m, operands);
      PinsMoveNothing(m, pinned, tokens, s1);
      var swapInSize := TotalSize(toSwapIn);
      if FitsBeside(m, resultsSize) { EasyToPrepare(m, s1, pinned, tokens, swapInSize, resultsSize); }
      ghost var reach;
      ok, reach := FreeSpace(swapInSize + resultsSize);
      RoomIsEnough(m, s1, operands, pinned, tokens, reach, ok, resultsSize);
      if !ok {
        return;  // "unable to free enough space"
      }
      ghost var s2 := State();
      RoomMade(m, s1, s2, reach, pinned, tokens);
      UnpinAll(pinned, tokens);
      RoomReleased(m, s1, s2, State(), operands, pinned, tokens);
      RoomIsThere(m, s1, s2, State(), operands, pinned, tokens, reach, resultsSize);
      if s1 == s2 { RoomWasThere(m, s1, State(), pinned, tokens); }
    }

    /** Makes room and brings in the operands that are out.  The operands are not pinned any more when this may
        defragment. */
    method Prepare(operands: seq<Value>, resultsSize: nat) returns (ok: bool)
      requires Valid() && Settled(State()) && AllLive(State(), operands)
      modifies this, pool
      ensures ok ==> Valid() && Settled(State()) && Along(old(State()), State())
      ensures ok ==> EnoughRoom(old(State()), operands, resultsSize)
      ensures defragmentations >= old(defragmentations)
      ensures ok && defragmentations == old(defragmentations) ==> forall v :: v in operands ==> HasPhysical(State(), v)
      ensures EnoughRoom(old(State()), operands, resultsSize) && CoversOut(old(State()), operands)
                && defragmentations == old(defragmentations) ==>
                ok && HasSpace(State(), resultsSize)
      ensures FitsBeside(old(State()), resultsSize) ==> ok && SameButPins(old(State()), State())
    {
      hide Inv;
      hide Steady;
      hide Along;
      hide Settled;
      hide HasLiveRoot;
      hide FitsBeside;
      hide SameButPins;
      hide EnoughRoom;
      hide OperandsOut;
      hide HasPhysical;
      hide RoomForAll;
      hide RoomIsMade;
      hide CoversOut;
      hide HasSpace;
      hide BroughtAll;
      ghost var m := State();
      var toSwapIn;
      ok, toSwapIn := MakeRoom(operands, resultsSize);
      if ok {
        ghost var s := State();
        if CoversOut(m, operands) { CoveredRoom(m, s, operands, resultsSize); }
        ok := SwapInAll(toSwapIn);
        if ok {
          AlongSteady(m, s, State());
          SameHeldSteady(s, State());
          if defragmentations == old(defragmentations) { AllAreIn(m, s, State(), operands, resultsSize); }
        }
      }
    }

    /** Runs an operation, a start or a wait on its physical operands; a start keeps its pins until its wait. */
    method Execute(o: Instr) returns (ok: bool)
      requires Valid() && Settled(State()) && AtStep(State(), o) && (o.Op? || o.Start? || o.Wait?)
      modifies this, pool
      ensures ok ==> Valid() && Settled(State()) && StepDone(old(State()), o, State())
      ensures (forall v :: v in OperandsOf(o) ==> HasPhysical(old(State()), v)) ==> ok
      ensures defragmentations == old(defragmentations)
      ensures Untouched(old(State())) ==> ok && Untouched(State())
    {
      hide Inv;
      hide NewPins;
      hide Settled;
      hide AtStep;
      hide StepDone;
      hide OperandsAre;
      hide Untouched;
      ghost var m := State();
      OperandsAreLive(m, o);
      if Untouched(m) { OperandsInPlace(m, OperandsOf(o)); }
      var replaced; ghost var tokens;
      ok, replaced, tokens := PinOperands(OperandsOf(o));
      if ok {
        NewPinsAreJustPins(m, OperandsOf(o), tokens, State());
        PinsKeepUntouched(m, State());
        CanExecuteNow(m, State(), o, replaced, tokens);
        if o.Start? {
          FinishStart(o, replaced, tokens, m);
        } else if o.Wait? {
          FinishWait(o, m);
        } else {
          FinishOp(o, replaced, tokens, m);
        }
      }
    }

    method FinishOp(o: Instr, replaced: seq<Value>, ghost tokens: seq<nat>, ghost m: Memory)
      requires Valid() && CanExecute(State(), o, replaced) && o.Op? && Inv(m) && Settled(m)
      requires NewPins(m, o.operands, tokens, State())
      modifies this`code, this`book, this`objects, this`physical
      ensures Valid() && Settled(State()) && StepDone(m, o, State())
      ensures Untouched(old(State())) ==> Untouched(State())
    {
      hide Inv;
      hide NewPins;
      hide Settled;
      hide StepDone;
      hide CanExecute;
      hide Released;
      hide TokensFor;
      hide Untouched;
      ghost var s := State();
      ExecuteDone(s, o, replaced);
      if Untouched(s) { CanExecuteUntouched(s, o, replaced); }
      EmitExecuted(o, replaced);
      ghost var s' := State();
      OpReleases(m, s, s', o, o.operands, tokens);
      UnpinAll(o.operands, tokens);
      OpSettles(m, s, s', State(), o, o.operands, tokens);
      ReleasedAreJustPins(s', tokens, State());
      PinsKeepUntouched(s', State());
    }

    method RecordStart(o: Instr, ghost tokens: seq<nat>)
      requires o.Start?
      modifies this`invocationToVirtual, this`book
      ensures State() == old(State()).(invocationToVirtual := old(invocationToVirtual)[o.inv := o.operands],
                                       flights := old(book).flights[o.inv := tokens])
      ensures book.held == old(book).held
    {
      invocationToVirtual := invocationToVirtual[o.inv := o.operands];
      book := book.(flights := book.flights[o.inv := tokens]);
    }

    method FinishStart(o: Instr, replaced: seq<Value>, ghost tokens: seq<nat>, ghost m: Memory)
      requires Valid() && CanExecute(State(), o, replaced) && o.Start? && Inv(m) && Settled(m)
      requires NewPins(m, o.operands, tokens, State())
      modifies this`code, this`book, this`invocationToVirtual
      ensures Valid() && Settled(State()) && StepDone(m, o, State())
      ensures Untouched(old(State())) ==> Untouched(State())
    {
      hide Inv;
      hide NewPins;
      hide Settled;
      hide StepDone;
      hide CanExecute;
      hide TokensFor;
      hide Untouched;
      ghost var s := State();
      StartIsDone(m, s, o, replaced, tokens);
      if Untouched(s) { CanExecuteUntouched(s, o, replaced); }
      hide Executed;
      EmitExecuted(o, replaced);
      ghost var s' := State();
      RecordStart(o, tokens);
      if Untouched(s) { FlightsUntouched(s', State()); }
    }

    method FinishWait(o: Instr, ghost m: Memory)
      requires Valid() && CanExecute(State(), o, []) && o.Wait? && Inv(m) && Settled(m)
      requires exists tokens :: NewPins(m, [], tokens, State())
      modifies this`code, this`book, this`objects, this`physical, this`invocationToVirtual
      ensures Valid() && Settled(State()) && StepDone(m, o, State())
      ensures Untouched(old(State())) ==> Untouched(State())
    {
      hide Inv;
      hide NewPins;
      hide Settled;
      hide StepDone;
      hide CanExecute;
      hide TokensFor;
      hide Released;
      hide Untouched;
      ghost var s := State();
      WaitDone(s, o);
      var args := invocationToVirtual[o.inv];
      ghost var tokens := book.flights[o.inv];
      EmitExecuted(o, []);
      ghost var e := State();
      invocationToVirtual := invocationToVirtual - {o.inv};
      book := book.(flights := book.flights - {o.inv});
      ghost var s' := State();
      UnpinAll(args, tokens);
      WaitIsDone(m, s, s', State(), o);
      WaitUntouched(s, o, e, s', tokens, State());
    }

    /** Processes the next instruction of the original program. */
    method Process(o: Instr) returns (ok: bool)
      requires Valid() && Settled(State()) && AtStep(State(), o)
      modifies this, pool
      ensures ok ==> Valid() && Settled(State()) && StepDone(old(State()), o, State())
      ensures NeedsRoom(o) && !EnoughRoom(old(State()), OperandsOf(o), ResultsSize(o)) ==> !ok
      ensures defragmentations == old(defragmentations)
                && (NeedsRoom(o) ==>
                      EnoughRoom(old(State()), OperandsOf(o), ResultsSize(o)) && CoversOut(old(State()), OperandsOf(o))) ==>
                ok
      ensures FitsAsIs(old(State()), o) ==> ok && Untouched(State())
    {
      hide EnoughRoom;
      hide CoversOut;
      hide HasSpace;
      hide HasPhysical;
      hide Inv;
      hide Settled;
      hide AtStep;
      hide StepDone;
      hide Along;
      hide Untouched;
      hide FitsAsIs;
      hide SameButPins;
      hide StepNames;
      hide AliasAdded;
      hide BufferRemoved;
      hide Removable;
      hide RemovalIsReady;
      hide HasLiveRoot;
      ghost var m := State();
      FitsParts(m, o);
      NotACopy(m, o);
      if o.Dealloc? {
        DeallocationDone(m, o);
        if FitsAsIs(m, o) { DeallocationUntouched(m, o); }
        Deallocate(o);
        SameHeldIsSettledAgain(m, State());
        ok := true;
      } else if o.Alias? {
        AliasDone(m, o);
        if FitsAsIs(m, o) { NewAliasUntouched(m, o); }
        AddAlias(o);
        SameHeldIsSettledAgain(m, State());
        ok := true;
      } else {
        OperandsAreLive(m, o);
        ok := Prepare(OperandsOf(o), ResultsSize(o));
        if ok {
          ghost var s := State();
          AtStepAlong(m, s, o);
          if FitsAsIs(m, o) { PinsSame(m, s); FitsParts(s, o); }
          if o.Alloc? {
            ok := AddAllocation(o);
            if ok {
              SameHeldIsSettledAgain(s, State());
            }
          } else {
            ok := Execute(o);
          }
          if ok {
            StepDoneAlong(m, s, o, State());
          }
        }
      }
    }
  }

  /** The objects once an alias is linked to its base. */
  ghost function Attached(m: Memory, o: Instr, first: bool): Memory
    requires o.Alias? && o.base in m.children
  {
    m.(
      size := m.size[o.v := o.bytes], parent := m.parent[o.v := o.base], view := m.view[o.v := o.view],
      children := m.children[o.v := []][o.base := m.children[o.base] + [o.v]],
      pinCount := m.pinCount[o.v := 0],
      maybePhysicalAlias := if first then m.maybePhysicalAlias[o.v := o.v] else m.maybePhysicalAlias)
  }

  /** The code and the bookkeeping once an alias is written. */
  ghost function Emitted(m: Memory, o: Instr, now: Snapshot): Memory
    requires o.Alias? && o.base in m.chain && o.base in m.root
  {
    m.(
      chain := m.chain[o.v := {o.v} + m.chain[o.base]], root := m.root[o.v := m.root[o.base]],
      found := FoundAs(m.found, o.v, o.base),
      out := m.out + [o], trace := m.trace + [now], now := now)
  }

  lemma AliasAddedIf(m: Memory, o: Instr, first: bool)
    requires o.Alias? && StepNames(m.now.source, o).Some? && StepNames(m.now.target, o).Some?
    requires o.base in m.children && o.base in m.chain && o.base in m.root
    requires first <==> HasPhysical(m, o.base) && PhysicalValue(m, o.base) == o.base
    ensures Attached(m, o, first).chain == m.chain && Attached(m, o, first).root == m.root
    ensures AliasAdded(m, o) == Emitted(Attached(m, o, first), o, Advanced(m, o, o, m.now.home))
  {
    hide StepNames;
    hide FoundAs;
    hide Advanced;
  }

  /** The root of `v` is resident in the eyes of the object exactly if it is backed; unpinned, it is not marked. */
  ghost predicate RootIsReady(m: Memory, v: Value) {
    true == (
      && v in m.root
      && var b := m.root[v];
         && b in m.pinCount && b in m.size
         && (b in m.maybePhysicalBuffer <==> b in m.physicalBuffers)
         && (m.pinCount[b] > 0 ==> b in m.physicalBuffers)
         && (b in m.physicalBuffers ==>
               && m.maybePhysicalBuffer[b] == m.physicalBuffers[b]
               && (m.pinCount[b] == 0 ==> m.physicalBuffers[b] !in m.pinnedBuffers)))
  }

  lemma PinTargets(m: Memory, v: Value)
    requires Inv(m) && v in m.size && m.root[v] in m.now.source.live
    ensures InvTree(m) && RootIsReady(m, v)
  {
    assert TreeAt(m, v);
    var b := m.root[v];
    assert CountAt(m, b);
    if b in m.physicalBuffers {
      assert ResidentAt(m, b);
      assert m.physicalBuffers[b] in m.pinnedBuffers <==> ShouldBePinned(m, m.physicalBuffers[b]);
    }
  }

  lemma PinIsSafe(m: Memory, v: Value, t: nat)
    requires Inv(m) && HasLiveRoot(m, v) && t !in m.held
    ensures InvTree(m) && v in m.size && RootIsReady(m, v)
    ensures forall n :: PinnedTo(m, v, t, n) ==> Inv(n) && n.held == m.held[t := v]
  {
    PinTargets(m, v);
    if m.root[v] in m.physicalBuffers {
      PinKeepsInv(m, v, t);
    }
  }

  lemma UnpinIsSafe(m: Memory, t: nat)
    requires Inv(m) && FreePin(m, t)
    ensures m.held[t] in m.size && InvTree(m) && PinIsReady(m, t)
    ensures forall n :: UnpinnedTo(m, t, n) ==> Inv(n) && n.held == m.held - {t}
  {
    UnpinTargets(m, t);
    UnpinKeepsInv(m, t);
  }

  /** Pin `t` is counted on its whole chain and marks the physical buffer of its root. */
  ghost predicate PinIsReady(m: Memory, t: nat) {
    true == (
      && t in m.held && m.held[t] in m.root && m.held[t] in m.chain
      && (forall w :: w in m.chain[m.held[t]] ==> w in m.pinCount && m.pinCount[w] > 0)
      && var b := m.root[m.held[t]];
         && b in m.size && b in m.maybePhysicalBuffer && b in m.physicalBuffers && b in m.pinCount && m.pinCount[b] > 0
         && m.maybePhysicalBuffer[b] == m.physicalBuffers[b]
         && m.physicalBuffers[b] in m.pinnedBuffers && m.pinnedBuffers[m.physicalBuffers[b]] == 1)
  }

  lemma UnpinTargets(m: Memory, t: nat)
    requires Inv(m) && t in m.held
    ensures m.held[t] in m.size && InvTree(m) && PinIsReady(m, t)
  {
    HeldIsPinned(m, t);
    var b := m.root[m.held[t]];
    assert ResidentAt(m, b);
    assert ShouldBePinned(m, m.physicalBuffers[b]);
  }

  lemma AliasesAreObjects(m: Memory)
    requires InvTree(m) && InvAlias(m)
    ensures forall a :: a in m.maybePhysicalAlias ==> a in m.size && a in m.parent
  {
    forall a | a in m.maybePhysicalAlias ensures a in m.size && a in m.parent {
      assert AliasAt(m, a);
    }
  }

  lemma EvictFacts(m: Memory, b: Value)
    requires CanSwapOut(m, b)
    ensures b in m.maybePhysicalBuffer && m.maybePhysicalBuffer[b] == m.physicalBuffers[b]
    ensures InvTree(m) && InRange(m.pool, m.physicalBuffers[b].value)
    ensures forall a :: a in m.maybePhysicalAlias ==> a in m.size
    ensures WithoutAliasesOf(m, b) == Invalidated(m.maybePhysicalAlias, m.chain, b)
  {
    AliasesAreObjects(m);
    assert ResidentAt(m, b);
    InvalidatedAgrees(m, b);
  }

  lemma InvalidatedAgrees(m: Memory, b: Value)
    requires InvTree(m) && b !in m.maybePhysicalAlias
    requires forall a :: a in m.maybePhysicalAlias ==> a in m.size
    ensures WithoutAliasesOf(m, b) == Invalidated(m.maybePhysicalAlias, m.chain, b)
  {}
}
