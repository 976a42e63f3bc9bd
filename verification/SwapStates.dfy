/** Moving a buffer out of the small memory and back, and renewing an alias. */
module SwapStates {
  import opened Basics
  import opened Totals
  import opened Ir
  import opened Pools
  import opened Replays
  import opened Refinement
  import opened AllocationOrders
  import opened ValueSizes
  import opened MemoryStates

  /** `n` differs from `m` by housekeeping only: the objects, the pins, the programs in flight and the progress
      through the original program are the same, pinned buffers have not moved, their aliases are still valid, and code was
      only added. */
  ghost predicate Undisturbed(m: Memory, n: Memory) {
    && n.original == m.original && n.firstFresh == m.firstFresh
    && n.size == m.size && n.parent == m.parent && n.view == m.view && n.children == m.children
    && n.chain == m.chain && n.root == m.root
    && n.pinCount == m.pinCount && n.held == m.held && n.flights == m.flights
    && n.invocationToVirtual == m.invocationToVirtual
    && n.pinnedBuffers == m.pinnedBuffers && n.totalPinnedSize == m.totalPinnedSize
    && n.now.pos == m.now.pos && n.now.source == m.now.source
    && n.pool.geo == m.pool.geo
    && n.nextValue >= m.nextValue && m.out <= n.out
    && (forall b :: b in m.physicalBuffers && b in m.pinCount && m.pinCount[b] > 0 ==>
          b in n.physicalBuffers && n.physicalBuffers[b] == m.physicalBuffers[b])
    && (forall a :: a in m.maybePhysicalAlias && HasPinnedRoot(m, a) ==> a in n.maybePhysicalAlias)
  }

  ghost predicate HasPinnedRoot(m: Memory, a: Value) {
    a in m.root && m.root[a] in m.pinCount && m.pinCount[m.root[a]] > 0
  }

  /** No name below `limit` was taken. */
  ghost predicate NamesKept(limit: Value, m: Memory, n: Memory) {
    forall v :: v in n.now.target.access && v < limit ==> v in m.now.target.access
  }

  /** `n` is reached from `m` by housekeeping that takes only new names. */
  ghost predicate Steady(m: Memory, n: Memory) {
    true == (Undisturbed(m, n) && NamesKept(m.nextValue, m, n))
  }

  lemma SteadyTransitive(l: Memory, m: Memory, n: Memory)
    requires Steady(l, m) && Steady(m, n)
    ensures Steady(l, n)
  {}

  // -------------------------------------------------------------------------
  // Parts of the invariant that housekeeping leaves alone

  ghost predicate SameTree(m: Memory, n: Memory) {
    && n.size == m.size && n.parent == m.parent && n.view == m.view && n.children == m.children
    && n.pinCount.Keys == m.pinCount.Keys && n.chain == m.chain && n.root == m.root
  }

  lemma TreeFrame(m: Memory, n: Memory)
    requires InvTree(m) && SameTree(m, n)
    ensures InvTree(n)
  {
    forall v | v in n.size ensures TreeAt(n, v) {
      assert TreeAt(m, v);
    }
  }

  ghost predicate AccessKept(m: Memory, n: Memory) {
    forall v :: v in m.now.target.access ==>
      v in n.now.target.access && n.now.target.access[v] == m.now.target.access[v]
  }

  lemma NamesFrame(m: Memory, n: Memory)
    requires InvNames(m) && SameTree(m, n) && AccessKept(m, n)
    requires n.now.source == m.now.source
    requires n.firstFresh == m.firstFresh && n.nextValue >= m.nextValue
    requires forall v :: v in n.now.target.access ==> v in m.now.target.access || m.firstFresh <= v < n.nextValue
    ensures InvNames(n)
  {
    forall v | v in n.size ensures NameAt(n, v) {
      assert NameAt(m, v);
    }
  }

  // -------------------------------------------------------------------------
  // Swapping out

  /** The code: a new swap buffer `x`, a store to it, the physical buffer freed. */
  ghost function SwappedOut(m: Memory, b: Value): Memory
    requires b in m.physicalBuffers && b in m.size
  {
    var x, p, s := m.nextValue, m.physicalBuffers[b], m.now;
    var s1 := AfterAlloc(s, x, Xram);
    var s2 := AfterCopy(s1, b, x);
    m.(
      nextValue := x + 1,
      out := m.out + [Alloc(x, Xram, m.size[b])] + [Copy(x, p.value)] + [Dealloc(p.value, Lram)],
      trace := m.trace + [s1] + [s2] + [AfterFree(s2, p.value)],
      now := AfterFree(s2, p.value),
      swappedOutValue := m.swappedOutValue[b := x],
      maybePhysicalAlias := WithoutAliasesOf(m, b),
      maybePhysicalBuffer := m.maybePhysicalBuffer - {b},
      physicalBuffers := m.physicalBuffers - {b},
      lastUsed := Without(m.lastUsed, p),
      pool := Freed(m.pool, p.value))
  }

  ghost predicate CanSwapOut(m: Memory, b: Value) {
    && Inv(m) && b in m.physicalBuffers && b in m.size && b in m.pinCount && m.pinCount[b] == 0
  }

  /** A buffer of the target that is a home and is held by no original program in flight is idle. */
  lemma IdleHome(s: Snapshot, b: Value)
    requires Matched(s) && b in s.home && !Busy(s.source, b)
    ensures !Busy(s.target, s.home[b])
  {
    forall inv, i | inv in s.target.inflight && 0 <= i < |s.target.inflight[inv]|
      ensures s.target.inflight[inv][i].root != s.home[b]
    {
      assert SamePart(s, s.source.inflight[inv][i], s.target.inflight[inv][i]);
    }
  }

  lemma CertifyThree(
      original: seq<Instr>, program: seq<Instr>, trace: seq<Snapshot>,
      e1: Instr, s1: Snapshot, e2: Instr, s2: Snapshot, e3: Instr, s3: Snapshot)
    requires Certified(original, program, trace) && Matched(trace[|program|])
    requires Linked(original, trace[|program|], e1, s1) && Linked(original, s1, e2, s2) && Linked(original, s2, e3, s3)
    ensures Certified(original, program + [e1] + [e2] + [e3], trace + [s1] + [s2] + [s3])
    ensures Matched(s3)
  {
    CertifyNext(original, program, trace, e1, s1);
    CertifyNext(original, program + [e1], trace + [s1], e2, s2);
    CertifyNext(original, program + [e1] + [e2], trace + [s1] + [s2], e3, s3);
    LinkKeepsMatched(original, trace[|program|], e1, s1);
    LinkKeepsMatched(original, s1, e2, s2);
    LinkKeepsMatched(original, s2, e3, s3);
  }

  function AfterAlloc(s: Snapshot, x: Value, space: Space): Snapshot {
    s.(target := s.target.(access := s.target.access[x := Access(x, [])], live := s.target.live[x := space]))
  }

  function AfterCopy(s: Snapshot, b: Value, x: Value): Snapshot {
    s.(home := s.home[b := x])
  }

  function AfterFree(s: Snapshot, p: Value): Snapshot {
    s.(target := s.target.(live := s.target.live - {p}))
  }

  /** Allocate `x`, copy the home of `b` there and free the old home: three housekeeping links. */
  lemma MoveLinks(original: seq<Instr>, s: Snapshot, b: Value, x: Value, space: Space, bytes: nat)
    requires Matched(s) && b in s.home && !Busy(s.source, b) && x !in s.target.access
    ensures var s1 := AfterAlloc(s, x, space); var s2 := AfterCopy(s1, b, x);
            && s.home[b] in s.target.live
            && Linked(original, s, Alloc(x, space, bytes), s1)
            && Linked(original, s1, Copy(x, s.home[b]), s2)
            && Linked(original, s2, Dealloc(s.home[b], s.target.live[s.home[b]]), AfterFree(s2, s.home[b]))
  {
    IdleHome(s, b);
    var p := s.home[b];
    assert x !in s.target.live && x !in s.home.Values && x != p;
    var s1 := AfterAlloc(s, x, space);
    var s2 := AfterCopy(s1, b, x);
    assert !Busy(s2.target, p);
    assert p !in s2.home.Values;
  }

  /** Moves of an unpinned buffer keep the certificate. */
  lemma MoveTrace(m: Memory, b: Value, x: Value, space: Space, bytes: nat)
    requires Inv(m) && b in m.now.source.live && b in m.pinCount && m.pinCount[b] == 0 && x !in m.now.target.access
    ensures var s := m.now; var s1 := AfterAlloc(s, x, space); var s2 := AfterCopy(s1, b, x);
            && b in s.home && s.home[b] in s.target.live
            && var s3 := AfterFree(s2, s.home[b]);
            && Certified(m.original, m.out + [Alloc(x, space, bytes)] + [Copy(x, s.home[b])] + [Dealloc(s.home[b], s.target.live[s.home[b]])],
                         m.trace + [s1] + [s2] + [s3])
            && Matched(s3)
  {
    var s := m.now;
    if Busy(s.source, b) { BusyIsPinned(m, b); }
    assert HomeAt(m, b);
    MoveLinks(m.original, s, b, x, space, bytes);
    var s1 := AfterAlloc(s, x, space);
    var s2 := AfterCopy(s1, b, x);
    CertifyThree(m.original, m.out, m.trace, Alloc(x, space, bytes), s1, Copy(x, s.home[b]), s2,
                 Dealloc(s.home[b], s.target.live[s.home[b]]), AfterFree(s2, s.home[b]));
  }

  lemma SwapOutTrace(m: Memory, b: Value)
    requires CanSwapOut(m, b)
    ensures InvTrace(SwappedOut(m, b))
  {
    assert HomeAt(m, b);
    MoveTrace(m, b, m.nextValue, Xram, m.size[b]);
  }

  lemma SwapOutNames(m: Memory, b: Value)
    requires InvTree(m) && InvNames(m) && b in m.physicalBuffers && b in m.size
    ensures InvTree(SwappedOut(m, b)) && InvNames(SwappedOut(m, b))
  {
    var n := SwappedOut(m, b);
    TreeFrame(m, n);
    assert AccessKept(m, n);
    NamesFrame(m, n);
  }

  lemma SwapOutHome(m: Memory, b: Value)
    requires InvHome(m) && Matched(m.now) && m.nextValue !in m.now.target.live
    requires b in m.physicalBuffers && b in m.size && b in m.now.source.live
    ensures InvHome(SwappedOut(m, b))
  {
    HomesAfterSwapOut(m, SwappedOut(m, b), b, m.nextValue);
  }

  lemma SwapOutAlias(m: Memory, b: Value)
    requires InvTree(m) && InvAlias(m) && m.nextValue !in m.now.target.access
    requires b in m.physicalBuffers && b in m.size
    ensures InvAlias(SwappedOut(m, b))
  {
    var n := SwappedOut(m, b);
    assert AccessKept(m, n);
    AliasesAfterSwapOut(m, n, b);
  }

  lemma HomesAfterSwapOut(m: Memory, n: Memory, b: Value, x: Value)
    requires Matched(m.now) && InvHome(m) && b in m.physicalBuffers && b in m.now.source.live && x !in m.now.target.live
    requires n.now == AfterFree(AfterCopy(AfterAlloc(m.now, x, Xram), b, x), m.physicalBuffers[b].value)
    requires n.swappedOutValue == m.swappedOutValue[b := x] && n.physicalBuffers == m.physicalBuffers - {b}
    ensures InvHome(n)
  {
    assert HomeAt(m, b);
    forall c | c in n.now.source.live ensures HomeAt(n, c) {
      assert HomeAt(m, c);
      assert m.now.home[c] == m.now.home[b] ==> c == b;
    }
  }

  ghost function WithoutAliasesOf(m: Memory, b: Value): map<Value, Value> {
    map a | a in m.maybePhysicalAlias && !(a in m.chain && b in m.chain[a]) :: m.maybePhysicalAlias[a]
  }

  lemma AliasesAfterSwapOut(m: Memory, n: Memory, b: Value)
    requires InvTree(m) && InvAlias(m) && SameTree(m, n)
    requires n.now.source == m.now.source && AccessKept(m, n)
    requires n.maybePhysicalAlias == WithoutAliasesOf(m, b) && n.physicalBuffers == m.physicalBuffers - {b}
    ensures InvAlias(n)
  {
    forall a | a in n.maybePhysicalAlias ensures AliasAt(n, a) {
      assert AliasAt(m, a);
      assert TreeAt(m, a);
      forall w | w in m.chain[a] && m.IsResident(w) ensures n.IsResident(w) {
        RootOfChain(m, a, w);
        assert TreeAt(m, w);
      }
    }
  }

  lemma {:induction false} WithoutRemoves<T>(s: seq<T>, x: T)
    requires NoDuplicates(s)
    ensures NoDuplicates(Without(s, x))
    ensures forall y :: y in Without(s, x) <==> y in s && y != x
    decreases |s|
  {
    if s != [] {
      assert NoDuplicates(s[1..]);
      assert s[0] !in s[1..];
      WithoutRemoves(s[1..], x);
      var w := Without(s[1..], x);
      if s[0] != x {
        assert Without(s, x) == [s[0]] + w;
        assert s[0] !in w;
      }
    }
  }

  /** Distinct resident buffers have distinct physical buffers. */
  lemma DistinctHomes(m: Memory, b: Value, c: Value)
    requires InvHome(m) && Matched(m.now) && InvPhysical(m)
    requires b in m.physicalBuffers && c in m.physicalBuffers && b != c
    ensures m.physicalBuffers[b].value != m.physicalBuffers[c].value
  {
    assert HomeAt(m, b) && HomeAt(m, c);
  }

  ghost predicate DistinctFrom(m: Memory, b: Value)
    requires b in m.physicalBuffers
  {
    forall c :: c in m.physicalBuffers && c != b ==> m.physicalBuffers[c].value != m.physicalBuffers[b].value
  }

  /** What removing the physical buffer of `b` leaves of the correspondence. */
  lemma RemovalPhysical(m: Memory, n: Memory, b: Value)
    requires InvPhysical(m) && b in m.physicalBuffers && DistinctFrom(m, b)
    requires n.now.source.live.Keys >= m.now.source.live.Keys - {b} && n.now.source.live.Keys <= m.now.source.live.Keys
    requires n.size == m.size && n.physicalBuffers == m.physicalBuffers - {b}
    requires n.physicalBuffers.Keys <= n.now.source.live.Keys
    requires n.maybePhysicalBuffer == m.maybePhysicalBuffer - {b} ||
             (n.maybePhysicalBuffer == m.maybePhysicalBuffer && b !in n.now.source.live)
    requires n.lastUsed == Without(m.lastUsed, m.physicalBuffers[b])
    requires n.pool == Freed(m.pool, m.physicalBuffers[b].value)
    ensures InvPhysical(n)
  {
    var p := m.physicalBuffers[b];
    OwnerOf(m, b);
    hide ResidentAt;
    hide NoDuplicates;
    hide Backs;
    hide Exact;
    RemovalList(m, n, b);
    FreeKeepsSound(m.pool, p.value);
    RemovalCovers(m, n, b);
    forall c | c in n.physicalBuffers ensures ResidentAt(n, c) {
      assert ResidentAt(m, c);
      ResidentStays(m, n, b, c);
    }
    hide DistinctFrom;
    hide Freed;
  }

  lemma OwnerOf(m: Memory, b: Value)
    requires InvPhysical(m) && b in m.physicalBuffers
    ensures m.physicalBuffers[b].owner == b && m.physicalBuffers[b].value in m.pool.live
  {
    assert ResidentAt(m, b);
  }

  lemma ResidentStays(m: Memory, n: Memory, b: Value, c: Value)
    requires ResidentAt(m, c) && c != b && b in m.physicalBuffers && DistinctFrom(m, b)
    requires n.size == m.size && n.physicalBuffers == m.physicalBuffers - {b}
    requires n.maybePhysicalBuffer == m.maybePhysicalBuffer - {b} || n.maybePhysicalBuffer == m.maybePhysicalBuffer
    requires n.pool == Freed(m.pool, m.physicalBuffers[b].value)
    ensures ResidentAt(n, c)
  {}

  lemma RemovalList(m: Memory, n: Memory, b: Value)
    requires NoDuplicates(m.lastUsed) && (forall q :: q in m.lastUsed <==> Backs(m, q))
    requires b in m.physicalBuffers && m.physicalBuffers[b].owner == b
    requires n.physicalBuffers == m.physicalBuffers - {b} && n.lastUsed == Without(m.lastUsed, m.physicalBuffers[b])
    ensures NoDuplicates(n.lastUsed) && (forall q :: q in n.lastUsed <==> Backs(n, q))
  {
    WithoutRemoves(m.lastUsed, m.physicalBuffers[b]);
    forall q ensures q in n.lastUsed <==> Backs(n, q) {
      assert q in m.lastUsed <==> Backs(m, q);
    }
  }

  lemma RemovalCovers(m: Memory, n: Memory, b: Value)
    requires forall v :: v in m.pool.live ==> exists c :: c in m.physicalBuffers && m.physicalBuffers[c].value == v
    requires b in m.physicalBuffers && n.physicalBuffers == m.physicalBuffers - {b}
    requires n.pool == Freed(m.pool, m.physicalBuffers[b].value)
    ensures forall v :: v in n.pool.live ==> exists c :: c in n.physicalBuffers && n.physicalBuffers[c].value == v
  {
    forall v | v in n.pool.live ensures exists c :: c in n.physicalBuffers && n.physicalBuffers[c].value == v {
      var c :| c in m.physicalBuffers && m.physicalBuffers[c].value == v;
      assert c in n.physicalBuffers && n.physicalBuffers[c].value == v;
    }
  }

  lemma SwapOutPhysical(m: Memory, b: Value)
    requires InvPhysical(m) && b in m.physicalBuffers && b in m.size && DistinctFrom(m, b)
    ensures InvPhysical(SwappedOut(m, b))
  {
    RemovalPhysical(m, SwappedOut(m, b), b);
  }

  /** Housekeeping that keeps the pinned buffers in place keeps the pin accounting. */
  lemma PinsFrame(m: Memory, n: Memory)
    requires InvPins(m) && m.pinCount.Keys == m.size.Keys
    requires n.held == m.held && n.chain == m.chain && n.size == m.size && n.parent == m.parent
    requires n.pinCount == m.pinCount && n.pinnedBuffers == m.pinnedBuffers && n.totalPinnedSize == m.totalPinnedSize
    requires forall b :: b in m.pinCount && m.pinCount[b] > 0 ==>
               (b in m.physicalBuffers <==> b in n.physicalBuffers)
               && (b in m.physicalBuffers ==> n.physicalBuffers[b] == m.physicalBuffers[b])
    ensures InvPins(n)
  {
    assert PinnedSizes(n) == PinnedSizes(m);
    hide CountAt;
    hide ShouldBePinned;
    hide PinnedSizes;
    forall v | v in n.size ensures CountAt(n, v) {
      assert CountAt(m, v);
      CountStays(m, n, v);
    }
    MarksStay(m, n);
  }

  lemma CountStays(m: Memory, n: Memory, v: Value)
    requires CountAt(m, v) && n.held == m.held && n.chain == m.chain && n.parent == m.parent && n.pinCount == m.pinCount
    requires v in m.pinCount && m.pinCount[v] > 0 ==> (v in m.physicalBuffers <==> v in n.physicalBuffers)
    ensures CountAt(n, v)
  {
    assert Through(n, v) == Through(m, v);
  }

  lemma MarksStay(m: Memory, n: Memory)
    requires n.pinCount == m.pinCount
    requires forall b :: b in m.pinCount && m.pinCount[b] > 0 ==>
               (b in m.physicalBuffers <==> b in n.physicalBuffers)
               && (b in m.physicalBuffers ==> n.physicalBuffers[b] == m.physicalBuffers[b])
    ensures forall p :: ShouldBePinned(n, p) <==> ShouldBePinned(m, p)
  {}

  lemma FlightsFrame(m: Memory, n: Memory)
    requires InvFlights(m)
    requires n.held == m.held && n.flights == m.flights && n.invocationToVirtual == m.invocationToVirtual
    requires n.now.source.inflight == m.now.source.inflight
    requires forall v :: v in m.now.source.access ==>
              v in n.now.source.access && n.now.source.access[v] == m.now.source.access[v]
    ensures InvFlights(n)
  {
    forall inv, i | inv in n.now.source.inflight && 0 <= i < |n.now.source.inflight[inv]| ensures FlightAt(n, inv, i) {
      assert FlightAt(m, inv, i);
    }
  }

  lemma SwapOutReplay(m: Memory, b: Value)
    requires InvReplay(m) && b in m.physicalBuffers && b in m.size
    ensures InvReplay(SwappedOut(m, b))
  {
    var geo, x, p := m.pool.geo, m.nextValue, m.physicalBuffers[b];
    var o := m.out + [Alloc(x, Xram, m.size[b])];
    ReplayOneMore(geo, m.out, Alloc(x, Xram, m.size[b]));
    ReplayOneMore(geo, o, Copy(x, p.value));
    ReplayOneMore(geo, o + [Copy(x, p.value)], Dealloc(p.value, Lram));
  }

  /** Taking a physical buffer off the eviction list takes its value off the list of values. */
  lemma {:induction false} ValuesWithout(ps: seq<PhysicalBuffer>, p: PhysicalBuffer)
    requires forall q :: q in ps && q.value == p.value ==> q == p
    ensures ValuesOf(Without(ps, p)) == Without(ValuesOf(ps), p.value)
    decreases |ps|
  {
    if ps != [] {
      assert ValuesOf(ps)[1..] == ValuesOf(ps[1..]);
      assert ps[0] in ps;
      ValuesWithout(ps[1..], p);
    }
  }

  /** The list loses the one entry of a resident buffer. */
  lemma ListLoses(m: Memory, b: Value)
    requires InvPhysical(m) && b in m.physicalBuffers && DistinctFrom(m, b)
    ensures ValuesOf(Without(m.lastUsed, m.physicalBuffers[b])) == Without(ValuesOf(m.lastUsed), m.physicalBuffers[b].value)
  {
    OwnerOf(m, b);
    var p := m.physicalBuffers[b];
    forall q | q in m.lastUsed && q.value == p.value ensures q == p {
      assert Backs(m, q);
    }
    ValuesWithout(m.lastUsed, p);
  }

  lemma SwapOutOrder(m: Memory, b: Value)
    requires InvPhysical(m) && InvOrder(m) && b in m.physicalBuffers && b in m.size && DistinctFrom(m, b)
    ensures InvOrder(SwappedOut(m, b))
  {
    hide InvPhysical;
    hide Residents;
    hide DistinctFrom;
    var x, p := m.nextValue, m.physicalBuffers[b];
    var o := m.out + [Alloc(x, Xram, m.size[b])];
    ResidentsNext(m.out, Alloc(x, Xram, m.size[b]));
    ResidentsNext(o, Copy(x, p.value));
    ResidentsNext(o + [Copy(x, p.value)], Dealloc(p.value, Lram));
    ListLoses(m, b);
  }

  lemma SwapOutCode(m: Memory, b: Value)
    requires b in m.physicalBuffers && b in m.size
    ensures var n := SwappedOut(m, b);
            && n.out == m.out + [Alloc(m.nextValue, Xram, m.size[b])] + [Copy(m.nextValue, m.physicalBuffers[b].value)]
                        + [Dealloc(m.physicalBuffers[b].value, Lram)]
            && n.size == m.size && n.original == m.original && n.now.pos == m.now.pos
            && n.now.home == m.now.home[b := m.nextValue]
            && n.now.target.access.Keys == m.now.target.access.Keys + {m.nextValue}
            && n.now.target.live.Keys == m.now.target.live.Keys + {m.nextValue} - {m.physicalBuffers[b].value}
            && (forall a :: a in n.maybePhysicalAlias ==>
                  a in m.maybePhysicalAlias && n.maybePhysicalAlias[a] == m.maybePhysicalAlias[a])
  {}

  lemma SwapOutStock(m: Memory, b: Value)
    requires InvPhysical(m) && InvStock(m) && b in m.physicalBuffers && b in m.size && DistinctFrom(m, b)
    requires b in m.now.home && m.now.home[b] == m.physicalBuffers[b].value && m.nextValue !in m.now.target.access
    ensures InvStock(SwappedOut(m, b))
  {
    hide SwappedOut;
    hide InvOrder;
    hide InvClean;
    hide InvSizes;
    hide InvPhysical;
    hide DistinctFrom;
    SwapOutOrder(m, b);
    SwapOutCode(m, b);
    SizesMove(m, SwappedOut(m, b), b, m.nextValue, Xram, Lram);
    CleanMove(m, SwappedOut(m, b), b, m.nextValue);
  }

  lemma ResidentIsHome(m: Memory, b: Value)
    requires Inv(m) && b in m.physicalBuffers
    ensures b in m.now.home && m.now.home[b] == m.physicalBuffers[b].value && m.nextValue !in m.now.target.access
  {
    assert HomeAt(m, b);
  }

  lemma ResidentIsDistinct(m: Memory, b: Value)
    requires Inv(m) && b in m.physicalBuffers
    ensures DistinctFrom(m, b) && b in m.size && b in m.now.source.live && m.now.home.Keys == m.now.source.live.Keys
  {
    assert ResidentAt(m, b);
    forall c | c in m.physicalBuffers && c != b ensures m.physicalBuffers[c].value != m.physicalBuffers[b].value {
      DistinctHomes(m, b, c);
    }
  }

  lemma SwapOutNaming(m: Memory, b: Value)
    requires CanSwapOut(m, b)
    ensures InvTree(SwappedOut(m, b)) && InvNames(SwappedOut(m, b))
    ensures InvHome(SwappedOut(m, b)) && InvAlias(SwappedOut(m, b))
  {
    ResidentIsDistinct(m, b);
    SwapOutNames(m, b);
    SwapOutHome(m, b);
    SwapOutAlias(m, b);
  }

  lemma SwapOutResidency(m: Memory, b: Value)
    requires CanSwapOut(m, b)
    ensures InvPhysical(SwappedOut(m, b)) && InvReplay(SwappedOut(m, b)) && InvStock(SwappedOut(m, b))
  {
    ResidentIsDistinct(m, b);
    ResidentIsHome(m, b);
    SwapOutStock(m, b);
    SwapOutPhysical(m, b);
    SwapOutReplay(m, b);
  }

  lemma SwapOutPinning(m: Memory, b: Value)
    requires InvPins(m) && InvFlights(m) && m.pinCount.Keys == m.size.Keys
    requires b in m.physicalBuffers && b in m.pinCount && m.pinCount[b] == 0
    ensures InvPins(SwappedOut(m, b)) && InvFlights(SwappedOut(m, b))
  {
    PinsFrame(m, SwappedOut(m, b));
    FlightsFrame(m, SwappedOut(m, b));
  }

  /** Swapping out an unpinned buffer keeps the invariant and disturbs nothing that is pinned. */
  lemma SwapOutKeepsInv(m: Memory, b: Value)
    requires CanSwapOut(m, b)
    ensures Inv(SwappedOut(m, b)) && Undisturbed(m, SwappedOut(m, b)) && NamesKept(m.nextValue, m, SwappedOut(m, b))
  {
    SwapOutTrace(m, b);
    SwapOutNaming(m, b);
    SwapOutResidency(m, b);
    SwapOutPinning(m, b);
    BackedIsBuffer(m, b);
    AliasesApart(m, b);
    SwapOutUndisturbed(m, b);
  }

  lemma BackedIsBuffer(m: Memory, b: Value)
    requires InvNames(m) && InvPhysical(m) && b in m.physicalBuffers
    ensures b !in m.parent
  {
    assert b in m.now.source.live;
  }

  /** The aliases of an unpinned buffer are not those of a pinned one. */
  lemma AliasesApart(m: Memory, b: Value)
    requires InvTree(m) && InvAlias(m) && b in m.pinCount && m.pinCount[b] == 0 && b !in m.parent
    ensures forall a :: a in m.maybePhysicalAlias && HasPinnedRoot(m, a) ==> a in m.chain && b !in m.chain[a]
  {
    forall a | a in m.maybePhysicalAlias && HasPinnedRoot(m, a) ensures a in m.chain && b !in m.chain[a] {
      assert AliasAt(m, a);
      assert TreeAt(m, a);
      if b in m.chain[a] { BufferOfChain(m, a, b); }
    }
  }

  lemma SwapOutUndisturbed(m: Memory, b: Value)
    requires b in m.physicalBuffers && b in m.size && b in m.pinCount && m.pinCount[b] == 0
    requires forall a :: a in m.maybePhysicalAlias && HasPinnedRoot(m, a) ==> a in m.chain && b !in m.chain[a]
    ensures Undisturbed(m, SwappedOut(m, b)) && NamesKept(m.nextValue, m, SwappedOut(m, b))
  {}

  // -------------------------------------------------------------------------
  // Swapping in

  ghost function NewPhysical(m: Memory, b: Value, p: Value, base: nat): PhysicalBuffer {
    PhysicalBuffer(p, b, base * m.pool.geo.wordBytes)
  }

  /** The code: a new physical buffer `p`, a load into it, the swap buffer freed. */
  ghost function SwappedIn(m: Memory, b: Value, p: Value, base: nat): Memory
    requires b in m.swappedOutValue && b in m.size && m.pool.geo.wordBytes > 0
  {
    var x, s := m.swappedOutValue[b], m.now;
    var s1 := AfterAlloc(s, p, Lram);
    var s2 := AfterCopy(s1, b, p);
    m.(
      out := m.out + [Alloc(p, Lram, m.size[b])] + [Copy(p, x)] + [Dealloc(x, Xram)],
      trace := m.trace + [s1] + [s2] + [AfterFree(s2, x)],
      now := AfterFree(s2, x),
      swappedOutValue := m.swappedOutValue - {b},
      maybePhysicalBuffer := m.maybePhysicalBuffer[b := NewPhysical(m, b, p, base)],
      physicalBuffers := m.physicalBuffers[b := NewPhysical(m, b, p, base)],
      lastUsed := m.lastUsed + [NewPhysical(m, b, p, base)],
      pool := Allocated(m.pool, p, base, m.pool.geo.WordsFor(m.size[b])),
      found := m.found[p := base * m.pool.geo.wordBytes])
  }

  /** The pool has room for a buffer of `bytes` bytes at word `base`. */
  ghost predicate HasRoom(pool: PoolState, bytes: nat, base: nat) {
    && pool.geo.Valid()
    && bytes + pool.UsedBytes() <= pool.geo.UsableBytes()
    && Placement(pool, bytes) == Some(base)
  }

  ghost predicate FreshName(m: Memory, p: Value) {
    m.firstFresh <= p < m.nextValue && p !in m.now.target.access
  }

  ghost predicate CanSwapIn(m: Memory, b: Value, p: Value, base: nat) {
    && Inv(m) && b in m.now.source.live && b !in m.physicalBuffers
    && FreshName(m, p)
    && b in m.size && HasRoom(m.pool, m.size[b], base)
  }

  lemma SwappedOutFacts(m: Memory, b: Value)
    requires Inv(m) && b in m.now.source.live && b !in m.physicalBuffers
    ensures b in m.size && b !in m.parent && b in m.pinCount && m.pinCount[b] == 0
    ensures b in m.swappedOutValue && b in m.now.home && m.now.home[b] == m.swappedOutValue[b]
    ensures m.swappedOutValue[b] in m.now.target.live && m.now.target.live[m.swappedOutValue[b]] == Xram
  {
    assert HomeAt(m, b);
    assert CountAt(m, b);
  }

  lemma SwapInTrace(m: Memory, b: Value, p: Value, base: nat)
    requires CanSwapIn(m, b, p, base)
    ensures b in m.swappedOutValue && InvTrace(SwappedIn(m, b, p, base))
  {
    SwappedOutFacts(m, b);
    MoveTrace(m, b, p, Lram, m.size[b]);
  }

  lemma SwapInNames(m: Memory, b: Value, p: Value, base: nat)
    requires InvTree(m) && InvNames(m) && FreshName(m, p)
    requires b in m.swappedOutValue && b in m.size && m.pool.geo.wordBytes > 0
    ensures InvTree(SwappedIn(m, b, p, base)) && InvNames(SwappedIn(m, b, p, base))
  {
    var n := SwappedIn(m, b, p, base);
    TreeFrame(m, n);
    assert AccessKept(m, n);
    NamesFrame(m, n);
  }

  lemma HomesAfterSwapIn(m: Memory, n: Memory, b: Value, x: Value, p: PhysicalBuffer)
    requires Matched(m.now) && InvHome(m) && b !in m.physicalBuffers && b in m.now.source.live
    requires p.value !in m.now.target.live
    requires b in m.swappedOutValue && x == m.swappedOutValue[b]
    requires n.now == AfterFree(AfterCopy(AfterAlloc(m.now, p.value, Lram), b, p.value), x)
    requires n.swappedOutValue == m.swappedOutValue - {b} && n.physicalBuffers == m.physicalBuffers[b := p]
    ensures InvHome(n)
  {
    assert HomeAt(m, b);
    forall c | c in n.now.source.live ensures HomeAt(n, c) {
      assert HomeAt(m, c);
      assert m.now.home[c] == m.now.home[b] ==> c == b;
    }
  }

  lemma SwapInHome(m: Memory, b: Value, p: Value, base: nat)
    requires InvHome(m) && Matched(m.now) && p !in m.now.target.live && b !in m.physicalBuffers
    requires b in m.swappedOutValue && b in m.size && b in m.now.source.live && m.pool.geo.wordBytes > 0
    ensures InvHome(SwappedIn(m, b, p, base))
  {
    HomesAfterSwapIn(m, SwappedIn(m, b, p, base), b, m.swappedOutValue[b], NewPhysical(m, b, p, base));
  }

  /** Nothing that was resident has moved. */
  ghost predicate ResidentKept(m: Memory, n: Memory) {
    && (forall b :: b in m.physicalBuffers ==> b in n.physicalBuffers && n.physicalBuffers[b] == m.physicalBuffers[b])
    && m.maybePhysicalAlias.Keys <= n.maybePhysicalAlias.Keys
  }

  lemma AliasFrame(m: Memory, n: Memory, a: Value)
    requires AliasAt(m, a) && ResidentKept(m, n) && SameTree(m, n) && AccessKept(m, n) && n.now.source == m.now.source
    requires a in m.maybePhysicalAlias && n.maybePhysicalAlias[a] == m.maybePhysicalAlias[a]
    ensures AliasAt(n, a)
  {}

  lemma SwapInAlias(m: Memory, b: Value, p: Value, base: nat)
    requires InvAlias(m) && p !in m.now.target.access && b !in m.physicalBuffers
    requires b in m.swappedOutValue && b in m.size && m.pool.geo.wordBytes > 0
    ensures InvAlias(SwappedIn(m, b, p, base))
  {
    var n := SwappedIn(m, b, p, base);
    assert AccessKept(m, n) && ResidentKept(m, n) && SameTree(m, n);
    forall a | a in n.maybePhysicalAlias ensures AliasAt(n, a) {
      AliasFrame(m, n, a);
    }
  }

  lemma FreshNotInPool(m: Memory, p: Value)
    requires Inv(m) && p !in m.now.target.access
    ensures p !in m.pool.live && p !in m.now.target.live
    ensures forall b :: b in m.physicalBuffers ==> m.physicalBuffers[b].value != p
  {
    forall b | b in m.physicalBuffers ensures m.physicalBuffers[b].value != p {
      assert HomeAt(m, b);
    }
  }

  /** What adding a physical buffer `p` for `b` leaves of the correspondence. */
  lemma AdditionPhysical(m: Memory, n: Memory, b: Value, p: PhysicalBuffer, base: nat)
    requires InvPhysical(m) && b !in m.physicalBuffers && p.value !in m.pool.live
    requires n.size.Keys >= m.size.Keys && b in n.size && (forall c :: c in m.size ==> n.size[c] == m.size[c])
    requires HasRoom(m.pool, n.size[b], base) && p == NewPhysical(m, b, p.value, base)
    requires n.now.source.live.Keys == m.now.source.live.Keys + {b}
    requires n.physicalBuffers == m.physicalBuffers[b := p]
    requires n.maybePhysicalBuffer == m.maybePhysicalBuffer[b := p]
    requires n.lastUsed == m.lastUsed + [p]
    requires n.pool == Allocated(m.pool, p.value, base, m.pool.geo.WordsFor(n.size[b]))
    ensures InvPhysical(n)
  {
    hide ResidentAt;
    hide NoDuplicates;
    hide Backs;
    hide Exact;
    AllocateKeepsExact(m.pool, p.value, n.size[b]);
    AdditionList(m, n, b, p);
    AdditionCovers(m, n, b, p);
    forall c | c in n.physicalBuffers ensures ResidentAt(n, c) {
      if c == b {
        NewResident(m, n, b, p, base);
      } else {
        assert ResidentAt(m, c);
        OldResident(m, n, b, p, base, c);
      }
    }
    hide Allocated;
    hide HasRoom;
  }

  lemma NewResident(m: Memory, n: Memory, b: Value, p: PhysicalBuffer, base: nat)
    requires b in n.size && m.pool.geo.wordBytes > 0 && p == NewPhysical(m, b, p.value, base)
    requires n.physicalBuffers == m.physicalBuffers[b := p] && n.maybePhysicalBuffer == m.maybePhysicalBuffer[b := p]
    requires n.pool == Allocated(m.pool, p.value, base, m.pool.geo.WordsFor(n.size[b]))
    ensures ResidentAt(n, b)
  {}

  lemma OldResident(m: Memory, n: Memory, b: Value, p: PhysicalBuffer, base: nat, c: Value)
    requires ResidentAt(m, c) && c != b && p.value !in m.pool.live && b in n.size
    requires n.size.Keys >= m.size.Keys && (forall c :: c in m.size ==> n.size[c] == m.size[c])
    requires n.physicalBuffers == m.physicalBuffers[b := p] && n.maybePhysicalBuffer == m.maybePhysicalBuffer[b := p]
    requires n.pool == Allocated(m.pool, p.value, base, m.pool.geo.WordsFor(n.size[b]))
    ensures ResidentAt(n, c)
  {}

  lemma AdditionList(m: Memory, n: Memory, b: Value, p: PhysicalBuffer)
    requires NoDuplicates(m.lastUsed) && (forall q :: q in m.lastUsed <==> Backs(m, q))
    requires b !in m.physicalBuffers && p.owner == b
    requires n.physicalBuffers == m.physicalBuffers[b := p] && n.lastUsed == m.lastUsed + [p]
    ensures NoDuplicates(n.lastUsed) && (forall q :: q in n.lastUsed <==> Backs(n, q))
  {
    assert !Backs(m, p);
    forall q ensures q in n.lastUsed <==> Backs(n, q) {
      assert q in m.lastUsed <==> Backs(m, q);
    }
  }

  lemma AdditionCovers(m: Memory, n: Memory, b: Value, p: PhysicalBuffer)
    requires forall v :: v in m.pool.live ==> exists c :: c in m.physicalBuffers && m.physicalBuffers[c].value == v
    requires b !in m.physicalBuffers && n.physicalBuffers == m.physicalBuffers[b := p]
    requires n.pool.live.Keys == m.pool.live.Keys + {p.value}
    ensures forall v :: v in n.pool.live ==> exists c :: c in n.physicalBuffers && n.physicalBuffers[c].value == v
  {
    forall v | v in n.pool.live ensures exists c :: c in n.physicalBuffers && n.physicalBuffers[c].value == v {
      if v == p.value {
        assert n.physicalBuffers[b].value == v;
      } else {
        var c :| c in m.physicalBuffers && m.physicalBuffers[c].value == v;
        assert c in n.physicalBuffers && n.physicalBuffers[c].value == v;
      }
    }
  }

  lemma SwapInPhysical(m: Memory, b: Value, p: Value, base: nat)
    requires InvPhysical(m) && b !in m.physicalBuffers && p !in m.pool.live && b in m.now.source.live
    requires b in m.swappedOutValue && b in m.size && HasRoom(m.pool, m.size[b], base)
    ensures InvPhysical(SwappedIn(m, b, p, base))
  {
    var n := SwappedIn(m, b, p, base);
    assert n.now.source.live.Keys == m.now.source.live.Keys + {b};
    AdditionPhysical(m, n, b, NewPhysical(m, b, p, base), base);
  }

  lemma SwapInReplay(m: Memory, b: Value, p: Value, base: nat)
    requires InvReplay(m) && b in m.swappedOutValue && b in m.size && p !in m.pool.live
    requires HasRoom(m.pool, m.size[b], base)
    ensures InvReplay(SwappedIn(m, b, p, base))
  {
    var geo, x := m.pool.geo, m.swappedOutValue[b];
    var o := m.out + [Alloc(p, Lram, m.size[b])];
    ReplayOneMore(geo, m.out, Alloc(p, Lram, m.size[b]));
    ReplayOneMore(geo, o, Copy(p, x));
    ReplayOneMore(geo, o + [Copy(p, x)], Dealloc(x, Xram));
  }

  lemma ListGains(ps: seq<PhysicalBuffer>, p: PhysicalBuffer)
    ensures ValuesOf(ps + [p]) == ValuesOf(ps) + [p.value]
  {}

  lemma SwapInOrder(m: Memory, b: Value, p: Value, base: nat)
    requires InvOrder(m) && b in m.swappedOutValue && b in m.size && m.pool.geo.wordBytes > 0
    ensures InvOrder(SwappedIn(m, b, p, base))
  {
    hide Residents;
    var x := m.swappedOutValue[b];
    var o := m.out + [Alloc(p, Lram, m.size[b])];
    ResidentsNext(m.out, Alloc(p, Lram, m.size[b]));
    ResidentsNext(o, Copy(p, x));
    ResidentsNext(o + [Copy(p, x)], Dealloc(x, Xram));
    ListGains(m.lastUsed, NewPhysical(m, b, p, base));
  }

  lemma SwapInCode(m: Memory, b: Value, p: Value, base: nat)
    requires b in m.swappedOutValue && b in m.size && m.pool.geo.wordBytes > 0
    ensures var n := SwappedIn(m, b, p, base);
            && n.out == m.out + [Alloc(p, Lram, m.size[b])] + [Copy(p, m.swappedOutValue[b])] + [Dealloc(m.swappedOutValue[b], Xram)]
            && n.size == m.size && n.original == m.original && n.now.pos == m.now.pos
            && n.now.home == m.now.home[b := p]
            && n.now.target.access.Keys == m.now.target.access.Keys + {p}
            && n.now.target.live.Keys == m.now.target.live.Keys + {p} - {m.swappedOutValue[b]}
            && n.maybePhysicalAlias == m.maybePhysicalAlias
  {}

  lemma SwapInStock(m: Memory, b: Value, p: Value, base: nat)
    requires InvStock(m) && b in m.swappedOutValue && b in m.size && m.pool.geo.wordBytes > 0
    requires b in m.now.home && m.now.home[b] == m.swappedOutValue[b] && p !in m.now.target.access
    ensures InvStock(SwappedIn(m, b, p, base))
  {
    hide SwappedIn;
    hide InvOrder;
    hide InvClean;
    hide InvSizes;
    SwapInOrder(m, b, p, base);
    SwapInCode(m, b, p, base);
    SizesMove(m, SwappedIn(m, b, p, base), b, p, Lram, Xram);
    CleanMove(m, SwappedIn(m, b, p, base), b, p);
  }

  lemma SwapInNaming(m: Memory, b: Value, p: Value, base: nat)
    requires CanSwapIn(m, b, p, base) && b in m.swappedOutValue
    ensures InvTree(SwappedIn(m, b, p, base)) && InvNames(SwappedIn(m, b, p, base))
    ensures InvHome(SwappedIn(m, b, p, base)) && InvAlias(SwappedIn(m, b, p, base))
  {
    FreshNotInPool(m, p);
    SwapInNames(m, b, p, base);
    SwapInHome(m, b, p, base);
    SwapInAlias(m, b, p, base);
  }

  lemma SwapInResidency(m: Memory, b: Value, p: Value, base: nat)
    requires CanSwapIn(m, b, p, base) && b in m.swappedOutValue
    ensures InvPhysical(SwappedIn(m, b, p, base)) && InvReplay(SwappedIn(m, b, p, base))
    ensures InvStock(SwappedIn(m, b, p, base))
  {
    FreshNotInPool(m, p);
    SwappedOutFacts(m, b);
    SwapInStock(m, b, p, base);
    SwapInPhysical(m, b, p, base);
    SwapInReplay(m, b, p, base);
  }

  lemma SwapInPinning(m: Memory, b: Value, p: Value, base: nat)
    requires InvPins(m) && InvFlights(m) && m.pinCount.Keys == m.size.Keys
    requires b in m.pinCount && m.pinCount[b] == 0 && b in m.swappedOutValue && m.pool.geo.wordBytes > 0
    ensures InvPins(SwappedIn(m, b, p, base)) && InvFlights(SwappedIn(m, b, p, base))
  {
    PinsFrame(m, SwappedIn(m, b, p, base));
    FlightsFrame(m, SwappedIn(m, b, p, base));
  }

  /** Swapping a buffer back in keeps the invariant and disturbs nothing that is pinned. */
  lemma SwapInKeepsInv(m: Memory, b: Value, p: Value, base: nat)
    requires CanSwapIn(m, b, p, base)
    ensures b in m.swappedOutValue && Inv(SwappedIn(m, b, p, base)) && Undisturbed(m, SwappedIn(m, b, p, base))
    ensures NamesKept(p, m, SwappedIn(m, b, p, base))
  {
    SwappedOutFacts(m, b);
    SwapInTrace(m, b, p, base);
    SwapInNaming(m, b, p, base);
    SwapInResidency(m, b, p, base);
    SwapInPinning(m, b, p, base);
    SwapInUndisturbed(m, b, p, base);
  }

  lemma SwapInUndisturbed(m: Memory, b: Value, p: Value, base: nat)
    requires b in m.swappedOutValue && b in m.size && m.pool.geo.wordBytes > 0 && b !in m.physicalBuffers
    ensures Undisturbed(m, SwappedIn(m, b, p, base)) && NamesKept(p, m, SwappedIn(m, b, p, base))
  {}
}