/** How much room an instruction needs for its operands and results, and what stays in while room is made for it. */
module Rooms {
  import opened Basics
  import opened Totals
  import opened Ir
  import opened Pools
  import opened Refinement
  import opened AllocationOrders
  import opened MemoryStates
  import opened SwapStates
  import opened AliasStates
  import opened PinStates
  import opened StepStates
  import opened FlightStates
  import opened Evictions
  import opened Progresses
  import opened Fittings

  ghost function SizesOf(size: map<Value, nat>, values: set<Value>): map<Value, nat> {
    map v | v in values && v in size :: size[v]
  }

  /** Deallocations and aliases take no room. */
  predicate NeedsRoom(o: Instr) {
    !o.Dealloc? && !o.Alias?
  }

  function ResultsSize(o: Instr): nat {
    if o.Alloc? then o.bytes else 0
  }

  /** `bytes` more bytes are free, in one place or in several. */
  ghost predicate HasSpace(m: Memory, bytes: nat) {
    bytes + m.pool.UsedBytes() <= m.pool.geo.UsableBytes()
  }

  // -------------------------------------------------------------------------
  // What has to stay

  /** `b` is not for eviction: a program in flight uses it, or it is behind an operand that is in. */
  ghost predicate StaysIn(m: Memory, operands: seq<Value>, b: Value) {
    Busy(m.now.source, b) || exists v :: v in operands && BehindResident(m, v, b)
  }

  ghost predicate BehindResident(m: Memory, v: Value, b: Value) {
    HasPhysical(m, v) && v in m.root && m.root[v] == b
  }

  ghost function Evictable(m: Memory, operands: seq<Value>): map<Value, nat> {
    map b | b in m.physicalBuffers && !StaysIn(m, operands, b) :: WordsOf(m, b)
  }

  ghost function OperandsOut(m: Memory, operands: seq<Value>): set<Value> {
    set v | v in operands && !HasPhysical(m, v)
  }

  /** Once all buffers are evicted that need not stay, the operands that are out and the results fit beside the others. */
  ghost predicate EnoughRoom(m: Memory, operands: seq<Value>, resultsSize: nat) {
    (m.pool.usedWords - Total(Evictable(m, operands))) * m.pool.geo.wordBytes
      + Total(SizesOf(m.size, OperandsOut(m, operands))) + resultsSize <= m.pool.geo.UsableBytes()
  }

  /** The pinned are just the operands that are in. */
  ghost predicate PinsResidents(m: Memory, operands: seq<Value>, pinned: seq<Value>) {
    forall v :: v in pinned <==> v in operands && HasPhysical(m, v)
  }

  lemma PinOnChain(m: Memory, t: nat, b: Value)
    requires InvTree(m) && InvPins(m) && t in m.held && b in m.size
    requires m.held[t] in m.size && m.root[m.held[t]] == b
    ensures m.pinCount[b] > 0
  {
    assert TreeAt(m, m.held[t]);
    assert t in Through(m, b);
    PinCounts(m, b, t);
  }

  lemma PinSource(m: Memory, b: Value) returns (t: nat)
    requires InvTree(m) && InvPins(m) && m.IsBuffer(b) && m.pinCount[b] > 0
    ensures t in m.held && m.held[t] in m.size && m.held[t] in m.root && m.root[m.held[t]] == b
  {
    assert CountAt(m, b);
    assert Through(m, b) != {};
    t :| t in Through(m, b);
    BufferOfChain(m, m.held[t], b);
  }

  lemma FlightIsBusy(m: Memory, t: nat, b: Value)
    requires InvNames(m) && InvFlights(m) && Settled(m) && t in m.held && m.held[t] in m.root && m.root[m.held[t]] == b
    requires m.held[t] in m.size
    ensures Busy(m.now.source, b)
  {
    var inv, i :| inv in m.flights && 0 <= i < |m.flights[inv]| && m.flights[inv][i] == t;
    assert FlightAt(m, inv, i);
    assert NameAt(m, m.held[t]);
  }

  lemma KeptIsPinned(m: Memory, s: Memory, operands: seq<Value>, pinned: seq<Value>, tokens: seq<nat>, b: Value)
    requires Inv(m) && Inv(s) && NewPins(m, pinned, tokens, s) && PinsResidents(m, operands, pinned)
    requires AllLive(m, operands) && StaysIn(m, operands, b) && b in m.physicalBuffers
    ensures b in s.pinCount && s.pinCount[b] > 0
  {
    if Busy(m.now.source, b) {
      assert s.now == m.now;
      hide Inv;
      BusyIsPinned(s, b);
    } else {
      var v :| v in operands && BehindResident(m, v, b);
      var i :| 0 <= i < |pinned| && pinned[i] == v;
      var j :| 0 <= j < |operands| && operands[j] == v;
      assert HasLiveRoot(m, operands[j]);
      assert s.held[tokens[i]] == v;
      assert InvTree(s) && InvPins(s) && s.root == m.root && s.size == m.size;
      ResidentIsObject(m, b);
      hide Inv;
      PinOnChain(s, tokens[i], b);
    }
  }

  lemma ResidentIsObject(m: Memory, b: Value)
    requires Inv(m) && b in m.physicalBuffers
    ensures m.IsBuffer(b) && b in m.pinCount && m.physicalBuffers[b].owner == b && Backs(m, m.physicalBuffers[b])
  {
    assert ResidentAt(m, b);
    assert b in m.now.source.live;
  }

  lemma PinnedIsKept(m: Memory, s: Memory, operands: seq<Value>, pinned: seq<Value>, tokens: seq<nat>, b: Value)
    requires Inv(m) && Settled(m) && Inv(s) && NewPins(m, pinned, tokens, s) && PinsResidents(m, operands, pinned)
    requires b in m.physicalBuffers && b in s.pinCount && s.pinCount[b] > 0
    ensures StaysIn(m, operands, b)
  {
    ResidentIsObject(m, b);
    var t := PinSource(s, b);
    var v := s.held[t];
    if t in m.held {
      FlightIsBusy(m, t, b);
    } else {
      var i :| 0 <= i < |tokens| && tokens[i] == t;
      assert v == pinned[i];
      assert BehindResident(m, v, b);
    }
  }

  /** While the operands that are in are pinned, the pinned buffers are just those that have to stay. */
  lemma PinnedExactly(m: Memory, s: Memory, operands: seq<Value>, pinned: seq<Value>, tokens: seq<nat>, b: Value)
    requires Inv(m) && Settled(m) && Inv(s) && NewPins(m, pinned, tokens, s) && PinsResidents(m, operands, pinned)
    requires AllLive(m, operands) && b in m.physicalBuffers
    ensures b in s.physicalBuffers && s.physicalBuffers[b] == m.physicalBuffers[b]
    ensures s.physicalBuffers[b] in s.pinnedBuffers <==> StaysIn(m, operands, b)
  {
    hide StaysIn;
    if StaysIn(m, operands, b) {
      KeptIsPinned(m, s, operands, pinned, tokens, b);
    } else if b in s.pinCount && s.pinCount[b] > 0 {
      PinnedIsKept(m, s, operands, pinned, tokens, b);
    }
    ResidentIsObject(s, b);
    MarkedIsPinned(s, b);
  }

  lemma MarkedIsPinned(s: Memory, b: Value)
    requires Inv(s) && b in s.physicalBuffers && s.physicalBuffers[b].owner == b && Backs(s, s.physicalBuffers[b])
    requires b in s.pinCount
    ensures s.physicalBuffers[b] in s.pinnedBuffers <==> s.pinCount[b] > 0
  {
    assert s.physicalBuffers[b] in s.pinnedBuffers <==> ShouldBePinned(s, s.physicalBuffers[b]);
  }

  // -------------------------------------------------------------------------
  // What can be evicted

  /** The unpinned ones among the first `k` entries of the eviction list, by owner. */
  ghost function Gone(m: Memory, k: nat): map<Value, nat>
    requires k <= |m.lastUsed|
  {
    if k == 0 then map[]
    else if m.lastUsed[k - 1] in m.pinnedBuffers then Gone(m, k - 1)
    else Gone(m, k - 1)[m.lastUsed[k - 1].owner := WordsOf(m, m.lastUsed[k - 1].owner)]
  }

  lemma {:induction false} GoneIs(m: Memory, k: nat, b: Value)
    requires k <= |m.lastUsed|
    ensures b in Gone(m, k) <==> exists i :: 0 <= i < k && m.lastUsed[i] !in m.pinnedBuffers && m.lastUsed[i].owner == b
    ensures b in Gone(m, k) ==> Gone(m, k)[b] == WordsOf(m, b)
    decreases k
  {
    if k > 0 { GoneIs(m, k - 1, b); }
  }

  lemma {:induction false} GoneWords(m: Memory, k: nat)
    requires k <= |m.lastUsed|
    requires forall i, j :: 0 <= i < j < |m.lastUsed| ==> m.lastUsed[i].owner != m.lastUsed[j].owner
    ensures EvictedWords(m, k) == Total(Gone(m, k))
    decreases k
  {
    hide WordsOf;
    if k > 0 {
      GoneWords(m, k - 1);
      var p := m.lastUsed[k - 1];
      if p !in m.pinnedBuffers {
        GoneIs(m, k - 1, p.owner);
        TotalAdd(Gone(m, k - 1), p.owner, WordsOf(m, p.owner));
      }
    }
  }

  lemma {:induction false} EvictedGrows(m: Memory, k: nat, l: nat)
    requires k <= l <= |m.lastUsed|
    ensures EvictedWords(m, k) <= EvictedWords(m, l)
    decreases l
  {
    if k < l { EvictedGrows(m, k, l - 1); }
  }

  lemma OwnersDiffer(m: Memory)
    requires Inv(m)
    ensures forall i, j :: 0 <= i < j < |m.lastUsed| ==> m.lastUsed[i].owner != m.lastUsed[j].owner
  {
    hide Inv;
    ListIsBacked(m);
    forall i, j | 0 <= i < j < |m.lastUsed| ensures m.lastUsed[i].owner != m.lastUsed[j].owner {
      assert Backs(m, m.lastUsed[i]) && Backs(m, m.lastUsed[j]);
    }
  }

  lemma {:induction false} GoneAgrees(m: Memory, s: Memory, operands: seq<Value>)
    requires s.size == m.size && s.pool == m.pool
    requires forall b ::
               (exists i :: 0 <= i < |s.lastUsed| && s.lastUsed[i] !in s.pinnedBuffers && s.lastUsed[i].owner == b)
                 <==> b in m.physicalBuffers && !StaysIn(m, operands, b)
    ensures Gone(s, |s.lastUsed|) == Evictable(m, operands)
  {
    hide StaysIn;
    hide Gone;
    hide WordsOf;
    forall b
      ensures b in Gone(s, |s.lastUsed|) <==> b in Evictable(m, operands)
      ensures b in Gone(s, |s.lastUsed|) ==> Gone(s, |s.lastUsed|)[b] == Evictable(m, operands)[b]
    {
      GoneIs(s, |s.lastUsed|, b);
      SameWords(m, s, b);
    }
  }

  lemma SameWords(m: Memory, s: Memory, b: Value)
    requires s.size == m.size && s.pool == m.pool
    ensures WordsOf(s, b) == WordsOf(m, b)
  {}

  lemma PinsMoveNothing(m: Memory, pinned: seq<Value>, tokens: seq<nat>, s: Memory)
    requires NewPins(m, pinned, tokens, s)
    ensures s.physicalBuffers == m.physicalBuffers && s.size == m.size && s.pool == m.pool && s.lastUsed == m.lastUsed
  {}

  /** With the operands pinned that are in, all unpinned buffers together are those that need not stay. */
  lemma {:induction false} AllGone(m: Memory, s: Memory, operands: seq<Value>, pinned: seq<Value>, tokens: seq<nat>)
    requires Inv(m) && Settled(m) && Inv(s) && NewPins(m, pinned, tokens, s) && PinsResidents(m, operands, pinned)
    requires AllLive(m, operands)
    ensures EvictedWords(s, |s.lastUsed|) == Total(Evictable(m, operands))
  {
    hide Inv;
    hide Settled;
    hide NewPins;
    hide PinsResidents;
    hide StaysIn;
    hide AllLive;
    hide Evictable;
    PinsMoveNothing(m, pinned, tokens, s);
    ListIsBacked(s);
    OwnersDiffer(s);
    forall b
      ensures (exists i :: 0 <= i < |s.lastUsed| && s.lastUsed[i] !in s.pinnedBuffers && s.lastUsed[i].owner == b)
                <==> b in m.physicalBuffers && !StaysIn(m, operands, b)
    {
      GoneIsEvictable(m, s, operands, pinned, tokens, b);
    }
    GoneAgrees(m, s, operands);
    GoneWords(s, |s.lastUsed|);
  }

  lemma GoneIsEvictable(
      m: Memory, s: Memory, operands: seq<Value>, pinned: seq<Value>, tokens: seq<nat>, b: Value)
    requires Inv(m) && Settled(m) && Inv(s) && NewPins(m, pinned, tokens, s) && PinsResidents(m, operands, pinned)
    requires AllLive(m, operands) && s.physicalBuffers == m.physicalBuffers
    requires forall p :: p in s.lastUsed <==> Backs(s, p)
    requires forall c :: c in s.physicalBuffers ==> s.physicalBuffers[c].owner == c
    ensures (exists i :: 0 <= i < |s.lastUsed| && s.lastUsed[i] !in s.pinnedBuffers && s.lastUsed[i].owner == b)
              <==> b in m.physicalBuffers && !StaysIn(m, operands, b)
  {
    hide Inv;
    hide StaysIn;
    hide NewPins;
    hide PinsResidents;
    if b in m.physicalBuffers {
      var p := s.physicalBuffers[b];
      assert Backs(s, p);
      var i :| 0 <= i < |s.lastUsed| && s.lastUsed[i] == p;
      PinnedExactly(m, s, operands, pinned, tokens, b);
    }
    forall i | 0 <= i < |s.lastUsed| && s.lastUsed[i].owner == b
      ensures b in m.physicalBuffers && s.lastUsed[i] == m.physicalBuffers[b]
    {
      assert Backs(s, s.lastUsed[i]);
    }
  }

  lemma {:induction false} FitsIfAnything(m: Memory, s: Memory, operands: seq<Value>, reach: nat, ok: bool, resultsSize: nat)
    requires s.pool == m.pool && m.pool.geo.wordBytes >= 0 && reach <= |s.lastUsed|
    requires EvictedWords(s, reach) <= EvictedWords(s, |s.lastUsed|) == Total(Evictable(m, operands))
    requires ok <==> FitsAfter(s, reach, Total(SizesOf(m.size, OperandsOut(m, operands))) + resultsSize)
    requires !ok ==> reach == |s.lastUsed|
    ensures ok <==> EnoughRoom(m, operands, resultsSize)
  {
    hide EvictedWords;
    hide OperandsOut;
    hide Evictable;
    hide SizesOf;
    LessWords(m.pool.usedWords - EvictedWords(s, |s.lastUsed|), m.pool.usedWords - EvictedWords(s, reach), m.pool.geo.wordBytes);
  }

  /** Freeing space with the operands pinned that are in succeeds exactly if there is enough room. */
  lemma RoomIsEnough(
      m: Memory, s: Memory, operands: seq<Value>, pinned: seq<Value>, tokens: seq<nat>, reach: nat, ok: bool,
      resultsSize: nat)
    requires Inv(m) && Settled(m) && Inv(s) && NewPins(m, pinned, tokens, s) && PinsResidents(m, operands, pinned)
    requires AllLive(m, operands) && reach <= |s.lastUsed|
    requires ok <==> FitsAfter(s, reach, Total(SizesOf(m.size, OperandsOut(m, operands))) + resultsSize)
    requires !ok ==> reach == |s.lastUsed|
    ensures ok <==> EnoughRoom(m, operands, resultsSize)
  {
    hide *;
    AllGone(m, s, operands, pinned, tokens);
    EvictedGrows(s, reach, |s.lastUsed|);
    PinsMoveNothing(m, pinned, tokens, s);
    NoNegativeWords(m);
    FitsIfAnything(m, s, operands, reach, ok, resultsSize);
  }

  lemma NoNegativeWords(m: Memory)
    requires Inv(m)
    ensures m.pool.geo.wordBytes >= 0
  {
    UsedIsNatural(m);
  }

  lemma LessWords(a: int, b: int, w: nat)
    requires a <= b
    ensures a * w <= b * w
  {}

  // -------------------------------------------------------------------------
  // What is in stays in

  lemma OperandIsPinned(m: Memory, s: Memory, pinned: seq<Value>, tokens: seq<nat>, v: Value)
    requires Inv(s) && NewPins(m, pinned, tokens, s) && v in pinned && v in m.size
    ensures HasPinnedRoot(s, v)
  {
    var i :| 0 <= i < |pinned| && pinned[i] == v;
    assert s.held[tokens[i]] == v && s.size == m.size;
    assert TreeAt(s, v);
    PinOnChain(s, tokens[i], s.root[v]);
  }

  lemma PinnedStays(s: Memory, n: Memory, v: Value)
    requires Inv(s) && Inv(n) && Steady(s, n) && HasPhysical(s, v) && HasPinnedRoot(s, v) && HasLiveRoot(s, v)
    ensures HasPhysical(n, v)
  {
    if v !in s.parent {
      hide Steady;
      BufferIsOwnRoot(s, v);
      SteadyKeepsPinned(s, n, v);
      hide Inv;
      BackedHasPhysical(n, v);
    }
  }

  lemma SteadyKeepsPinned(s: Memory, n: Memory, b: Value)
    requires Steady(s, n) && b in s.physicalBuffers && b in s.pinCount && s.pinCount[b] > 0
    ensures b in n.physicalBuffers && n.parent == s.parent
  {}

  lemma BackedHasPhysical(m: Memory, b: Value)
    requires Inv(m) && b in m.physicalBuffers
    ensures b in m.maybePhysicalBuffer
  {
    assert ResidentAt(m, b);
  }

  lemma PinnedOperandStays(
      m: Memory, s: Memory, s': Memory, n: Memory, pinned: seq<Value>, tokens: seq<nat>, v: Value)
    requires Inv(m) && Inv(s) && Inv(s') && HasLiveRoot(m, v) && v in pinned && HasPhysical(m, v)
    requires NewPins(m, pinned, tokens, s) && Steady(s, s') && Released(s', tokens, n)
    ensures HasPhysical(n, v)
  {
    hide *;
    NewPinsAreJustPins(m, pinned, tokens, s);
    ReleasedAreJustPins(s', tokens, n);
    PinsKeepUntouched(s', n);
    LivePinned(m, s, pinned, tokens, v);
    IsObject(m, v);
    OperandIsPinned(m, s, pinned, tokens, v);
    PinnedStays(s, s', v);
  }

  /** Making room leaves the operands in that are in. */
  lemma ResidentsStay(
      m: Memory, s: Memory, s': Memory, n: Memory, operands: seq<Value>, pinned: seq<Value>, tokens: seq<nat>)
    requires Inv(m) && Inv(s) && Inv(s') && AllLive(m, operands)
    requires NewPins(m, pinned, tokens, s) && PinsResidents(m, operands, pinned)
    requires Steady(s, s') && Released(s', tokens, n)
    ensures forall v :: v in operands && HasPhysical(m, v) ==> HasPhysical(n, v)
  {
    hide Inv;
    hide Steady;
    hide Released;
    hide NewPins;
    hide HasPhysical;
    hide HasLiveRoot;
    forall v | v in operands && HasPhysical(m, v) ensures HasPhysical(n, v) {
      var i :| 0 <= i < |operands| && operands[i] == v;
      assert HasLiveRoot(m, operands[i]);
      PinnedOperandStays(m, s, s', n, pinned, tokens, v);
    }
  }

  lemma IsObject(m: Memory, v: Value)
    requires HasLiveRoot(m, v)
    ensures v in m.size && v in m.root
  {}

  lemma OutAreOperands(m: Memory, operands: seq<Value>)
    ensures forall v :: v in OperandsOut(m, operands) ==> v in operands
  {}

  lemma NothingToSwapIn(m: Memory, operands: seq<Value>, resultsSize: nat)
    requires FitsBeside(m, resultsSize) && AllLive(m, operands)
    ensures OperandsOut(m, operands) == {} && Total(SizesOf(m.size, OperandsOut(m, operands))) == 0
  {
    OperandsInPlace(m, operands);
    hide HasPhysical;
    hide Untouched;
    assert SizesOf(m.size, {}) == map[];
  }

  /** From `m`, nothing has come in, the operands that were in are in, and there is space for the others and the results. */
  ghost predicate RoomIsMade(m: Memory, operands: seq<Value>, resultsSize: nat, n: Memory) {
    true == (
      && n.physicalBuffers.Keys <= m.physicalBuffers.Keys
      && (forall v :: v in operands && HasPhysical(m, v) ==> HasPhysical(n, v))
      && n.pool.UsedBytes() + Total(SizesOf(m.size, OperandsOut(m, operands))) + resultsSize <= n.pool.geo.UsableBytes())
  }

  lemma NothingComesIn(m: Memory, s: Memory, reach: nat)
    requires Inv(m) && exists next :: Reached(m, s, reach, next)
    ensures s.physicalBuffers.Keys <= m.physicalBuffers.Keys
  {
    var next :| Reached(m, s, reach, next);
    ReachInv(m, s, reach, next);
    ListIsBacked(m);
    ListIsBacked(s);
    hide Inv;
    hide Reached;
    forall b | b in s.physicalBuffers ensures b in m.physicalBuffers {
      var p := s.physicalBuffers[b];
      assert Backs(s, p);
      ReachKeeps(m, s, reach, next, p);
      assert p in m.lastUsed;
      assert Backs(m, p);
    }
  }

  lemma ReachInv(m: Memory, s: Memory, reach: nat, next: nat)
    requires Reached(m, s, reach, next)
    ensures Inv(s) && reach <= |m.lastUsed|
  {
    hide Inv;
  }

  lemma SpaceIsThere(m: Memory, s: Memory, reach: nat, space: nat)
    requires reach <= |m.lastUsed| && FitsAfter(m, reach, space) && exists next :: Reached(m, s, reach, next)
    ensures s.pool.UsedBytes() + space <= s.pool.geo.UsableBytes()
  {
    var next :| Reached(m, s, reach, next);
    hide Reached;
    ReachFits(m, s, reach, next, space);
  }

  lemma ReleasedMovesNothing(s: Memory, tokens: seq<nat>, n: Memory)
    requires Released(s, tokens, n)
    ensures n.physicalBuffers == s.physicalBuffers && n.pool == s.pool
  {}

  lemma RoomIsThere(
      m: Memory, s: Memory, s': Memory, n: Memory, operands: seq<Value>, pinned: seq<Value>, tokens: seq<nat>, reach: nat,
      resultsSize: nat)
    requires Inv(m) && Inv(s) && AllLive(m, operands)
    requires NewPins(m, pinned, tokens, s) && PinsResidents(m, operands, pinned)
    requires reach <= |s.lastUsed| && FitsAfter(s, reach, Total(SizesOf(m.size, OperandsOut(m, operands))) + resultsSize)
    requires Steady(s, s') && Released(s', tokens, n) && exists next :: Reached(s, s', reach, next)
    ensures RoomIsMade(m, operands, resultsSize, n)
  {
    hide *;
    var next :| Reached(s, s', reach, next);
    ReachInv(s, s', reach, next);
    ResidentsStay(m, s, s', n, operands, pinned, tokens);
    NothingComesIn(s, s', reach);
    SpaceIsThere(s, s', reach, Total(SizesOf(m.size, OperandsOut(m, operands))) + resultsSize);
    ReleasedMovesNothing(s', tokens, n);
    PinsMoveNothing(m, pinned, tokens, s);
    RoomParts(m, operands, resultsSize, n);
  }

  lemma RoomParts(m: Memory, operands: seq<Value>, resultsSize: nat, n: Memory)
    requires n.physicalBuffers.Keys <= m.physicalBuffers.Keys
    requires forall v :: v in operands && HasPhysical(m, v) ==> HasPhysical(n, v)
    requires n.pool.UsedBytes() + Total(SizesOf(m.size, OperandsOut(m, operands))) + resultsSize <= n.pool.geo.UsableBytes()
    ensures RoomIsMade(m, operands, resultsSize, n)
  {}

  // -------------------------------------------------------------------------
  // Bringing operands in without a defragmentation

  /** From `m` to `n` buffer `b` has come in, unless it was in already, and nothing has left. */
  ghost predicate Grew(m: Memory, n: Memory, b: Value) {
    true == (
      && ResidentKept(m, n) && n.physicalBuffers.Keys == m.physicalBuffers.Keys + {b}
      && n.pool.usedWords == m.pool.usedWords + if b in m.physicalBuffers then 0 else WordsOf(m, b))
  }

  /** An object cannot be brought in: a buffer that is in already, or one whose buffer is out and finds no room. */
  ghost predicate NotForSwapIn(m: Memory, v: Value) {
    true == (
      || (v !in m.parent && v in m.physicalBuffers)
      || (v in m.root && m.root[v] !in m.physicalBuffers && TooBig(m, m.root[v])))
  }

  ghost predicate TooBig(m: Memory, b: Value) {
    b in m.size && m.size[b] + m.pool.UsedBytes() > m.pool.geo.UsableBytes()
  }

  /** The buffers behind a set of objects. */
  ghost function RootsOf(m: Memory, values: set<Value>): set<Value> {
    set v | v in values && v in m.root :: m.root[v]
  }

  ghost function WordsOfAll(m: Memory, bs: set<Value>): map<Value, nat> {
    map b | b in bs :: WordsOf(m, b)
  }

  /** `done` have been brought in since `m`. */
  ghost predicate BroughtAll(m: Memory, n: Memory, done: set<Value>) {
    true == (
      && ResidentKept(m, n)
      && RootsOf(m, done) <= n.physicalBuffers.Keys <= m.physicalBuffers.Keys + RootsOf(m, done)
      && n.pool.usedWords <= m.pool.usedWords + Total(WordsOfAll(m, RootsOf(m, done)))
      && forall v :: v in done ==> HasPhysical(n, v))
  }

  /** The objects are out, none is the buffer of another, and there is room for all their buffers. */
  ghost predicate RoomForAll(m: Memory, values: set<Value>) {
    true == (
      && (forall v :: v in values && v !in m.parent ==> v !in m.physicalBuffers)
      && NoneBehindAnother(m, values)
      && (m.pool.usedWords + Total(WordsOfAll(m, RootsOf(m, values)))) * m.pool.geo.wordBytes <= m.pool.geo.UsableBytes())
  }

  ghost predicate NoneBehindAnother(m: Memory, values: set<Value>) {
    forall v, w :: v in values && w in values && v != w && w in m.root && v !in m.parent ==> m.root[w] != v
  }

  /** The operands that are out ask for at least what their buffers take, and none is the buffer of another. */
  ghost predicate CoversOut(m: Memory, operands: seq<Value>) {
    var out := OperandsOut(m, operands);
    && NoneBehindAnother(m, out)
    && Total(WordsOfAll(m, RootsOf(m, out))) * m.pool.geo.wordBytes <= Total(SizesOf(m.size, out))
  }

  lemma SwapInGrows(m: Memory, b: Value, p: Value, base: nat)
    requires b in m.swappedOutValue && b in m.size && m.pool.geo.wordBytes > 0 && b !in m.physicalBuffers
    ensures Grew(m, SwappedIn(m, b, p, base), b)
  {
    hide WordsOf;
    SwapInEffects(m, b, p, base);
  }

  lemma GrewSinceName(m: Memory, n: Memory, b: Value)
    requires Grew(m.(nextValue := m.nextValue + 1), n, b)
    ensures Grew(m, n, b)
  {}

  /** A name taken and a buffer brought in at once, in terms of the state before both. */
  lemma BringInGrows(m: Memory, mid: Memory, b: Value, base: nat)
    requires mid == m.(nextValue := m.nextValue + 1)
    requires b in mid.swappedOutValue && b in mid.size && mid.pool.geo.wordBytes > 0 && b !in m.physicalBuffers
    ensures Grew(m, SwappedIn(mid, b, m.nextValue, base), b)
  {
    hide SwappedIn;
    hide Grew;
    SwapInGrows(mid, b, m.nextValue, base);
    GrewSinceName(m, SwappedIn(mid, b, m.nextValue, base), b);
  }

  lemma GrewByRenewal(m: Memory, s: Memory, a: Value, b: Value)
    requires Grew(m, s, b) && a in s.parent && a in s.view && a in s.size && Sees(s, s.parent[a])
    ensures Grew(m, Renewed(s, a), b)
  {
    hide Sees;
    hide WordsOf;
  }

  lemma GrewNothing(m: Memory, b: Value)
    requires b in m.physicalBuffers
    ensures Grew(m, m, b)
  {
    assert m.physicalBuffers.Keys == m.physicalBuffers.Keys + {b};
  }

  /** The buffer behind an alias with a resident parent is in. */
  lemma ParentIsBacked(m: Memory, v: Value)
    requires Inv(m) && HasLiveRoot(m, v) && v in m.parent && HasPhysical(m, m.parent[v])
    ensures Grew(m, m, m.root[v])
  {
    ParentFacts(m, v);
    assert TreeAt(m, v);
    hide Inv;
    hide HasLiveRoot;
    hide HasPhysical;
    hide Grew;
    ResidentOperand(m, m.parent[v]);
    GrewNothing(m, m.root[v]);
  }

  lemma SameRoot(m: Memory, v: Value)
    requires Inv(m) && HasLiveRoot(m, v) && v in m.parent
    ensures m.parent[v] in m.root && m.root[m.parent[v]] == m.root[v]
  {
    assert TreeAt(m, v);
  }

  /** An alias can be renewed once its parent is in. */
  lemma AliasComesIn(m: Memory, s: Memory, v: Value)
    requires Inv(m) && HasLiveRoot(m, v) && v in m.parent && v in m.view
    requires Inv(s) && (m == s || Steady(m, s)) && s.IsResident(m.parent[v])
    ensures s.parent == m.parent && s.view == m.view && v in s.size && Sees(s, s.parent[v])
    ensures Inv(Renewed(s, v)) && Steady(m, Renewed(s, v)) && Renewed(s, v).held == m.held
    ensures Renewed(s, v).IsResident(v)
    ensures v in m.root && m.parent[v] in m.root && m.root[m.parent[v]] == m.root[v]
    ensures Grew(m, s, m.root[v]) ==> Grew(m, Renewed(s, v), m.root[v])
  {
    hide Inv;
    hide Steady;
    hide Grew;
    hide HasLiveRoot;
    SteadyKeepsTree(m, s, v);
    IsObject(m, v);
    IsObject(s, v);
    SameRoot(m, v);
    RenewIsSafe(s, v);
    RenewedIsIn(s, v);
    if Grew(m, s, m.root[v]) { GrewByRenewal(m, s, v, m.root[v]); }
    hide Renewed;
    hide Sees;
    if m != s { SteadyTransitive(m, s, Renewed(s, v)); }
  }

  lemma RenewedIsIn(m: Memory, a: Value)
    requires a in m.parent && a in m.view && a in m.size && Sees(m, m.parent[a])
    ensures Renewed(m, a).IsResident(a)
  {}

  lemma InAlready(m: Memory, v: Value)
    requires v !in m.parent && v in m.physicalBuffers
    ensures NotForSwapIn(m, v)
  {}

  lemma RoomIsMissing(m: Memory, v: Value)
    requires v in m.root && m.root[v] == v && v !in m.physicalBuffers && TooBig(m, v)
    ensures NotForSwapIn(m, v)
  {}

  /** If the parent of an alias cannot be brought in, neither can the alias. */
  lemma NotForSwapInEither(m: Memory, v: Value)
    requires Inv(m) && HasLiveRoot(m, v) && v in m.parent && NotForSwapIn(m, m.parent[v]) && !HasPhysical(m, m.parent[v])
    ensures NotForSwapIn(m, v)
  {
    SameRoot(m, v);
    var p := m.parent[v];
    if p !in m.parent && p in m.physicalBuffers { BackedHasPhysical(m, p); }
    hide Inv;
    hide TooBig;
  }

  lemma NothingBrought(m: Memory)
    ensures BroughtAll(m, m, {})
  {
    assert RootsOf(m, {}) == {};
    assert WordsOfAll(m, {}) == map[];
  }

  lemma RootsNext(m: Memory, done: set<Value>, v: Value)
    requires v in m.root
    ensures RootsOf(m, done + {v}) == RootsOf(m, done) + {m.root[v]}
  {}

  lemma WordsNext(m: Memory, bs: set<Value>, b: Value)
    ensures Total(WordsOfAll(m, bs + {b})) == Total(WordsOfAll(m, bs)) + if b in bs then 0 else WordsOf(m, b)
  {
    if b in bs {
      assert bs + {b} == bs;
    } else {
      TotalAdd(WordsOfAll(m, bs), b, WordsOf(m, b));
      assert WordsOfAll(m, bs + {b}) == WordsOfAll(m, bs)[b := WordsOf(m, b)];
    }
  }

  /** Nothing that had a physical value loses it when nothing resident leaves. */
  lemma KeptHasPhysical(s: Memory, n: Memory, v: Value)
    requires Inv(s) && Inv(n) && ResidentKept(s, n) && n.parent == s.parent && HasPhysical(s, v) && HasLiveRoot(s, v)
    ensures HasPhysical(n, v)
  {
    if v !in s.parent {
      hide ResidentKept;
      BufferIsOwnRoot(s, v);
      KeptIsBacked(s, n, v);
      hide Inv;
      BackedHasPhysical(n, v);
    }
  }

  lemma KeptIsBacked(s: Memory, n: Memory, b: Value)
    requires ResidentKept(s, n) && b in s.physicalBuffers
    ensures b in n.physicalBuffers
  {}

  lemma ResidentHasPhysical(m: Memory, v: Value)
    requires Inv(m) && m.IsResident(v)
    ensures HasPhysical(m, v)
  {
    if v !in m.parent {
      hide Inv;
      BackedHasPhysical(m, v);
    }
  }

  lemma BroughtRoots(m: Memory, s: Memory, n: Memory, done: set<Value>, b: Value)
    requires BroughtAll(m, s, done) && Grew(s, n, b)
    ensures ResidentKept(m, n)
    ensures RootsOf(m, done) + {b} <= n.physicalBuffers.Keys <= m.physicalBuffers.Keys + (RootsOf(m, done) + {b})
  {
    hide RootsOf;
    hide WordsOfAll;
    hide WordsOf;
    hide HasPhysical;
  }

  lemma BroughtWords(m: Memory, s: Memory, n: Memory, done: set<Value>, b: Value)
    requires BroughtAll(m, s, done) && Grew(s, n, b) && s.size == m.size && s.pool.geo == m.pool.geo
    ensures n.pool.usedWords <= m.pool.usedWords + Total(WordsOfAll(m, RootsOf(m, done) + {b}))
  {
    WordsNext(m, RootsOf(m, done), b);
    GrewWords(m, s, n, b);
    hide Grew;
    hide RootsOf;
    hide WordsOfAll;
    hide HasPhysical;
    hide ResidentKept;
    hide WordsOf;
  }

  lemma GrewWords(m: Memory, s: Memory, n: Memory, b: Value)
    requires Grew(s, n, b) && s.size == m.size && s.pool.geo == m.pool.geo
    ensures n.pool.usedWords == s.pool.usedWords + if b in s.physicalBuffers then 0 else WordsOf(m, b)
  {
    hide ResidentKept;
  }

  lemma BroughtObjects(m: Memory, s: Memory, n: Memory, done: set<Value>, v: Value)
    requires Inv(s) && Inv(n) && v in m.root && BroughtAll(m, s, done) && Grew(s, n, m.root[v]) && n.IsResident(v)
    requires n.parent == s.parent && forall w :: w in done ==> HasLiveRoot(s, w)
    ensures forall w :: w in done + {v} ==> HasPhysical(n, w)
  {
    hide Inv;
    hide WordsOfAll;
    hide WordsOf;
    hide HasLiveRoot;
    hide RootsOf;
    GrewKeeps(s, n, m.root[v]);
    hide Grew;
    hide ResidentKept;
    hide HasPhysical;
    ResidentHasPhysical(n, v);
    forall w | w in done ensures HasPhysical(n, w) {
      KeptHasPhysical(s, n, w);
    }
  }

  lemma GrewKeeps(s: Memory, n: Memory, b: Value)
    requires Grew(s, n, b)
    ensures ResidentKept(s, n)
  {}

  /** One more object is in. */
  lemma BroughtOneMore(m: Memory, s: Memory, n: Memory, done: set<Value>, v: Value)
    requires Inv(s) && Inv(n) && BroughtAll(m, s, done) && HasLiveRoot(m, v) && Grew(s, n, m.root[v]) && n.IsResident(v)
    requires s.root == m.root && n.parent == s.parent && s.size == m.size && s.pool.geo == m.pool.geo
    requires forall w :: w in done ==> HasLiveRoot(s, w)
    ensures BroughtAll(m, n, done + {v})
  {
    var b := m.root[v];
    BroughtRoots(m, s, n, done, b);
    BroughtWords(m, s, n, done, b);
    BroughtObjects(m, s, n, done, v);
    RootsNext(m, done, v);
    hide Inv;
    hide Grew;
    hide HasLiveRoot;
    hide RootsOf;
    hide WordsOfAll;
    hide ResidentKept;
    hide HasPhysical;
    BroughtParts(m, n, done + {v});
  }

  lemma BroughtParts(m: Memory, n: Memory, done: set<Value>)
    requires ResidentKept(m, n) && RootsOf(m, done) <= n.physicalBuffers.Keys <= m.physicalBuffers.Keys + RootsOf(m, done)
    requires n.pool.usedWords <= m.pool.usedWords + Total(WordsOfAll(m, RootsOf(m, done)))
    requires forall v :: v in done ==> HasPhysical(n, v)
    ensures BroughtAll(m, n, done)
  {}

  lemma NextIsOut(m: Memory, s: Memory, values: set<Value>, done: set<Value>, v: Value)
    requires NoneBehindAnother(m, values) && done <= values && v in values && v !in done
    requires v !in m.parent && v !in m.physicalBuffers
    requires s.physicalBuffers.Keys <= m.physicalBuffers.Keys + RootsOf(m, done)
    ensures v !in s.physicalBuffers
  {
    assert forall w :: w in done && w in m.root ==> m.root[w] != v;
  }

  /** With no more than `words` words in use, `used` so far, buffer `b` fits. */
  lemma NextFitsIn(m: Memory, s: Memory, b: Value, words: int)
    requires b in m.size && s.size == m.size && s.pool.geo == m.pool.geo && m.pool.geo.wordBytes > 0
    requires s.pool.usedWords + WordsOf(m, b) <= words && words * m.pool.geo.wordBytes <= m.pool.geo.UsableBytes()
    ensures !TooBig(s, b)
  {
    WordsHold(m, b);
    var w := m.pool.geo.wordBytes;
    LessWords(s.pool.usedWords + WordsOf(m, b), words, w);
    assert (s.pool.usedWords + WordsOf(m, b)) * w == s.pool.usedWords * w + WordsOf(m, b) * w;
    hide WordsOf;
  }

  lemma NextWords(m: Memory, values: set<Value>, done: set<Value>, v: Value)
    requires done <= values && v in values && v in m.root && m.root[v] !in RootsOf(m, done)
    ensures Total(WordsOfAll(m, RootsOf(m, done))) + WordsOf(m, m.root[v]) <= Total(WordsOfAll(m, RootsOf(m, values)))
  {
    hide WordsOfAll;
    hide WordsOf;
    WordsNext(m, RootsOf(m, done), m.root[v]);
    RootsNext(m, done, v);
    MoreWords(m, RootsOf(m, done + {v}), RootsOf(m, values));
  }

  /** Each of the objects can be brought in while some of them have been. */
  lemma NextComesIn(m: Memory, s: Memory, values: set<Value>, done: set<Value>, v: Value)
    requires RoomForAll(m, values) && BroughtAll(m, s, done) && done <= values && v in values && v !in done
    requires v in m.root && s.root == m.root && s.parent == m.parent && s.size == m.size && s.pool.geo == m.pool.geo
    requires m.pool.geo.wordBytes > 0
    ensures !NotForSwapIn(s, v)
  {
    hide WordsOfAll;
    hide ResidentKept;
    hide HasPhysical;
    hide NoneBehindAnother;
    hide WordsOf;
    hide TooBig;
    hide RootsOf;
    if v !in m.parent { NextIsOut(m, s, values, done, v); }
    var b := m.root[v];
    if b !in s.physicalBuffers {
      if b in m.size {
        NextWords(m, values, done, v);
        NextFitsIn(m, s, b, m.pool.usedWords + Total(WordsOfAll(m, RootsOf(m, values))));
      } else {
        NoSize(s, b);
      }
    }
  }

  lemma NoSize(m: Memory, b: Value)
    requires b !in m.size
    ensures !TooBig(m, b)
  {}

  lemma SteadyRoots(m: Memory, s: Memory)
    requires Steady(m, s)
    ensures s.root == m.root && s.parent == m.parent && s.size == m.size && s.pool.geo == m.pool.geo
  {}

  lemma NextIsNotForSwapIn(m: Memory, s: Memory, values: set<Value>, done: set<Value>, v: Value)
    requires Inv(m) && Steady(m, s) && RoomForAll(m, values) && BroughtAll(m, s, done) && done <= values
    requires v in values && v !in done && HasLiveRoot(m, v)
    ensures !NotForSwapIn(s, v)
  {
    hide *;
    SteadyRoots(m, s);
    IsObject(m, v);
    PositiveWords(m);
    NextComesIn(m, s, values, done, v);
  }

  lemma PositiveWords(m: Memory)
    requires Inv(m)
    ensures m.pool.geo.wordBytes > 0
  {
    UsedIsNatural(m);
  }

  lemma BroughtNext(m: Memory, s: Memory, n: Memory, done: set<Value>, v: Value)
    requires Inv(s) && Inv(n) && Steady(m, s) && Steady(s, n) && BroughtAll(m, s, done) && HasLiveRoot(m, v)
    requires forall w :: w in done ==> HasLiveRoot(m, w)
    requires v in s.root && Grew(s, n, s.root[v]) && n.IsResident(v)
    ensures BroughtAll(m, n, done + {v})
  {
    hide *;
    SteadyRoots(m, s);
    SteadyRoots(s, n);
    forall w | w in done ensures HasLiveRoot(s, w) { LiveSteady(m, s, w); }
    BroughtOneMore(m, s, n, done, v);
  }

  lemma OutNotIn(m: Memory, s: Memory, operands: seq<Value>, resultsSize: nat)
    requires Inv(m) && RoomIsMade(m, operands, resultsSize, s)
    ensures forall v :: v in OperandsOut(m, operands) && v !in m.parent ==> v !in s.physicalBuffers
  {
    hide Inv;
    forall v | v in OperandsOut(m, operands) && v !in m.parent ensures v !in s.physicalBuffers {
      if v in m.physicalBuffers { BackedHasPhysical(m, v); }
    }
  }

  lemma RoomForAllParts(s: Memory, values: set<Value>, words: int, resultsSize: nat)
    requires forall v :: v in values && v !in s.parent ==> v !in s.physicalBuffers
    requires NoneBehindAnother(s, values) && words == Total(WordsOfAll(s, RootsOf(s, values)))
    requires (s.pool.usedWords + words) * s.pool.geo.wordBytes + resultsSize <= s.pool.geo.UsableBytes()
    ensures RoomForAll(s, values)
  {
    hide NoneBehindAnother;
    hide WordsOfAll;
    hide RootsOf;
  }

  lemma NoneCovered(m: Memory, operands: seq<Value>)
    requires CoversOut(m, operands)
    ensures NoneBehindAnother(m, OperandsOut(m, operands))
  {}

  /** Room for the operands that are out is room for their buffers if these take no more. */
  lemma CoveredRoom(m: Memory, s: Memory, operands: seq<Value>, resultsSize: nat)
    requires Inv(m) && Along(m, s) && RoomIsMade(m, operands, resultsSize, s) && CoversOut(m, operands)
    ensures RoomForAll(s, OperandsOut(m, operands))
  {
    hide *;
    var out := OperandsOut(m, operands);
    OutNotIn(m, s, operands, resultsSize);
    CoveredWords(m, s, operands, resultsSize);
    SameRoots(m, s, out);
    NoneCovered(m, operands);
    RoomForAllParts(s, out, Total(WordsOfAll(m, RootsOf(m, out))), resultsSize);
  }

  lemma SameRoots(m: Memory, s: Memory, values: set<Value>)
    requires Along(m, s)
    ensures RootsOf(s, values) == RootsOf(m, values) && NoneBehindAnother(s, values) == NoneBehindAnother(m, values)
    ensures WordsOfAll(s, RootsOf(s, values)) == WordsOfAll(m, RootsOf(m, values))
    ensures s.parent == m.parent && s.pool.geo == m.pool.geo
  {}

  lemma CoveredWords(m: Memory, s: Memory, operands: seq<Value>, resultsSize: nat)
    requires Along(m, s) && RoomIsMade(m, operands, resultsSize, s) && CoversOut(m, operands)
    ensures (s.pool.usedWords + Total(WordsOfAll(m, RootsOf(m, OperandsOut(m, operands))))) * m.pool.geo.wordBytes + resultsSize
              <= m.pool.geo.UsableBytes()
  {
    SameGeometry(m, s);
    hide Along;
    hide HasPhysical;
    hide WordsOfAll;
    hide RootsOf;
    hide OperandsOut;
    hide SizesOf;
    hide NoneBehindAnother;
    Spread(s.pool.usedWords, Total(WordsOfAll(m, RootsOf(m, OperandsOut(m, operands)))), m.pool.geo.wordBytes);
  }

  lemma SameGeometry(m: Memory, s: Memory)
    requires Along(m, s)
    ensures s.pool.geo == m.pool.geo
  {}

  lemma Spread(a: int, b: int, w: int)
    ensures (a + b) * w == a * w + b * w
  {}

  /** All operands are in, and there is still space for the results. */
  lemma AllAreIn(m: Memory, s: Memory, n: Memory, operands: seq<Value>, resultsSize: nat)
    requires Inv(m) && Inv(s) && Inv(n) && Along(m, s) && Steady(s, n) && AllLive(m, operands)
    requires RoomIsMade(m, operands, resultsSize, s) && BroughtAll(s, n, OperandsOut(m, operands))
    ensures forall v :: v in operands ==> HasPhysical(n, v)
    ensures CoversOut(m, operands) ==> HasSpace(n, resultsSize)
  {
    hide Inv;
    hide HasPhysical;
    hide CoversOut;
    SteadyRoots(s, n);
    forall v | v in operands ensures HasPhysical(n, v) {
      if v !in OperandsOut(m, operands) {
        var i :| 0 <= i < |operands| && operands[i] == v;
        assert HasLiveRoot(m, operands[i]);
        LiveAlong(m, s, v);
        KeptHasPhysical(s, n, v);
      }
    }
    if CoversOut(m, operands) {
      CoveredWords(m, s, operands, resultsSize);
      SpaceIsLeft(m, s, n, operands, resultsSize);
    }
  }

  lemma SpaceIsLeft(m: Memory, s: Memory, n: Memory, operands: seq<Value>, resultsSize: nat)
    requires Inv(m) && Along(m, s) && BroughtAll(s, n, OperandsOut(m, operands)) && n.pool.geo == s.pool.geo
    requires (s.pool.usedWords + Total(WordsOfAll(m, RootsOf(m, OperandsOut(m, operands))))) * m.pool.geo.wordBytes + resultsSize
               <= m.pool.geo.UsableBytes()
    ensures HasSpace(n, resultsSize)
  {
    hide *;
    var words := Total(WordsOfAll(m, RootsOf(m, OperandsOut(m, operands))));
    SameRoots(m, s, OperandsOut(m, operands));
    PositiveWords(m);
    WordsBrought(s, n, OperandsOut(m, operands));
    LessWords(n.pool.usedWords, s.pool.usedWords + words, m.pool.geo.wordBytes);
    HasSpaceWith(n, (s.pool.usedWords + words) * m.pool.geo.wordBytes, resultsSize);
  }

  lemma WordsBrought(m: Memory, n: Memory, done: set<Value>)
    requires BroughtAll(m, n, done)
    ensures n.pool.usedWords <= m.pool.usedWords + Total(WordsOfAll(m, RootsOf(m, done)))
  {
    hide WordsOfAll;
    hide RootsOf;
    hide HasPhysical;
  }

  lemma HasSpaceWith(n: Memory, used: int, bytes: nat)
    requires n.pool.usedWords * n.pool.geo.wordBytes <= used && used + bytes <= n.pool.geo.UsableBytes()
    ensures HasSpace(n, bytes)
  {}

  lemma WordsHold(m: Memory, b: Value)
    requires m.pool.geo.wordBytes > 0 && b in m.size
    ensures m.size[b] <= WordsOf(m, b) * m.pool.geo.wordBytes
  {}

  lemma {:induction false} MoreWords(m: Memory, bs: set<Value>, cs: set<Value>)
    requires bs <= cs
    ensures Total(WordsOfAll(m, bs)) <= Total(WordsOfAll(m, cs))
    decreases cs - bs
  {
    if c :| c in cs && c !in bs {
      WordsNext(m, bs, c);
      MoreWords(m, bs + {c}, cs);
    } else {
      assert bs == cs;
    }
  }
}
