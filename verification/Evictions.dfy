/** How far down the eviction list a request for space reaches, and facts for the code that moves buffers. */
module Evictions {
  import opened Basics
  import opened Totals
  import opened Ir
  import opened Pools
  import opened Replays
  import opened Refinement
  import opened AllocationOrders
  import opened ValueSizes
  import opened MemoryStates
  import opened SwapStates
  import opened AliasStates

  ghost function WordsOf(m: Memory, b: Value): nat {
    if b in m.size && m.pool.geo.wordBytes > 0 then m.pool.geo.WordsFor(m.size[b]) else 0
  }

  /** The words given back by evicting the unpinned ones among the first `k` buffers of the eviction list. */
  ghost function EvictedWords(m: Memory, k: nat): nat
    requires k <= |m.lastUsed|
  {
    if k == 0 then 0 else
    EvictedWords(m, k - 1) + if m.lastUsed[k - 1] in m.pinnedBuffers then 0 else WordsOf(m, m.lastUsed[k - 1].owner)
  }

  /** `space` more bytes fit once the unpinned ones among the first `k` buffers are evicted. */
  ghost predicate FitsAfter(m: Memory, k: nat, space: nat)
    requires k <= |m.lastUsed|
  {
    (m.pool.usedWords - EvictedWords(m, k)) * m.pool.geo.wordBytes + space <= m.pool.geo.UsableBytes()
  }

  ghost function PinnedOnly(m: Memory, s: seq<PhysicalBuffer>): seq<PhysicalBuffer> {
    if s == [] then [] else
    PinnedOnly(m, s[..|s| - 1]) + if s[|s| - 1] in m.pinnedBuffers then [s[|s| - 1]] else []
  }

  lemma {:induction false} PinnedOnlyNext(m: Memory, k: nat)
    requires k < |m.lastUsed|
    ensures PinnedOnly(m, m.lastUsed[..k + 1]) ==
            PinnedOnly(m, m.lastUsed[..k]) + if m.lastUsed[k] in m.pinnedBuffers then [m.lastUsed[k]] else []
  {
    assert m.lastUsed[..k + 1][..k] == m.lastUsed[..k];
  }

  lemma {:induction false} WithoutAt<T>(s: seq<T>, i: nat)
    requires i < |s| && NoDuplicates(s)
    ensures Without(s, s[i]) == s[..i] + s[i + 1..]
    decreases i
  {
    if i > 0 {
      assert s[0] != s[i];
      assert NoDuplicates(s[1..]);
      WithoutAt(s[1..], i - 1);
    }
  }

  /** An unpinned entry of the eviction list can be swapped out, and gives its words back. */
  lemma Evictable(m: Memory, i: nat)
    requires Inv(m) && i < |m.lastUsed| && m.lastUsed[i] !in m.pinnedBuffers
    ensures CanSwapOut(m, m.lastUsed[i].owner) && m.physicalBuffers[m.lastUsed[i].owner] == m.lastUsed[i]
    ensures m.lastUsed[i].value in m.pool.live
    ensures m.pool.live[m.lastUsed[i].value].size == WordsOf(m, m.lastUsed[i].owner)
    ensures SwappedOut(m, m.lastUsed[i].owner).lastUsed == m.lastUsed[..i] + m.lastUsed[i + 1..]
    ensures SwappedOut(m, m.lastUsed[i].owner).pool.usedWords == m.pool.usedWords - WordsOf(m, m.lastUsed[i].owner)
  {
    var p := m.lastUsed[i];
    assert Backs(m, p);
    UnpinnedCanGo(m, p.owner);
    WithoutAt(m.lastUsed, i);
  }

  lemma UnpinnedCanGo(m: Memory, b: Value)
    requires Inv(m) && b in m.physicalBuffers && m.physicalBuffers[b] !in m.pinnedBuffers
    ensures CanSwapOut(m, b) && m.physicalBuffers[b].owner == b
    ensures m.physicalBuffers[b].value in m.pool.live && m.pool.live[m.physicalBuffers[b].value].size == WordsOf(m, b)
  {
    assert ResidentAt(m, b);
    assert CountAt(m, b);
    assert !ShouldBePinned(m, m.physicalBuffers[b]);
  }

  /** `s` is what freeing space from `m` has reached: the first `reach` entries have been looked at, the unpinned
      ones among them are gone, and the entry at `next` is the next to look at. */
  ghost predicate Reached(m: Memory, s: Memory, reach: nat, next: nat) {
    true == (
      && Inv(s) && Steady(m, s)
      && reach <= |m.lastUsed|
      && next == |PinnedOnly(m, m.lastUsed[..reach])|
      && s.lastUsed == PinnedOnly(m, m.lastUsed[..reach]) + m.lastUsed[reach..]
      && s.pool.usedWords == m.pool.usedWords - EvictedWords(m, reach))
  }

  lemma ReachStart(m: Memory)
    requires Inv(m)
    ensures Reached(m, m, 0, 0)
  {
    hide Inv;
  }

  lemma ReachFits(m: Memory, s: Memory, reach: nat, next: nat, space: nat)
    requires Reached(m, s, reach, next)
    ensures reach <= |m.lastUsed|
    ensures FitsAfter(m, reach, space) <==> s.pool.UsedBytes() + space <= s.pool.geo.UsableBytes()
    ensures next >= |s.lastUsed| ==> reach == |m.lastUsed|
    ensures next < |s.lastUsed| ==> reach < |m.lastUsed| && s.lastUsed[next] == m.lastUsed[reach]
    ensures s.pinnedBuffers == m.pinnedBuffers
  {
    hide Inv;
  }

  lemma ReachPinned(m: Memory, s: Memory, reach: nat, next: nat)
    requires Reached(m, s, reach, next) && reach < |m.lastUsed| && m.lastUsed[reach] in m.pinnedBuffers
    ensures Reached(m, s, reach + 1, next + 1)
  {
    hide Inv;
    hide Steady;
    PinnedOnlyNext(m, reach);
  }

  lemma ReachEvicted(m: Memory, s: Memory, reach: nat, next: nat)
    requires Reached(m, s, reach, next) && reach < |m.lastUsed| && m.lastUsed[reach] !in m.pinnedBuffers
    ensures CanSwapOut(s, m.lastUsed[reach].owner)
    ensures Reached(m, SwappedOut(s, m.lastUsed[reach].owner), reach + 1, next)
  {
    hide Inv;
    hide CanSwapOut;
    hide SwappedOut;
    ReachFits(m, s, reach, next, 0);
    Evictable(s, next);
    SwapOutSafe(s, m.lastUsed[reach].owner);
    SteadyTransitive(m, s, SwappedOut(s, m.lastUsed[reach].owner));
    SteadyFacts(m, s);
    hide Steady;
    hide WordsOf;
    ReachNext(m, s, SwappedOut(s, m.lastUsed[reach].owner), reach, next);
  }

  lemma {:induction false} ReachNext(m: Memory, s: Memory, n: Memory, reach: nat, next: nat)
    requires Reached(m, s, reach, next) && reach < |m.lastUsed| && m.lastUsed[reach] !in m.pinnedBuffers
    requires Inv(n) && Steady(m, n)
    requires next < |s.lastUsed| && n.lastUsed == s.lastUsed[..next] + s.lastUsed[next + 1..]
    requires n.pool.usedWords == s.pool.usedWords - WordsOf(m, m.lastUsed[reach].owner)
    ensures Reached(m, n, reach + 1, next)
  {
    hide Inv;
    hide Steady;
    hide WordsOf;
    PinnedOnlyNext(m, reach);
    ReachCut(PinnedOnly(m, m.lastUsed[..reach]), m.lastUsed, reach);
  }

  lemma ReachCut<T>(kept: seq<T>, all: seq<T>, reach: nat)
    requires reach < |all|
    ensures var s := kept + all[reach..]; s[..|kept|] == kept && s[|kept| + 1..] == all[reach + 1..]
  {}

  // -------------------------------------------------------------------------
  // Which buffers are evicted

  lemma {:induction false} InPinnedOnly(m: Memory, s: seq<PhysicalBuffer>, p: PhysicalBuffer)
    ensures p in PinnedOnly(m, s) <==> p in s && p in m.pinnedBuffers
    decreases |s|
  {
    if s != [] {
      InPinnedOnly(m, s[..|s| - 1], p);
      assert s == s[..|s| - 1] + [s[|s| - 1]];
    }
  }

  lemma ListIsBacked(m: Memory)
    requires Inv(m)
    ensures NoDuplicates(m.lastUsed) && (forall p :: p in m.lastUsed <==> Backs(m, p))
    ensures forall b :: b in m.physicalBuffers ==> m.physicalBuffers[b].owner == b
  {
    hide InvOrder;
    forall b | b in m.physicalBuffers ensures m.physicalBuffers[b].owner == b { assert ResidentAt(m, b); }
  }

  lemma ReachKeeps(m: Memory, s: Memory, reach: nat, next: nat, p: PhysicalBuffer)
    requires Reached(m, s, reach, next)
    ensures p in s.lastUsed <==> p in m.lastUsed[reach..] || (p in m.lastUsed[..reach] && p in m.pinnedBuffers)
    ensures Inv(s) && reach <= |m.lastUsed|
  {
    hide Inv;
    InPinnedOnly(m, m.lastUsed[..reach], p);
  }

  /** A resident buffer is gone exactly if it is not pinned and has been looked at. */
  lemma EvictedAt(m: Memory, s: Memory, reach: nat, next: nat, b: Value) returns (i: nat)
    requires Inv(m) && Reached(m, s, reach, next) && b in m.physicalBuffers
    ensures i < |m.lastUsed| && m.lastUsed[i] == m.physicalBuffers[b]
    ensures b !in s.physicalBuffers <==> i < reach && m.lastUsed[i] !in m.pinnedBuffers
    ensures b in s.physicalBuffers ==> s.physicalBuffers[b] == m.physicalBuffers[b]
  {
    hide Inv;
    hide Reached;
    var p := m.physicalBuffers[b];
    ListIsBacked(m);
    assert Backs(m, p);
    i :| 0 <= i < |m.lastUsed| && m.lastUsed[i] == p;
    ReachKeeps(m, s, reach, next, p);
    ListIsBacked(s);
    assert m.lastUsed == m.lastUsed[..reach] + m.lastUsed[reach..];
    assert i >= reach ==> m.lastUsed[reach..][i - reach] == p;
    assert i < reach ==> m.lastUsed[..reach][i] == p;
    if b in s.physicalBuffers {
      var q := s.physicalBuffers[b];
      assert Backs(s, q);
      ReachKeeps(m, s, reach, next, q);
      assert Backs(m, q);
    } else {
      assert !Backs(s, p);
    }
  }

  lemma CodeIsNamed(m: Memory)
    requires InvTrace(m)
    ensures NamesAfter(m.out) == Some(m.now.target)
  {
    assert m.out[..|m.out|] == m.out;
    CertifiedNames(m.original, m.out, m.trace, |m.out|);
    hide Certified;
    hide Matched;
  }

  lemma OrderOfList(m: Memory, i: nat, j: nat)
    requires InvOrder(m) && NamesAfter(m.out).Some? && i < |m.lastUsed| && j < |m.lastUsed|
    requires AllocatedBefore(m.out, m.lastUsed[i].value, m.lastUsed[j].value)
    ensures i < j
  {
    hide AllocatedBefore;
    hide Residents;
    hide NamesAfter;
    assert Residents(m.out)[i] == m.lastUsed[i].value && Residents(m.out)[j] == m.lastUsed[j].value;
    OneOrder(m.out, m.lastUsed[i].value, m.lastUsed[j].value);
    if j < i { ResidentsInOrder(m.out, j, i); }
  }

  lemma OrderOfEviction(m: Memory)
    requires Inv(m)
    ensures InvOrder(m) && NamesAfter(m.out).Some?
  {
    CodeIsNamed(m);
  }

  /** Of the buffers that are not pinned those that the code has allocated first are evicted first. */
  ghost predicate OldestFirst(m: Memory, n: Memory) {
    forall b, c :: b in m.physicalBuffers && c in m.physicalBuffers && c !in n.physicalBuffers
                   && m.physicalBuffers[b] !in m.pinnedBuffers
                   && AllocatedBefore(m.out, m.physicalBuffers[b].value, m.physicalBuffers[c].value) ==>
                     b !in n.physicalBuffers
  }

  lemma ReachedOldestFirst(m: Memory, n: Memory, reach: nat, next: nat)
    requires Inv(m) && Reached(m, n, reach, next)
    ensures OldestFirst(m, n)
  {
    hide Inv;
    hide Reached;
    hide AllocatedBefore;
    hide InvOrder;
    hide NamesAfter;
    OrderOfEviction(m);
    forall b, c | b in m.physicalBuffers && c in m.physicalBuffers && c !in n.physicalBuffers
                  && m.physicalBuffers[b] !in m.pinnedBuffers
                  && AllocatedBefore(m.out, m.physicalBuffers[b].value, m.physicalBuffers[c].value)
      ensures b !in n.physicalBuffers
    {
      var i := EvictedAt(m, n, reach, next, b);
      var j := EvictedAt(m, n, reach, next, c);
      OrderOfList(m, i, j);
    }
  }

  lemma SwapOutSafe(m: Memory, b: Value)
    requires CanSwapOut(m, b)
    ensures Inv(SwappedOut(m, b)) && Steady(m, SwappedOut(m, b))
  {
    SwapOutKeepsInv(m, b);
  }

  /** Taking a fresh name changes nothing else. */
  lemma ReserveKeepsInv(m: Memory)
    requires Inv(m)
    ensures Inv(m.(nextValue := m.nextValue + 1)) && m.nextValue !in m.now.target.access && m.firstFresh <= m.nextValue
    ensures Undisturbed(m, m.(nextValue := m.nextValue + 1))
  {
    hide InvPhysical;
    hide InvHome;
    hide InvPins;
    hide InvFlights;
    hide InvStock;
    ReserveStock(m);
    ReserveNames(m);
    RestFrame(m, m.(nextValue := m.nextValue + 1));
    ReserveAlias(m);
  }

  lemma ReserveStock(m: Memory)
    requires InvStock(m)
    ensures InvStock(m.(nextValue := m.nextValue + 1))
  {
    var n := m.(nextValue := m.nextValue + 1);
    hide SizesAfter;
    hide CopiesFit;
    hide OperandSizes;
    hide Residents;
    CleanSame(m, n);
    forall x, v | SizedAs(m, x, v) ensures SizedAs(n, x, v) {}
  }

  lemma ReserveAlias(m: Memory)
    requires InvAlias(m)
    ensures InvAlias(m.(nextValue := m.nextValue + 1))
  {
    var n := m.(nextValue := m.nextValue + 1);
    forall a | a in n.maybePhysicalAlias ensures AliasAt(n, a) {
      assert AliasAt(m, a);
    }
  }

  lemma ReserveNames(m: Memory)
    requires InvTree(m) && InvNames(m)
    ensures InvTree(m.(nextValue := m.nextValue + 1)) && InvNames(m.(nextValue := m.nextValue + 1))
  {
    var n := m.(nextValue := m.nextValue + 1);
    TreeFrame(m, n);
    NamesFrame(m, n);
  }

  // -------------------------------------------------------------------------
  // Placing a physical buffer

  /** The state once a place for `value` is found and before the code that fills it is written. */
  ghost function Placed(m: Memory, b: Value, value: Value, bytes: nat, base: nat): Memory
    requires m.pool.geo.wordBytes > 0
  {
    m.(pool := Allocated(m.pool, value, base, m.pool.geo.WordsFor(bytes)),
       physicalBuffers := m.physicalBuffers[b := NewPhysical(m, b, value, base)],
       lastUsed := m.lastUsed + [NewPhysical(m, b, value, base)])
  }

  /** `n` is `m` after placing a buffer, possibly after a defragmentation that led to `mid`. */
  ghost predicate PlacedAfter(m: Memory, mid: Memory, n: Memory, b: Value, value: Value, bytes: nat, base: nat) {
    true == (
      && Inv(mid) && Steady(m, mid)
      && mid.physicalBuffers.Keys == m.physicalBuffers.Keys
      && mid.pool.usedWords == m.pool.usedWords
      && HasRoom(mid.pool, bytes, base)
      && n == Placed(mid, b, value, bytes, base))
  }

  lemma UsedIsNatural(m: Memory)
    requires Inv(m)
    ensures m.pool.usedWords >= 0 && m.pool.geo.Valid() && m.pool.UsedBytes() >= 0
  {
    hide InvHome;
    hide InvAlias;
    hide InvNames;
    hide InvPins;
    hide InvFlights;
    Product(m.pool.usedWords, m.pool.geo.wordBytes);
  }

  lemma Product(a: nat, b: nat)
    ensures a * b >= 0
  {}

  ghost function SumWords(m: Memory, bs: seq<Value>): nat {
    if bs == [] then 0 else SumWords(m, bs[..|bs| - 1]) + WordsOf(m, bs[|bs| - 1])
  }

  lemma {:induction false} SumWordsNext(m: Memory, bs: seq<Value>, i: nat)
    requires i < |bs|
    ensures SumWords(m, bs[..i + 1]) == SumWords(m, bs[..i]) + WordsOf(m, bs[i])
  {
    assert bs[..i + 1][..i] == bs[..i];
  }

  // -------------------------------------------------------------------------
  // Defragmentation: some unpinned buffers are swapped out and then in again

  ghost predicate Movable(m: Memory, bs: seq<Value>) {
    true == (
      && NoDuplicates(bs)
      && forall b :: b in bs ==> b in m.physicalBuffers && m.physicalBuffers[b] !in m.pinnedBuffers)
  }

  /** From `m`, the buffers `gone`, of `words` words in all, are out; nothing else has changed residency. */
  ghost predicate Vacated(m: Memory, s: Memory, gone: seq<Value>, words: int) {
    true == (
      && Inv(s) && Steady(m, s)
      && (forall b :: b in s.physicalBuffers <==> b in m.physicalBuffers && b !in gone)
      && s.pool.usedWords == m.pool.usedWords - words)
  }

  lemma VacatedNone(m: Memory)
    requires Inv(m)
    ensures Vacated(m, m, [], 0)
  {
    hide Inv;
  }

  lemma SteadyFacts(m: Memory, s: Memory)
    requires Steady(m, s)
    ensures s.size == m.size && s.pinnedBuffers == m.pinnedBuffers && s.pool.geo == m.pool.geo
    ensures s.now.source == m.now.source && s.root == m.root
    ensures forall b :: WordsOf(s, b) == WordsOf(m, b)
  {}

  /** A buffer without a pin is not behind a pinned physical buffer, wherever it has moved. */
  lemma StillUnpinned(m: Memory, s: Memory, b: Value)
    requires Inv(m) && Inv(s) && Steady(m, s) && b in s.physicalBuffers && b in m.physicalBuffers
    requires m.physicalBuffers[b] !in m.pinnedBuffers
    ensures s.physicalBuffers[b] !in s.pinnedBuffers
  {
    UnpinnedCanGo(m, b);
    assert ResidentAt(s, b);
    assert s.physicalBuffers[b] in s.pinnedBuffers <==> ShouldBePinned(s, s.physicalBuffers[b]);
  }

  lemma SwapOutEffects(s: Memory, b: Value)
    requires CanSwapOut(s, b)
    ensures SwappedOut(s, b).physicalBuffers == s.physicalBuffers - {b}
  {
    hide Inv;
  }

  lemma SwapOutWords(s: Memory, b: Value)
    requires CanSwapOut(s, b) && s.physicalBuffers[b].value in s.pool.live
    ensures SwappedOut(s, b).pool.usedWords == s.pool.usedWords - s.pool.live[s.physicalBuffers[b].value].size
  {
    hide Inv;
  }

  lemma {:induction false} VacateOne(m: Memory, s: Memory, bs: seq<Value>, i: nat)
    requires Inv(m) && Movable(m, bs) && i < |bs| && Vacated(m, s, bs[..i], SumWords(m, bs[..i]))
    ensures CanSwapOut(s, bs[i]) && Vacated(m, SwappedOut(s, bs[i]), bs[..i + 1], SumWords(m, bs[..i + 1]))
  {
    hide Inv;
    hide CanSwapOut;
    hide SwappedOut;
    var b := bs[i];
    assert b !in bs[..i];
    StillUnpinned(m, s, b);
    UnpinnedCanGo(s, b);
    SwapOutSafe(s, b);
    SwapOutEffects(s, b);
    SwapOutWords(s, b);
    SteadyFacts(m, s);
    SteadyTransitive(m, s, SwappedOut(s, b));
    SumWordsNext(m, bs, i);
    assert bs[..i + 1] == bs[..i] + [b];
  }

  /** `n` is `s` with buffer `b` back in. */
  ghost predicate BroughtIn(s: Memory, n: Memory, b: Value) {
    true == (
      && Inv(n) && Steady(s, n)
      && n.physicalBuffers.Keys == s.physicalBuffers.Keys + {b}
      && n.pool.usedWords == s.pool.usedWords + WordsOf(s, b))
  }

  lemma OneBack(m: Memory, s: Memory, n: Memory, gone: seq<Value>, rest: seq<Value>, words: int, b: Value)
    requires Vacated(m, s, gone, words) && BroughtIn(s, n, b) && b in m.physicalBuffers && b !in rest
    requires forall c :: c in gone <==> c == b || c in rest
    ensures Vacated(m, n, rest, words - WordsOf(m, b))
  {
    hide Inv;
    hide Steady;
    SteadyFacts(m, s);
    SteadyTransitive(m, s, n);
    hide WordsOf;
  }

  lemma {:induction false} RestoreOne(m: Memory, s: Memory, n: Memory, bs: seq<Value>, i: nat)
    requires Movable(m, bs) && i < |bs|
    requires Vacated(m, s, bs[i..], SumWords(m, bs) - SumWords(m, bs[..i]))
    requires BroughtIn(s, n, bs[i])
    ensures Vacated(m, n, bs[i + 1..], SumWords(m, bs) - SumWords(m, bs[..i + 1]))
  {
    hide Vacated;
    hide BroughtIn;
    SumWordsNext(m, bs, i);
    hide SumWords;
    OneLessGone(bs, i);
    assert bs[i] in bs;
    OneBack(m, s, n, bs[i..], bs[i + 1..], SumWords(m, bs) - SumWords(m, bs[..i]), bs[i]);
  }

  lemma OneLessGone(bs: seq<Value>, i: nat)
    requires NoDuplicates(bs) && i < |bs|
    ensures forall b :: b in bs[i..] <==> b == bs[i] || b in bs[i + 1..]
    ensures bs[i] !in bs[i + 1..]
  {
    assert bs[i..] == [bs[i]] + bs[i + 1..];
  }

  /** A movable buffer that is out can be brought in. */
  lemma {:induction false} ToRestore(m: Memory, s: Memory, bs: seq<Value>, i: nat)
    requires Inv(m) && Movable(m, bs) && i < |bs| && Vacated(m, s, bs[i..], SumWords(m, bs) - SumWords(m, bs[..i]))
    ensures bs[i] in s.now.source.live && bs[i] !in s.physicalBuffers
  {
    assert bs[i] in bs[i..];
    assert ResidentAt(m, bs[i]);
  }

  /** Defragmentation brings everything back. */
  ghost predicate Defragmented(m: Memory, n: Memory) {
    true == (
      && Inv(n) && Steady(m, n)
      && n.physicalBuffers.Keys == m.physicalBuffers.Keys
      && n.pool.usedWords == m.pool.usedWords)
  }

  /** At one point of the inserted code nothing is in but pinned buffers; then everything comes back. */
  ghost predicate Compacted(m: Memory, at: Memory, n: Memory) {
    true == (
      && Inv(at) && Steady(m, at) && Steady(at, n)
      && forall b :: b in at.physicalBuffers <==> b in m.physicalBuffers && m.physicalBuffers[b] in m.pinnedBuffers)
  }

  ghost predicate NoPlaceFor(m: Memory, b: Value) {
    b in m.size && m.pool.geo.wordBytes > 0
    && (m.size[b] + m.pool.UsedBytes() > m.pool.geo.UsableBytes() || Placement(m.pool, m.size[b]).None?)
  }

  /** At one point of the inserted code there is no place for a buffer that was in and has gone. */
  ghost predicate StuckAt(m: Memory, at: Memory) {
    true == (
      && Inv(at) && Steady(m, at)
      && exists b :: b in m.physicalBuffers && b !in at.physicalBuffers && NoPlaceFor(at, b))
  }

  /** Although the memory has been compacted, there is no place for `bytes` bytes. */
  ghost predicate NoPlaceCompacted(m: Memory, n: Memory, bytes: nat) {
    n.pool.geo.wordBytes > 0 && Placement(n.pool, bytes).None? && exists at :: Compacted(m, at, n)
  }

  lemma NoPlaceLeft(m: Memory, at: Memory, n: Memory, bytes: nat)
    requires Compacted(m, at, n) && n.pool.geo.wordBytes > 0 && Placement(n.pool, bytes).None?
    ensures NoPlaceCompacted(m, n, bytes)
  {
    hide Compacted;
  }

  lemma MovedOut(m: Memory, s: Memory, bs: seq<Value>, words: int)
    requires Vacated(m, s, bs[0..], words) && Movable(m, bs)
    requires forall b :: b in m.physicalBuffers ==> b in bs || m.physicalBuffers[b] in m.pinnedBuffers
    ensures Compacted(m, s, s)
  {
    hide Inv;
    assert bs[0..] == bs;
    hide Steady;
    SteadyWithItself(s);
  }

  lemma SteadyWithItself(m: Memory)
    ensures Steady(m, m)
  {}

  lemma CompactedNext(m: Memory, at: Memory, s: Memory, n: Memory)
    requires Compacted(m, at, s) && Steady(s, n)
    ensures Compacted(m, at, n)
  {
    hide Inv;
    SteadyTransitive(at, s, n);
    hide Steady;
  }

  lemma SteadyBroughtIn(s: Memory, n: Memory, b: Value)
    requires BroughtIn(s, n, b)
    ensures Steady(s, n)
  {
    hide Inv;
    hide Steady;
  }

  lemma Stuck(m: Memory, at: Memory, bs: seq<Value>, i: nat, words: int)
    requires Inv(m) && Movable(m, bs) && i < |bs| && Vacated(m, at, bs[i..], words) && NoPlaceFor(at, bs[i])
    ensures StuckAt(m, at)
  {
    hide Inv;
    hide Steady;
    assert bs[i] in bs && bs[i] in bs[i..];
  }

  lemma {:induction false} RestoredAll(m: Memory, n: Memory, bs: seq<Value>)
    requires Vacated(m, n, bs[|bs|..], SumWords(m, bs) - SumWords(m, bs[..|bs|]))
    ensures Defragmented(m, n)
  {
    hide Inv;
    hide Steady;
    assert bs[..|bs|] == bs;
  }

  // -------------------------------------------------------------------------
  // Bringing a buffer in

  lemma PlaceFacts(m: Memory, mid: Memory, n: Memory, b: Value, p: Value, bytes: nat, base: nat)
    requires Inv(m) && PlacedAfter(m, mid, n, b, p, bytes, base)
    requires b in m.now.source.live && b !in m.physicalBuffers && b in m.size && m.size[b] == bytes
    requires m.firstFresh <= p < m.nextValue && p !in m.now.target.access
    ensures CanSwapIn(mid, b, p, base)
  {
    hide Inv;
  }

  lemma SwapInEffects(m: Memory, b: Value, p: Value, base: nat)
    requires b in m.swappedOutValue && b in m.size && m.pool.geo.wordBytes > 0
    ensures SwappedIn(m, b, p, base).physicalBuffers.Keys == m.physicalBuffers.Keys + {b}
    ensures SwappedIn(m, b, p, base).pool.usedWords == m.pool.usedWords + WordsOf(m, b)
  {}

  /** The name taken for the new buffer, a defragmentation, and the code of the swap-in together bring `b` in. */
  lemma BringIn(m: Memory, mid: Memory, n: Memory, b: Value, base: nat)
    requires Inv(m) && b in m.now.source.live && b !in m.physicalBuffers && b in m.size
    requires PlacedAfter(m.(nextValue := m.nextValue + 1), mid, n, b, m.nextValue, m.size[b], base)
    ensures b in mid.swappedOutValue && b in mid.size && mid.pool.geo.wordBytes > 0
    ensures mid.size == m.size && n == Placed(mid, b, m.nextValue, m.size[b], base)
    ensures BroughtIn(m, SwappedIn(mid, b, m.nextValue, base), b) && Inv(SwappedIn(mid, b, m.nextValue, base))
    ensures SwappedIn(mid, b, m.nextValue, base).held == m.held
  {
    hide Inv;
    hide CanSwapIn;
    hide SwappedIn;
    var r := m.(nextValue := m.nextValue + 1);
    ReserveKeepsInv(m);
    PlaceFacts(r, mid, n, b, m.nextValue, m.size[b], base);
    SwapInKeepsInv(mid, b, m.nextValue, base);
    PlacedBase(r, mid, n, b, m.nextValue, m.size[b], base);
    SwapInEffects(mid, b, m.nextValue, base);
    SteadyIn(m, mid, SwappedIn(mid, b, m.nextValue, base));
    SteadyFacts(r, mid);
    hide Steady;
    hide Undisturbed;
    hide NamesKept;
  }

  /** Housekeeping after a name was taken, and then code that uses it. */
  lemma SteadyIn(m: Memory, mid: Memory, n: Memory)
    requires Steady(m.(nextValue := m.nextValue + 1), mid) && Undisturbed(mid, n) && NamesKept(m.nextValue, mid, n)
    ensures Steady(m, n) && n.held == mid.held && mid.held == m.held && mid.size == m.size
  {}

  lemma PlacedBase(m: Memory, mid: Memory, n: Memory, b: Value, p: Value, bytes: nat, base: nat)
    requires PlacedAfter(m, mid, n, b, p, bytes, base)
    ensures mid.pool.geo.wordBytes > 0 && mid.size == m.size && n == Placed(mid, b, p, bytes, base)
  {
    hide Inv;
  }

  lemma PlacedIs(m: Memory, mid: Memory, n: Memory, b: Value, value: Value, bytes: nat, base: nat)
    requires Inv(m) && (mid == m || Defragmented(m, mid))
    requires m.pool.geo.Valid() && bytes + m.pool.UsedBytes() <= m.pool.geo.UsableBytes()
    requires mid.pool.geo == m.pool.geo && Placement(mid.pool, bytes) == Some(base)
    requires n == Placed(mid, b, value, bytes, base)
    ensures PlacedAfter(m, mid, n, b, value, bytes, base)
  {
    hide Inv;
  }
}
