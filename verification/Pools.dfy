/** The two-ended word allocator that hands out LRAM, DTCM and ITCM addresses. */
module Pools {
  import opened Basics
  import opened Totals

  datatype Allocation = Allocation(base: nat, size: nat)

  /** The constants of a pool; every quantity but `words` is in bytes. */
  datatype Geometry = Geometry(words: nat, wordBytes: nat, reservedBytes: nat, largeBytes: nat) {
    predicate Valid() {
      && wordBytes > 0
      && largeBytes > 0
      && ReservedWords() <= words
    }

    function WordsFor(bytes: nat): nat
      requires wordBytes > 0
    {
      (bytes + wordBytes - 1) / wordBytes
    }

    function ReservedWords(): nat
      requires wordBytes > 0
    {
      WordsFor(reservedBytes)
    }

    function UsableBytes(): int {
      words * wordBytes - reservedBytes
    }
  }

  /** The value of a pool: one mark per word, the live allocations and the word count. */
  datatype PoolState = PoolState(geo: Geometry, used: seq<bool>, live: map<Value, Allocation>, usedWords: int) {
    function UsedBytes(): int {
      usedWords * geo.wordBytes
    }
  }

  // -------------------------------------------------------------------------
  // Where a request is placed

  predicate FreeWindow(used: seq<bool>, start: int, n: nat) {
    && 0 <= start
    && start + n <= |used|
    && forall k :: start <= k < start + n ==> !used[k]
  }

  /** Starts the upward scan can return: the last start position is never tried. */
  predicate SmallFit(used: seq<bool>, n: nat, start: int) {
    && 0 <= start < |used| - n
    && !used[start]
    && FreeWindow(used, start, n)
  }

  /** Starts the downward scan can return: never word 0, and a window of two or more words
      only if it reaches the top of the pool or the word after it is free. */
  predicate LargeFit(used: seq<bool>, n: nat, start: int) {
    && 1 <= start
    && FreeWindow(used, start, n)
    && (n == 1 || start + n == |used| || !used[start + n])
  }

  predicate Fit(large: bool, used: seq<bool>, n: nat, start: int) {
    if large then LargeFit(used, n, start) else SmallFit(used, n, start)
  }

  ghost predicate NoFit(large: bool, used: seq<bool>, n: nat) {
    forall k :: !Fit(large, used, n, k)
  }

  /** The lowest fit of a small request, the highest fit of a large one. */
  ghost predicate Chosen(large: bool, used: seq<bool>, n: nat, start: int) {
    && Fit(large, used, n, start)
    && forall k :: Fit(large, used, n, k) ==> if large then k <= start else start <= k
  }

  /** The start word a pool in state `s` gives to a request, if any. */
  ghost function Placement(s: PoolState, bytes: nat): (r: Option<nat>)
    requires s.geo.wordBytes > 0
    ensures r.Some? ==> Chosen(bytes >= s.geo.largeBytes, s.used, s.geo.WordsFor(bytes), r.value)
  {
    var large, n := bytes >= s.geo.largeBytes, s.geo.WordsFor(bytes);
    if i: nat :| Chosen(large, s.used, n, i) then Some(i) else None
  }

  // -------------------------------------------------------------------------
  // State changes

  ghost function Marked(used: seq<bool>, base: nat, n: nat, mark: bool): (r: seq<bool>)
    ensures |r| == |used|
    ensures forall k :: 0 <= k < |used| ==> r[k] == if base <= k < base + n then mark else used[k]
  {
    seq(|used|, k requires 0 <= k < |used| => if base <= k < base + n then mark else used[k])
  }

  ghost function Allocated(s: PoolState, v: Value, base: nat, n: nat): PoolState {
    s.(used := Marked(s.used, base, n, true), live := s.live[v := Allocation(base, n)], usedWords := s.usedWords + n)
  }

  /** Freeing a value that is not live changes nothing. */
  ghost function Freed(s: PoolState, v: Value): PoolState {
    if v in s.live then
      s.(used := Marked(s.used, s.live[v].base, s.live[v].size, false),
         live := s.live - {v}, usedWords := s.usedWords - s.live[v].size)
    else s
  }

  /** Clearing marks the reserved prefix and forgets the allocations; it resets no word. */
  ghost function Cleared(s: PoolState): PoolState
    requires s.geo.wordBytes > 0
  {
    s.(used := Marked(s.used, 0, s.geo.ReservedWords(), true), live := map[], usedWords := 0)
  }

  ghost function Fresh(geo: Geometry): PoolState
    requires geo.wordBytes > 0
  {
    PoolState(geo, seq(geo.words, k => k < geo.ReservedWords()), map[], 0)
  }

  // -------------------------------------------------------------------------
  // What every history of a pool keeps

  ghost function Sizes(live: map<Value, Allocation>): map<Value, nat> {
    map v | v in live :: live[v].size
  }

  predicate InBlock(a: Allocation, k: int) {
    a.base <= k < a.base + a.size
  }

  /** Live blocks lie in the pool above the reserved prefix, are pairwise disjoint and marked. */
  ghost predicate Sound(s: PoolState) {
    && s.geo.Valid()
    && |s.used| == s.geo.words
    && (forall v :: v in s.live ==> s.geo.ReservedWords() <= s.live[v].base && s.live[v].base + s.live[v].size <= s.geo.words)
    && (forall v, w, k :: v in s.live && w in s.live && InBlock(s.live[v], k) && InBlock(s.live[w], k) ==> v == w)
    && (forall k :: 0 <= k < s.geo.ReservedWords() ==> s.used[k])
    && (forall v, k :: v in s.live && InBlock(s.live[v], k) ==> s.used[k])
    && s.usedWords == Total(Sizes(s.live))
  }

  /** Sound, and no other word is marked. */
  ghost predicate Exact(s: PoolState) {
    && Sound(s)
    && forall k :: 0 <= k < s.geo.words && s.used[k] && s.geo.ReservedWords() <= k ==>
                     exists v :: v in s.live && InBlock(s.live[v], k)
  }

  lemma FreshIsExact(geo: Geometry)
    requires geo.Valid()
    ensures Exact(Fresh(geo))
  {
    assert Sizes(map[]) == map[];
  }

  lemma PlaceIsClear(s: PoolState, bytes: nat)
    requires Sound(s) && Placement(s, bytes).Some?
    ensures FreeWindow(s.used, Placement(s, bytes).value, s.geo.WordsFor(bytes))
    ensures s.geo.ReservedWords() <= Placement(s, bytes).value
  {
    FewestWords(s.geo, bytes);
    assert !s.used[Placement(s, bytes).value];
  }

  lemma AllocateKeepsSound(s: PoolState, v: Value, bytes: nat)
    requires Sound(s) && v !in s.live && Placement(s, bytes).Some?
    ensures Sound(Allocated(s, v, Placement(s, bytes).value, s.geo.WordsFor(bytes)))
  {
    var base, n := Placement(s, bytes).value, s.geo.WordsFor(bytes);
    PlaceIsClear(s, bytes);
    BlockKeepsSound(s, v, base, n);
  }

  lemma BlockKeepsSound(s: PoolState, v: Value, base: nat, n: nat)
    requires Sound(s) && v !in s.live && FreeWindow(s.used, base, n) && s.geo.ReservedWords() <= base
    ensures Sound(Allocated(s, v, base, n))
  {
    var t := Allocated(s, v, base, n);
    forall w, k | w in s.live && InBlock(s.live[w], k) ensures !(base <= k < base + n) {
      assert s.used[k];
    }
    assert Sizes(t.live) == Sizes(s.live)[v := n];
    TotalAdd(Sizes(s.live), v, n);
  }

  lemma AllocateKeepsExact(s: PoolState, v: Value, bytes: nat)
    requires Exact(s) && v !in s.live && Placement(s, bytes).Some?
    ensures Exact(Allocated(s, v, Placement(s, bytes).value, s.geo.WordsFor(bytes)))
  {
    var base, n := Placement(s, bytes).value, s.geo.WordsFor(bytes);
    var t := Allocated(s, v, base, n);
    AllocateKeepsSound(s, v, bytes);
    forall k | 0 <= k < t.geo.words && t.used[k] && t.geo.ReservedWords() <= k
      ensures exists w :: w in t.live && InBlock(t.live[w], k)
    {
      if base <= k < base + n {
        assert InBlock(t.live[v], k);
      } else {
        var w :| w in s.live && InBlock(s.live[w], k);
        assert w in t.live && InBlock(t.live[w], k);
      }
    }
  }

  /** Words hold the bytes asked for, and one word less does not. */
  lemma FewestWords(geo: Geometry, bytes: nat)
    requires geo.Valid()
    ensures bytes <= geo.wordBytes * geo.WordsFor(bytes) < bytes + geo.wordBytes
    ensures bytes > 0 ==> geo.WordsFor(bytes) >= 1
  {
    var w, q := geo.wordBytes, geo.WordsFor(bytes);
    assert bytes + w - 1 == w * q + (bytes + w - 1) % w;
  }

  /** The usable bytes are all those above the reserved words, and of these at most a part of one. */
  lemma UsableIsTight(geo: Geometry)
    requires geo.Valid()
    ensures var above := (geo.words - geo.ReservedWords()) * geo.wordBytes;
            above <= geo.UsableBytes() < above + geo.wordBytes
  {
    FewestWords(geo, geo.reservedBytes);
    Minus(geo.words, geo.ReservedWords(), geo.wordBytes);
  }

  /** In an empty pool a small request gets the lowest words and a large one the highest; a small request is not given the
      last word, and a large one not word 0. */
  lemma FirstPlacement(geo: Geometry, bytes: nat)
    requires geo.Valid()
    ensures var n := geo.WordsFor(bytes);
            var reserved := geo.ReservedWords();
            Placement(Fresh(geo), bytes) ==
            if bytes < geo.largeBytes then (if reserved + n < geo.words then Some(reserved) else None)
            else (if reserved + n <= geo.words && n < geo.words then Some(geo.words - n) else None)
  {
    var s, n, reserved := Fresh(geo), geo.WordsFor(bytes), geo.ReservedWords();
    var large := bytes >= geo.largeBytes;
    FewestWords(geo, bytes);
    hide Geometry.WordsFor;
    hide Geometry.ReservedWords;
    hide Placement;
    forall k | Fit(large, s.used, n, k) ensures reserved <= k <= geo.words - n {
      assert !s.used[k];
    }
    if !large && reserved + n < geo.words {
      assert Chosen(large, s.used, n, reserved);
    }
    if large && reserved + n <= geo.words && n < geo.words {
      assert Chosen(large, s.used, n, geo.words - n);
    }
    PlacementIs(s, bytes);
  }

  /** A place is given if there is one, and it is the chosen one. */
  lemma PlacementIs(s: PoolState, bytes: nat)
    requires s.geo.wordBytes > 0
    ensures Placement(s, bytes).Some? ==> Chosen(bytes >= s.geo.largeBytes, s.used, s.geo.WordsFor(bytes), Placement(s, bytes).value)
    ensures forall i: nat :: Chosen(bytes >= s.geo.largeBytes, s.used, s.geo.WordsFor(bytes), i) ==>
              Placement(s, bytes) == Some(i)
  {}

  /** A second large request of two words or more leaves a word free below the first one. */
  lemma SecondLarge(geo: Geometry, first: nat, v: Value, bytes: nat)
    requires geo.Valid() && bytes >= geo.largeBytes && geo.WordsFor(bytes) >= 2
    requires 1 <= first < geo.words - geo.ReservedWords()
    ensures var n := geo.WordsFor(bytes);
            var start := geo.words - first - 1 - n;
            Placement(Allocated(Fresh(geo), v, geo.words - first, first), bytes) ==
            if geo.ReservedWords() <= start && 1 <= start then Some(start) else None
  {
    var s, n, reserved := Allocated(Fresh(geo), v, geo.words - first, first), geo.WordsFor(bytes), geo.ReservedWords();
    var start := geo.words - first - 1 - n;
    hide Geometry.WordsFor;
    hide Geometry.ReservedWords;
    hide Placement;
    forall k | Fit(true, s.used, n, k) ensures reserved <= k <= start && 1 <= k {
      assert !s.used[k] && !s.used[k + n - 1];
      assert k + n <= geo.words - first;
    }
    if reserved <= start && 1 <= start {
      assert Chosen(true, s.used, n, start);
    }
    PlacementIs(s, bytes);
  }

  lemma FreeKeepsSound(s: PoolState, v: Value)
    requires Sound(s)
    ensures Sound(Freed(s, v))
    ensures Exact(s) ==> Exact(Freed(s, v))
  {
    if v in s.live {
      var t := Freed(s, v);
      TotalRemove(Sizes(s.live), v);
      assert Sizes(t.live) == Sizes(s.live) - {v};
      if Exact(s) {
        forall k | 0 <= k < t.geo.words && t.used[k] && t.geo.ReservedWords() <= k
          ensures exists w :: w in t.live && InBlock(t.live[w], k)
        {
          var w :| w in s.live && InBlock(s.live[w], k);
          assert w in t.live && InBlock(t.live[w], k);
        }
      }
    }
  }

  /** After `clear` the pool is sound again, but the marks of the buffers that were still live stay:
      the pool is exact, and in fact as good as new, exactly when no live buffer covered a word. */
  lemma ClearKeepsSound(s: PoolState)
    requires Exact(s)
    ensures Sound(Cleared(s))
    ensures Exact(Cleared(s)) <==> forall v :: v in s.live ==> s.live[v].size == 0
    ensures Exact(Cleared(s)) <==> Cleared(s) == Fresh(s.geo)
  {
    var t := Cleared(s);
    assert Sizes(map[]) == map[];
    if v :| v in s.live && s.live[v].size > 0 {
      assert InBlock(s.live[v], s.live[v].base);
      assert t.used[s.live[v].base];
      assert !Fresh(s.geo).used[s.live[v].base];
    } else {
      assert t.used == Fresh(s.geo).used;
      FreshIsExact(s.geo);
    }
  }

  // -------------------------------------------------------------------------
  // Counting marks

  ghost function Marks(used: seq<bool>): nat {
    if used == [] then 0 else Marks(used[..|used| - 1]) + if used[|used| - 1] then 1 else 0
  }

  lemma {:induction false} MarksAtMost(used: seq<bool>)
    ensures Marks(used) <= |used|
    decreases |used|
  {
    if used != [] { MarksAtMost(used[..|used| - 1]); }
  }

  lemma {:induction false} MarksOfPrefix(used: seq<bool>, n: nat)
    requires n <= |used| && forall k :: 0 <= k < |used| ==> (used[k] <==> k < n)
    ensures Marks(used) == n
    decreases |used|
  {
    if used != [] {
      var last := |used| - 1;
      MarksOfPrefix(used[..last], if n <= last then n else last);
    }
  }

  /** Unmarking a block takes its size off the marks. */
  lemma {:induction false} MarksUnmarked(used: seq<bool>, base: nat, n: nat)
    requires base + n <= |used| && forall k :: base <= k < base + n ==> used[k]
    ensures Marks(Marked(used, base, n, false)) == Marks(used) - n
    decreases |used|
  {
    if n == 0 {
      assert Marked(used, base, n, false) == used;
    } else {
      var last := |used| - 1;
      var inside := if base + n <= last then n else n - 1;
      MarksUnmarked(used[..last], base, inside);
      assert Marked(used, base, n, false)[..last] == Marked(used[..last], base, inside, false);
    }
  }

  /** The words in use are the marked ones that are not reserved. */
  lemma {:induction false} UsedIsMarked(s: PoolState)
    requires Exact(s)
    ensures s.usedWords == Marks(s.used) - s.geo.ReservedWords()
    decreases |s.live|
  {
    if s.live == map[] {
      assert Sizes(s.live) == map[];
      MarksOfPrefix(s.used, s.geo.ReservedWords());
    } else {
      var v :| v in s.live;
      assert (s.live - {v}).Keys == s.live.Keys - {v};
      FreeKeepsSound(s, v);
      forall k | s.live[v].base <= k < s.live[v].base + s.live[v].size ensures s.used[k] {
        assert InBlock(s.live[v], k);
      }
      MarksUnmarked(s.used, s.live[v].base, s.live[v].size);
      UsedIsMarked(Freed(s, v));
    }
  }

  /** Live buffers never use more than the usable bytes, rounding included. */
  lemma UsedFits(s: PoolState)
    requires Exact(s)
    ensures s.UsedBytes() <= s.geo.UsableBytes()
  {
    UsedIsMarked(s);
    MarksAtMost(s.used);
    BytesOfWords(s.geo, s.usedWords);
  }

  lemma BytesOfWords(geo: Geometry, used: int)
    requires geo.Valid() && used <= geo.words - geo.ReservedWords()
    ensures used * geo.wordBytes <= geo.UsableBytes()
  {
    var w, r := geo.wordBytes, geo.ReservedWords();
    FewestWords(geo, geo.reservedBytes);
    NoMore(used, geo.words - r, w);
    Minus(geo.words, r, w);
  }

  lemma NoMore(a: int, b: int, w: nat)
    requires a <= b
    ensures a * w <= b * w
  {}

  lemma Minus(a: int, b: int, w: int)
    ensures (a - b) * w == a * w - w * b
  {}

  // -------------------------------------------------------------------------
  // Histories

  datatype Request = Allocate(v: Value, bytes: nat) | Free(v: Value)

  /** The pool after a list of requests; a request that finds no place leaves the pool as it is. */
  ghost function After(geo: Geometry, requests: seq<Request>): PoolState
    requires geo.Valid()
    ensures After(geo, requests).geo == geo
  {
    if requests == [] then Fresh(geo) else
    var s := After(geo, requests[..|requests| - 1]);
    match requests[|requests| - 1]
    case Free(v) => Freed(s, v)
    case Allocate(v, bytes) =>
      if v in s.live then s else
      match Placement(s, bytes)
      case None => s
      case Some(base) => Allocated(s, v, base, geo.WordsFor(bytes))
  }

  /** In every history, the marked words are exactly the reserved prefix and the live blocks, live blocks
      are disjoint and outside the reserved prefix, and the used size is the total of the live sizes. */
  lemma {:induction false} HistoryIsExact(geo: Geometry, requests: seq<Request>)
    requires geo.Valid()
    ensures Exact(After(geo, requests))
    decreases |requests|
  {
    if requests == [] {
      FreshIsExact(geo);
    } else {
      var s := After(geo, requests[..|requests| - 1]);
      HistoryIsExact(geo, requests[..|requests| - 1]);
      match requests[|requests| - 1]
      case Free(v) => FreeKeepsSound(s, v);
      case Allocate(v, bytes) =>
        if v !in s.live && Placement(s, bytes).Some? {
          AllocateKeepsExact(s, v, bytes);
        }
    }
  }

  // -------------------------------------------------------------------------
  // The allocator

  class Pool {
    const geo: Geometry
    var used: seq<bool>
    var allocations: map<Value, Allocation>
    var usedSizeWords: int

    ghost predicate Valid()
      reads this
    {
      geo.Valid() && |used| == geo.words
    }

    ghost function State(): PoolState
      reads this
    {
      PoolState(geo, used, allocations, usedSizeWords)
    }

    constructor (sizeBytes: nat, reservedBytes: nat, wordSizeBytes: nat, largeAllocSizeBytes: nat)
      requires wordSizeBytes > 0
      requires Geometry(sizeBytes / wordSizeBytes, wordSizeBytes, reservedBytes, largeAllocSizeBytes).Valid()
      ensures Valid()
      ensures geo == Geometry(sizeBytes / wordSizeBytes, wordSizeBytes, reservedBytes, largeAllocSizeBytes)
      ensures State() == Fresh(geo) && Exact(State())
    {
      geo := Geometry(sizeBytes / wordSizeBytes, wordSizeBytes, reservedBytes, largeAllocSizeBytes);
      used := seq(sizeBytes / wordSizeBytes, _ => false);
      allocations := map[];
      usedSizeWords := 0;
      new;
      Clear();
      assert used == Fresh(geo).used;
      FreshIsExact(geo);
    }

    method UsedSize() returns (bytes: int)
      ensures bytes == State().UsedBytes()
    {
      bytes := usedSizeWords * geo.wordBytes;
    }

    method UsableSize() returns (bytes: int)
      requires Valid()
      ensures bytes == geo.UsableBytes()
    {
      bytes := |used| * geo.wordBytes - geo.reservedBytes;
    }

    method SetWords(base: nat, n: nat, mark: bool)
      requires base + n <= |used|
      modifies this`used
      ensures used == Marked(old(used), base, n, mark)
    {
      ghost var was := used;
      for j := 0 to n
        invariant used == Marked(was, base, j, mark)
      {
        used := used[base + j := mark];
      }
    }

    method Clear()
      requires Valid()
      modifies this
      ensures Valid() && State() == Cleared(old(State()))
    {
      SetWords(0, (geo.reservedBytes + geo.wordBytes - 1) / geo.wordBytes, true);
      allocations := map[];
      usedSizeWords := 0;
    }

    /** The upward scan for small requests. */
    method ScanUp(n: nat) returns (r: Option<nat>)
      requires Valid() && n <= |used|
      ensures r.Some? ==> Chosen(false, used, n, r.value)
      ensures r.None? <==> forall k :: !SmallFit(used, n, k)
    {
      var i := 0;
      while i < |used| - n
        invariant 0 <= i
        invariant forall k :: 0 <= k < i ==> !SmallFit(used, n, k)
      {
        if !used[i] {
          var found := true;
          var j := 0;
          while j < n
            invariant 0 <= j <= n && found
            invariant forall k :: i <= k < i + j ==> !used[k]
          {
            if used[i + j] {
              found := false;
              break;
            }
            j := j + 1;
          }
          if found {
            return Some(i);
          }
          forall k | i <= k <= i + j ensures !SmallFit(used, n, k) {
            assert k <= i + j < k + n || k == i + j;
          }
          i := i + j;
        }
        i := i + 1;
      }
      r := None;
    }

    /** The downward scan for large requests, with its jump over the blocking word. */
    method ScanDown(n: nat) returns (r: Option<nat>)
      requires Valid() && 1 <= n <= |used|
      ensures r.Some? ==> Chosen(true, used, n, r.value)
      ensures r.None? <==> forall k :: !LargeFit(used, n, k)
    {
      var i := |used|;
      while i > n
        invariant 0 <= i <= |used|
        invariant i < |used| && n > 1 && used[i] ==> !FreeWindow(used, i - n, n)
        invariant forall k :: i - n < k ==> !LargeFit(used, n, k)
      {
        var start := i - n;
        if !used[start] {
          var found := true;
          var j := 0;
          while j < n
            invariant 0 <= j <= n && found
            invariant forall k :: start <= k < start + j ==> !used[k]
          {
            if used[start + j] {
              found := false;
              break;
            }
            j := j + 1;
          }
          if found {
            return Some(start);
          }
          forall k | start + j - 1 - n < k <= start ensures !LargeFit(used, n, k) {
            assert k <= start + j < k + n || k + n == start + j;
          }
          i := start + j;
        }
        i := i - 1;
      }
      r := None;
    }

    /** Fails exactly when the scans find nothing; otherwise takes the chosen place. */
    method Allocate(v: Value, sizeBytes: nat) returns (address: Option<nat>)
      requires Valid()
      requires geo.WordsFor(sizeBytes) <= geo.words  // the scans index out of range otherwise
      modifies this
      ensures Valid()
      ensures address.None? <==> NoFit(sizeBytes >= geo.largeBytes, old(used), geo.WordsFor(sizeBytes))
      ensures address.None? <==> Placement(old(State()), sizeBytes).None?
      ensures address.None? ==> State() == old(State())
      ensures address.Some? ==>
                var base := Placement(old(State()), sizeBytes).value;
                && address.value == base * geo.wordBytes
                && State() == Allocated(old(State()), v, base, geo.WordsFor(sizeBytes))
    {
      var n := (sizeBytes + geo.wordBytes - 1) / geo.wordBytes;
      var place: Option<nat>;
      if sizeBytes < geo.largeBytes {
        place := ScanUp(n);
      } else {
        FewestWords(geo, sizeBytes);
        place := ScanDown(n);
      }
      if place.None? {
        return None;
      }
      SetWords(place.value, n, true);
      usedSizeWords := usedSizeWords + n;
      allocations := allocations[v := Allocation(place.value, n)];
      address := Some(place.value * geo.wordBytes);
    }

    method Release(v: Value)
      requires Valid()
      requires v in allocations ==> allocations[v].base + allocations[v].size <= |used|
      modifies this
      ensures Valid() && State() == Freed(old(State()), v)
    {
      if v in allocations {
        var a := allocations[v];
        SetWords(a.base, a.size, false);
        usedSizeWords := usedSizeWords - a.size;
        allocations := allocations - {v};
      }
    }
  }
}
