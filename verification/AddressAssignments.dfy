/** Assigning addresses: the peak check, the walk that asks the pool for every buffer, and the whole LRAM pass. */
module AddressAssignments {
  import opened Basics
  import opened Totals
  import opened Ir
  import opened Pools
  import opened Replays
  import opened Refinement
  import opened ValueSizes
  import opened Conversions

  /** The byte size in the memref type of a value. */
  type Sizes = map<Value, nat>

  function SizeOf(sizes: Sizes, v: Value): nat {
    if v in sizes then sizes[v] else 0
  }

  /** The bytes in use after a program, rounding to words left aside. */
  ghost function Usage(program: seq<Instr>, sizes: Sizes): int {
    if program == [] then 0 else
    var delta: int :=
      match program[|program| - 1]
      case Alloc(v, Lram, _) => SizeOf(sizes, v)
      case Dealloc(v, Lram) => 0 - SizeOf(sizes, v)
      case _ => 0;
    Usage(program[..|program| - 1], sizes) + delta
  }

  lemma {:induction false} UsageNext(program: seq<Instr>, sizes: Sizes, k: nat)
    requires k < |program|
    ensures Usage(program[..k + 1], sizes) == Usage(program[..k], sizes) + Usage([program[k]], sizes)
  {
    assert program[..k + 1][..k] == program[..k];
  }

  /** The sizes of the live buffers of the small memory. */
  ghost function LiveSizes(n: Names, sizes: Sizes): map<Value, nat> {
    map v | v in n.live && n.live[v] == Lram :: SizeOf(sizes, v)
  }

  lemma LiveAfter(n: Names, e: Instr, sizes: Sizes)
    requires StepNames(n, e).Some?
    ensures var before, after := LiveSizes(n, sizes), LiveSizes(StepNames(n, e).value, sizes);
            match e
            case Alloc(v, Lram, _) => v !in before && after == before[v := SizeOf(sizes, v)]
            case Dealloc(v, Lram) => v in before && before[v] == SizeOf(sizes, v) && after == before - {v}
            case _ => after == before
  {
    match e
    case Alloc(v, Lram, _) =>
    case Dealloc(v, Lram) =>
    case _ =>
  }

  lemma {:induction false} LiveNext(n: Names, e: Instr, sizes: Sizes)
    requires StepNames(n, e).Some?
    ensures Total(LiveSizes(StepNames(n, e).value, sizes)) == Total(LiveSizes(n, sizes)) + Usage([e], sizes)
  {
    LiveAfter(n, e, sizes);
    hide StepNames;
    hide LiveSizes;
    hide SizeOf;
    match e
    case Alloc(v, Lram, _) => TotalAdd(LiveSizes(n, sizes), v, SizeOf(sizes, v));
    case Dealloc(v, Lram) => TotalRemove(LiveSizes(n, sizes), v);
    case _ =>
  }

  /** At every point of a program that takes no name twice and frees only what is live, the usage is the total size of the
      live buffers. */
  lemma {:induction false} UsageIsLive(program: seq<Instr>, sizes: Sizes, k: nat)
    requires k <= |program| && NamesAfter(program).Some?
    ensures NamesAfter(program[..k]).Some?
    ensures Usage(program[..k], sizes) == Total(LiveSizes(NamesAfter(program[..k]).value, sizes))
    decreases k
  {
    if k == 0 {
      assert LiveSizes(NO_NAMES, sizes) == map[];
    } else {
      UsageIsLive(program, sizes, k - 1);
      NextNames(program, k - 1);
      UsageNext(program, sizes, k - 1);
      hide StepNames;
      LiveNext(NamesAfter(program[..k - 1]).value, program[k - 1], sizes);
    }
  }

  /** The size in every allocation is that of its type. */
  predicate WellTyped(program: seq<Instr>, sizes: Sizes) {
    forall k :: 0 <= k < |program| && program[k].Alloc? ==> program[k].v in sizes && sizes[program[k].v] == program[k].bytes
  }

  /** Succeeds exactly if no prefix of the program uses more than the memory has. */
  method CheckPeakMemoryUsage(program: seq<Instr>, sizes: Sizes, memSize: int) returns (ok: bool)
    ensures ok <==> forall k :: 0 <= k <= |program| ==> Usage(program[..k], sizes) <= memSize
  {
    var current, peak := 0, 0;
    assert program[..0] == [];
    for k := 0 to |program|
      invariant current == Usage(program[..k], sizes)
      invariant forall j :: 0 <= j <= k ==> Usage(program[..j], sizes) <= peak
      invariant exists j :: 0 <= j <= k && Usage(program[..j], sizes) == peak
    {
      UsageNext(program, sizes, k);
      match program[k] {
        case Alloc(v, Lram, _) =>
          current := current + SizeOf(sizes, v);
          if current > peak {
            peak := current;
          }
        case Dealloc(v, Lram) =>
          current := current - SizeOf(sizes, v);
        case _ =>
      }
    }
    ok := peak <= memSize;
  }

  datatype Assigned = Assigned(pool: PoolState, address: map<Value, nat>)

  /** One instruction of the walk; None if no address is found. */
  ghost function AssignStep(a: Assigned, e: Instr): Option<Assigned>
    requires a.pool.geo.Valid()
  {
    match e
    case Alloc(v, Lram, bytes) =>
      (match Placement(a.pool, bytes)
       case None => None
       case Some(base) =>
         Some(Assigned(Allocated(a.pool, v, base, a.pool.geo.WordsFor(bytes)), a.address[v := base * a.pool.geo.wordBytes])))
    case Alias(v, base, _, _) =>
      if base in a.address then Some(a.(address := a.address[v := a.address[base]])) else None
    case Dealloc(v, Lram) => Some(a.(pool := Freed(a.pool, v)))
    case _ => Some(a)
  }

  ghost function AssignedBy(start: PoolState, program: seq<Instr>): (r: Option<Assigned>)
    requires start.geo.Valid()
    ensures r.Some? ==> r.value.pool.geo == start.geo && (|start.used| == start.geo.words ==>
              |r.value.pool.used| == start.geo.words)
  {
    if program == [] then Some(Assigned(start, map[])) else
    match AssignedBy(start, program[..|program| - 1])
    case None => None
    case Some(a) => AssignStep(a, program[|program| - 1])
  }

  /** Every live block lies in the pool. */
  ghost predicate BlocksInPool(s: PoolState) {
    && s.geo.Valid() && |s.used| == s.geo.words
    && forall v :: v in s.live ==> s.live[v].base + s.live[v].size <= s.geo.words
  }

  lemma {:induction false} WalkStaysInPool(start: PoolState, program: seq<Instr>)
    requires BlocksInPool(start) && AssignedBy(start, program).Some?
    ensures BlocksInPool(AssignedBy(start, program).value.pool)
    decreases |program|
  {
    if program != [] {
      WalkStaysInPool(start, program[..|program| - 1]);
      var s, e := AssignedBy(start, program[..|program| - 1]).value.pool, program[|program| - 1];
      if e.Alloc? && e.space == Lram {
        assert FreeWindow(s.used, Placement(s, e.bytes).value, s.geo.WordsFor(e.bytes));
      }
    }
  }

  /** Every buffer of the program fits in the pool by itself. */
  predicate FitsPool(program: seq<Instr>, geo: Geometry) {
    geo.wordBytes > 0 &&
    forall k :: 0 <= k < |program| && program[k].Alloc? && program[k].space == Lram ==>
      geo.WordsFor(program[k].bytes) <= geo.words
  }

  /** Walks the program and asks the pool for every buffer, after checking the peak. */
  method AllocateAddresses(program: seq<Instr>, sizes: Sizes, pool: Pool) returns (ok: bool, address: map<Value, nat>)
    requires BlocksInPool(pool.State()) && WellTyped(program, sizes) && FitsPool(program, pool.geo)
    modifies pool
    ensures ok <==> && (forall k :: 0 <= k <= |program| ==> Usage(program[..k], sizes) <= pool.geo.UsableBytes())
                    && AssignedBy(old(pool.State()), program).Some?
    ensures ok ==> pool.Valid() && AssignedBy(old(pool.State()), program) == Some(Assigned(pool.State(), address))
  {
    ghost var start := pool.State();
    address := map[];
    var usable := pool.UsableSize();
    ok := CheckPeakMemoryUsage(program, sizes, usable);
    if !ok {
      return;
    }
    assert program[..0] == [];
    for k := 0 to |program|
      invariant pool.Valid() && pool.geo == start.geo
      invariant AssignedBy(start, program[..k]) == Some(Assigned(pool.State(), address))
    {
      WalkStaysInPool(start, program[..k]);
      assert program[..k + 1][..k] == program[..k];
      match program[k] {
        case Alloc(v, Lram, bytes) =>
          var found := pool.Allocate(v, bytes);
          if found.None? {
            AssignStuck(start, program, k + 1);
            return false, address;
          }
          address := address[v := found.value];
        case Alias(v, base, _, _) =>
          if base !in address {
            AssignStuck(start, program, k + 1);
            return false, address;
          }
          address := address[v := address[base]];
        case Dealloc(v, Lram) =>
          pool.Release(v);
        case _ =>
      }
    }
    assert program[..|program|] == program;
  }

  lemma {:induction false} AssignStuck(start: PoolState, program: seq<Instr>, k: nat)
    requires start.geo.Valid() && k <= |program| && AssignedBy(start, program[..k]).None?
    ensures AssignedBy(start, program).None?
    decreases |program| - k
  {
    if k == |program| {
      assert program[..k] == program;
    } else {
      assert program[..k + 1][..k] == program[..k];
      AssignStuck(start, program, k + 1);
    }
  }

  // -------------------------------------------------------------------------
  // What a replay says about the walk

  /** The blocks of the pool are those of the live buffers, rounded up to words. */
  ghost predicate Accounted(r: Replay, sizes: Sizes) {
    && Exact(r.pool)
    && r.bytes.Keys == r.pool.live.Keys
    && (forall v :: v in r.bytes ==> v in sizes && sizes[v] == r.bytes[v])
    && (forall v :: v in r.bytes ==> r.pool.live[v].size == r.pool.geo.WordsFor(r.bytes[v]))
  }

  lemma AccountedStep(r: Replay, e: Instr, sizes: Sizes)
    requires Accounted(r, sizes) && r.pool.geo.Valid() && ReplayStep(r, e).Some?
    requires e.Alloc? ==> e.v in sizes && sizes[e.v] == e.bytes
    ensures Accounted(ReplayStep(r, e).value, sizes)
  {
    match e
    case Alloc(v, Lram, bytes) => AllocateKeepsExact(r.pool, v, bytes);
    case Dealloc(v, Lram) => FreeKeepsSound(r.pool, v);
    case _ =>
  }

  lemma {:induction false} ReplayAccounts(geo: Geometry, program: seq<Instr>, sizes: Sizes)
    requires geo.Valid() && WellTyped(program, sizes) && ReplayOf(geo, program).Some?
    ensures Accounted(ReplayOf(geo, program).value, sizes)
    decreases |program|
  {
    if program == [] {
      FreshIsExact(geo);
    } else {
      var p := program[..|program| - 1];
      ReplayAccounts(geo, p, sizes);
      AccountedStep(ReplayOf(geo, p).value, program[|program| - 1], sizes);
    }
  }

  /** Unrounded, the live buffers take no more than the words the pool counts. */
  lemma BytesFitWords(r: Replay, sizes: Sizes)
    requires Accounted(r, sizes)
    ensures Total(r.bytes) <= r.pool.UsedBytes()
  {
    forall v | v in r.bytes ensures r.bytes[v] <= r.pool.geo.wordBytes * PoolSizes(r)[v] {
      FewestWords(r.pool.geo, r.bytes[v]);
    }
    SoundUse(r.pool);
    hide Accounted;
    hide Exact;
    TotalScaled(r.bytes, PoolSizes(r), r.pool.geo.wordBytes);
  }

  lemma SoundUse(s: PoolState)
    requires Exact(s)
    ensures s.UsedBytes() == s.geo.wordBytes * Total(Pools.Sizes(s.live))
  {}

  ghost function PoolSizes(r: Replay): map<Value, nat> {
    Pools.Sizes(r.pool.live)
  }

  /** A replay never exceeds the usable bytes, at any prefix. */
  lemma {:induction false} ReplayFits(geo: Geometry, program: seq<Instr>, sizes: Sizes)
    requires geo.Valid() && WellTyped(program, sizes) && ReplayOf(geo, program).Some?
    ensures Usage(program, sizes) <= Total(ReplayOf(geo, program).value.bytes)
    ensures Usage(program, sizes) <= geo.UsableBytes()
    decreases |program|
  {
    if program == [] {
      UsableIsNatural(geo);
    } else {
      var p, e := program[..|program| - 1], program[|program| - 1];
      ReplayFits(geo, p, sizes);
      var r := ReplayOf(geo, p).value;
      ReplayAccounts(geo, p, sizes);
      BytesFitWords(r, sizes);
      FitsStep(r, e, sizes);
    }
  }

  lemma FitsStep(r: Replay, e: Instr, sizes: Sizes)
    requires Accounted(r, sizes) && r.pool.geo.Valid() && ReplayStep(r, e).Some?
    requires e.Alloc? ==> e.v in sizes && sizes[e.v] == e.bytes
    ensures match e
            case Alloc(v, Lram, bytes) => Total(ReplayStep(r, e).value.bytes) == Total(r.bytes) + SizeOf(sizes, v)
            case Dealloc(v, Lram) => Total(ReplayStep(r, e).value.bytes) >= Total(r.bytes) - SizeOf(sizes, v)
            case _ => ReplayStep(r, e).value.bytes == r.bytes
  {
    match e
    case Alloc(v, Lram, bytes) => TotalAdd(r.bytes, v, bytes);
    case Dealloc(v, Lram) =>
      if v in r.bytes {
        TotalRemove(r.bytes, v);
      } else {
        assert r.bytes - {v} == r.bytes;
      }
    case _ =>
  }

  lemma UsableIsNatural(geo: Geometry)
    requires geo.Valid()
    ensures geo.UsableBytes() >= 0
  {
    FewestWords(geo, geo.reservedBytes);
    Grows(geo.wordBytes, geo.ReservedWords(), geo.words);
  }

  lemma Grows(w: nat, a: nat, b: nat)
    requires a <= b
    ensures w * a <= w * b
  {}

  /** The walk does what the replay does. */
  lemma {:induction false} ReplayAssigns(geo: Geometry, program: seq<Instr>)
    requires geo.Valid() && ReplayOf(geo, program).Some?
    ensures AssignedBy(Fresh(geo), program) ==
            Some(Assigned(ReplayOf(geo, program).value.pool, ReplayOf(geo, program).value.address))
    decreases |program|
  {
    if program != [] {
      ReplayAssigns(geo, program[..|program| - 1]);
    }
  }

  /** If a program replays, its walk over a new pool passes the peak check, never fails to find an address, and finds
      the addresses of the replay. */
  lemma {:induction false} ReplayableIsAssignable(geo: Geometry, program: seq<Instr>, sizes: Sizes)
    requires geo.Valid() && WellTyped(program, sizes) && ReplayOf(geo, program).Some?
    ensures forall k :: 0 <= k <= |program| ==> Usage(program[..k], sizes) <= geo.UsableBytes()
    ensures AssignedBy(Fresh(geo), program) ==
            Some(Assigned(ReplayOf(geo, program).value.pool, ReplayOf(geo, program).value.address))
  {
    forall k | 0 <= k <= |program| ensures Usage(program[..k], sizes) <= geo.UsableBytes() {
      ReplayPrefix(geo, program, k);
      ReplayFits(geo, program[..k], sizes);
    }
    ReplayAssigns(geo, program);
  }

  lemma {:induction false} ReplayableFits(geo: Geometry, program: seq<Instr>, sizes: Sizes)
    requires geo.Valid() && WellTyped(program, sizes) && ReplayOf(geo, program).Some?
    ensures FitsPool(program, geo)
  {
    forall k | 0 <= k < |program| && program[k].Alloc? && program[k].space == Lram
      ensures geo.WordsFor(program[k].bytes) <= geo.words
    {
      FitsAt(geo, program, sizes, k);
    }
  }

  lemma {:induction false} FitsAt(geo: Geometry, program: seq<Instr>, sizes: Sizes, k: nat)
    requires geo.Valid() && WellTyped(program, sizes) && ReplayOf(geo, program).Some?
    requires k < |program| && program[k].Alloc? && program[k].space == Lram
    ensures geo.WordsFor(program[k].bytes) <= geo.words
  {
    ReplayPrefix(geo, program, k);
    ReplayPrefix(geo, program, k + 1);
    assert program[..k + 1][..k] == program[..k];
    ReplayAccounts(geo, program[..k], sizes);
    var r := ReplayOf(geo, program[..k]).value;
    assert ReplayStep(r, program[k]).Some?;
    hide ReplayOf;
    SoundUse(r.pool);
    UsedIsTotal(r.pool);
    FittingIsSmall(geo, program[k].bytes, r.pool.UsedBytes());
  }

  lemma UsedIsTotal(s: PoolState)
    requires Exact(s)
    ensures s.UsedBytes() >= 0
  {
    SoundUse(s);
    Grows(s.geo.wordBytes, 0, Total(Pools.Sizes(s.live)));
  }

  // -------------------------------------------------------------------------
  // The LRAM pass

  lemma {:induction false} TypesAreNames(program: seq<Instr>, k: nat)
    requires NamesAfter(program).Some? && k < |program| && program[k].Alloc?
    ensures program[k].v in NamesAfter(program).value.access
    ensures program[k].v in SizesAfter(program) && SizesAfter(program)[program[k].v] == program[k].bytes
    decreases |program|
  {
    var p := program[..|program| - 1];
    if k < |p| {
      TypesAreNames(p, k);
      assert p[k] == program[k];
    }
  }

  /** In a program whose values are defined once, the type of a value is that of its allocation. */
  lemma {:induction false} TypesFit(program: seq<Instr>)
    requires NamesAfter(program).Some?
    ensures WellTyped(program, SizesAfter(program))
  {
    forall k | 0 <= k < |program| && program[k].Alloc?
      ensures program[k].v in SizesAfter(program) && SizesAfter(program)[program[k].v] == program[k].bytes
    {
      TypesAreNames(program, k);
    }
  }

  const WORD_BYTES := 8
  const LARGE_ALLOC_BYTES := 1024

  function LramGeometry(lramSize: nat): Geometry {
    Geometry(lramSize / WORD_BYTES, WORD_BYTES, 2 * NSS_MAX_PROGRAM_SIZE, LARGE_ALLOC_BYTES)
  }

  predicate ValidLram(lramSize: nat) {
    LramGeometry(lramSize).Valid()
  }

  lemma {:induction false} ConvertedIsAssignable(
        program: seq<Instr>, code: seq<Instr>, s: PoolState, trace: seq<Snapshot>, found: map<Value, nat>)
    requires Converted(program, code, s, trace, found)
    ensures WellTyped(code, SizesAfter(code)) && FitsPool(code, s.geo)
    ensures forall k :: 0 <= k <= |code| ==> Usage(code[..k], SizesAfter(code)) <= s.geo.UsableBytes()
    ensures AssignedBy(Fresh(s.geo), code) == Some(Assigned(s, found))
  {
    CertifiedNames(program, code, trace, |code|);
    assert code[..|code|] == code;
    TypesFit(code);
    ReplayableIsAssignable(s.geo, code, SizesAfter(code));
    ReplayableFits(s.geo, code, SizesAfter(code));
  }

  /** The walk over converted code, on the pool that the conversion leaves once it is cleared. */
  ghost function SecondWalk(lramSize: nat, code: seq<Instr>): Option<Assigned>
    requires ValidLram(lramSize) && ReplayOf(LramGeometry(lramSize), code).Some?
  {
    AssignedBy(Cleared(ReplayOf(LramGeometry(lramSize), code).value.pool), code)
  }

  /** A buffer that is never freed can make the second walk fail: here it leaves only the last word free, which the scan
      for small requests does not try. */
  lemma LeftOverCanFail()
    ensures var program := [Alloc(0, Lram, 8)];
            && ValidLram(1296) && IsProgram(program, 1) && ReplayOf(LramGeometry(1296), program).Some?
            && SecondWalk(1296, program).None?
  {
    var program := [Alloc(0, Lram, 8)];
    var geo := LramGeometry(1296);
    assert geo == Geometry(162, 8, 1280, 1024) && geo.ReservedWords() == 160 && geo.WordsFor(8) == 1;
    assert program[..0] == [];
    var start := Fresh(geo);
    LowestFit(start, 160);
    assert ReplayOf(geo, program) == ReplayStep(Replay(start, map[], map[]), program[0]);
    var left := Cleared(ReplayOf(geo, program).value.pool);
    assert left.used[160];
    forall k ensures !Fit(false, left.used, 1, k) {}
    assert Placement(left, 8) == None;
    assert AssignedBy(left, program[..0]) == Some(Assigned(left, map[]));
  }

  lemma LowestFit(s: PoolState, k: nat)
    requires s.geo == Geometry(162, 8, 1280, 1024) && |s.used| == 162 && k < 161
    requires !s.used[k] && forall j :: 0 <= j < k ==> s.used[j]
    ensures Placement(s, 8) == Some(k)
  {
    assert s.geo.WordsFor(8) == 1;
    assert Chosen(false, s.used, 1, k);
  }

  /** Converts the program for a new pool above the two NSS program areas, clears the pool and assigns the addresses.
      A program that the pool can hold as it is, and no other, is converted to itself.
      If the converted program deallocates all it allocates, the second walk cannot fail and gives every value the
      address it had during the conversion. With buffers left over it runs on a pool that keeps their marks, and succeeds
      exactly if every allocation still finds a place there, not necessarily the one it had. */
  method AllocateLramAddresses(program: seq<Instr>, limit: Value, lramSize: nat)
    returns (converted: bool, leftOver: bool, ok: bool, code: seq<Instr>, address: map<Value, nat>,
             ghost trace: seq<Snapshot>)
    requires ValidLram(lramSize) && IsProgram(program, limit)
    ensures converted ==> Certified(program, code, trace) && trace[|code|].pos == |program|
    ensures converted ==> ReplayOf(LramGeometry(lramSize), code).Some?
    ensures converted ==> (leftOver <==> ReplayOf(LramGeometry(lramSize), code).value.pool.live != map[])
    ensures converted && !leftOver ==> ok && address == ReplayOf(LramGeometry(lramSize), code).value.address
    ensures converted ==> (ok <==> SecondWalk(lramSize, code).Some?)
    ensures converted && ok ==> address == SecondWalk(lramSize, code).value.address
    ensures converted && code == program <==> ReplayOf(LramGeometry(lramSize), program).Some?
  {
    ghost var found;
    var pool := new Pool(lramSize, 2 * NSS_MAX_PROGRAM_SIZE, WORD_BYTES, LARGE_ALLOC_BYTES);
    converted, code, trace, found := ConvertVirtualToPhysical(pool, program, limit);
    ok, leftOver, address := false, true, map[];
    if converted {
      leftOver := pool.allocations != map[];
      ConvertedIsAssignable(program, code, pool.State(), trace, found);
      ConvertedReplays(program, code, pool.State(), trace, found);
      ghost var s := pool.State();
      pool.Clear();
      ClearKeepsSound(s);
      ok, address := AllocateAddresses(code, SizesAfter(code), pool);
    }
  }
}
