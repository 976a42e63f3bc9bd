/** What the assigned addresses mean for the buffers: where they lie, and that they do not overlap while they are live. */
module AddressLayouts {
  import opened Basics
  import opened Totals
  import opened Ir
  import opened Pools
  import opened Replays
  import opened ValueSizes
  import opened AddressAssignments

  ghost predicate InLram(n: Names, b: Value) {
    b in n.live && n.live[b] == Lram
  }

  /** A live buffer has a block of the pool of as many words as it needs, and the address of this block. */
  ghost predicate BlockOf(a: Assigned, sizes: map<Value, nat>, b: Value) {
    && a.pool.geo.wordBytes > 0
    && b in a.pool.live && b in a.address && b in sizes
    && a.pool.live[b].size == a.pool.geo.WordsFor(sizes[b])
    && a.address[b] == a.pool.live[b].base * a.pool.geo.wordBytes
  }

  /** A value has the address of its buffer. */
  ghost predicate AtRoot(a: Assigned, n: Names, v: Value) {
    v in n.access && v in a.address && n.access[v].root in a.address && a.address[v] == a.address[n.access[v].root]
  }

  ghost predicate Rooted(n: Names) {
    && (forall v :: v in n.access ==> n.access[v].root in n.access)
    && (forall b :: b in n.live ==> b in n.access && n.access[b].root == b)
  }

  ghost predicate Located(a: Assigned, n: Names, sizes: map<Value, nat>) {
    && Sound(a.pool) && Rooted(n)
    && AllBlocks(a, n, sizes) && AllLive(a, n) && AllAtRoots(a, n)
  }

  lemma RootedNext(n: Names, e: Instr)
    requires Rooted(n) && StepNames(n, e).Some?
    ensures Rooted(StepNames(n, e).value)
  {}

  lemma AddressIsNamed(a: Assigned, n: Names, v: Value)
    requires AllAtRoots(a, n) && v !in n.access
    ensures v !in a.address
  {
    assert v in a.address ==> AtRoot(a, n, v);
  }

  ghost predicate AllBlocks(a: Assigned, n: Names, sizes: map<Value, nat>) {
    forall b {:trigger BlockOf(a, sizes, b)} :: InLram(n, b) ==> BlockOf(a, sizes, b)
  }

  ghost predicate AllLive(a: Assigned, n: Names) {
    forall v :: v in a.pool.live ==> InLram(n, v)
  }

  ghost predicate AllAtRoots(a: Assigned, n: Names) {
    forall v {:trigger AtRoot(a, n, v)} :: v in a.address ==> AtRoot(a, n, v)
  }

  lemma LiveNow(a: Assigned, n: Names, e: Instr)
    requires a.pool.geo.Valid() && AllLive(a, n) && StepNames(n, e).Some? && AssignStep(a, e).Some?
    ensures AllLive(AssignStep(a, e).value, StepNames(n, e).value)
  {}

  lemma BlocksNow(a: Assigned, n: Names, sizes: map<Value, nat>, e: Instr, b: Value)
    requires a.pool.geo.Valid() && StepNames(n, e).Some? && AssignStep(a, e).Some? && Rooted(n)
    requires InLram(n, b) ==> BlockOf(a, sizes, b)
    ensures InLram(StepNames(n, e).value, b) ==>
              BlockOf(AssignStep(a, e).value, if e.Alloc? || e.Alias? then sizes[e.v := e.bytes] else sizes, b)
  {
    hide Placement;
    match e
    case Alloc(v, Lram, bytes) =>
    case Alloc(v, Xram, bytes) =>
    case Dealloc(v, Lram) =>
    case Alias(v, base, _, _) => assert b == v ==> !InLram(n, b);
    case _ =>
  }

  lemma RootsNow(a: Assigned, n: Names, e: Instr, w: Value)
    requires a.pool.geo.Valid() && StepNames(n, e).Some? && AssignStep(a, e).Some?
    requires (e.Alloc? || e.Alias? ==> e.v !in a.address) && (w in a.address ==> AtRoot(a, n, w))
    requires e.Alias? && e.base in a.address ==> AtRoot(a, n, e.base)
    ensures w in AssignStep(a, e).value.address ==> AtRoot(AssignStep(a, e).value, StepNames(n, e).value, w)
  {
    match e
    case Alloc(v, Lram, bytes) =>
    case Alloc(v, Xram, bytes) =>
    case Dealloc(v, Lram) =>
    case Alias(v, base, _, _) =>
    case _ =>
  }

  lemma SoundNow(a: Assigned, n: Names, e: Instr)
    requires Sound(a.pool) && a.pool.geo.Valid() && AllLive(a, n) && StepNames(n, e).Some? && AssignStep(a, e).Some?
    ensures Sound(AssignStep(a, e).value.pool)
  {
    hide Sound;
    match e
    case Alloc(v, Lram, bytes) => AllocateKeepsSound(a.pool, v, bytes);
    case Dealloc(v, Lram) => FreeKeepsSound(a.pool, v);
    case _ =>
  }

  lemma StepLocates(a: Assigned, n: Names, sizes: map<Value, nat>, e: Instr)
    requires Located(a, n, sizes) && a.pool.geo.Valid() && StepNames(n, e).Some? && AssignStep(a, e).Some?
    ensures Located(AssignStep(a, e).value, StepNames(n, e).value, if e.Alloc? || e.Alias?
              then sizes[e.v := e.bytes] else sizes)
  {
    SoundNow(a, n, e);
    RootedNext(n, e);
    LiveNow(a, n, e);
    if e.Alloc? || e.Alias? { NewIsUnnamed(n, e); AddressIsNamed(a, n, e.v); }
    hide Sound;
    hide Rooted;
    hide AllLive;
    hide BlockOf;
    hide AtRoot;
    hide AssignStep;
    hide StepNames;
    hide InLram;
    var a', n' := AssignStep(a, e).value, StepNames(n, e).value;
    var sizes' := if e.Alloc? || e.Alias? then sizes[e.v := e.bytes] else sizes;
    forall b | InLram(n', b) ensures BlockOf(a', sizes', b) { BlocksNow(a, n, sizes, e, b); }
    forall w | w in a'.address ensures AtRoot(a', n', w) { RootsNow(a, n, e, w); }
  }

  lemma NewIsUnnamed(n: Names, e: Instr)
    requires (e.Alloc? || e.Alias?) && StepNames(n, e).Some?
    ensures e.v !in n.access
  {}

  /** The walk keeps every live buffer in a block of its own. */
  lemma {:induction false} WalkLocates(start: PoolState, program: seq<Instr>)
    requires Sound(start) && start.live == map[] && NamesAfter(program).Some? && AssignedBy(start, program).Some?
    ensures Located(AssignedBy(start, program).value, NamesAfter(program).value, SizesAfter(program))
    decreases |program|
  {
    if program != [] {
      var before, e := program[..|program| - 1], program[|program| - 1];
      WalkLocates(start, before);
      assert program == before + [e];
      SizesNext(before, e);
      var a, n, sizes := AssignedBy(start, before).value, NamesAfter(before).value, SizesAfter(before);
      hide Located;
      hide StepNames;
      StepLocates(a, n, sizes, e);
    } else {
      assert AssignedBy(start, program) == Some(Assigned(start, map[]));
    }
  }

  // -------------------------------------------------------------------------
  // No overlap

  /** Byte `x` belongs to a buffer of `size` bytes at `address`. */
  predicate Inside(address: nat, size: nat, x: int) {
    address <= x < address + size
  }

  lemma InsideIsInBlock(geo: Geometry, block: Allocation, size: nat, x: int)
    requires geo.Valid() && block.size == geo.WordsFor(size) && Inside(block.base * geo.wordBytes, size, x)
    ensures InBlock(block, x / geo.wordBytes)
  {
    var w := geo.wordBytes;
    FewestWords(geo, size);
    assert (block.base + block.size) * w == block.base * w + block.size * w;
    assert block.size * w == w * block.size;
    Between(block.base, x, block.base + block.size, w);
  }

  lemma Between(a: nat, x: int, b: nat, w: nat)
    requires w > 0 && a * w <= x < b * w
    ensures a <= x / w < b
  {
    var q := x / w;
    assert q * w <= x < q * w + w;
    if q < a { Grows(w, q + 1, a); }
    if b <= q { Grows(w, b, q); }
  }

  lemma Fits(geo: Geometry, block: Allocation, size: nat)
    requires geo.Valid() && block.size == geo.WordsFor(size)
    requires geo.ReservedWords() <= block.base && block.base + block.size <= geo.words
    ensures geo.reservedBytes <= block.base * geo.wordBytes && block.base * geo.wordBytes + size <= geo.words * geo.wordBytes
  {
    FewestWords(geo, size);
    FewestWords(geo, geo.reservedBytes);
    var w := geo.wordBytes;
    Grows(w, geo.ReservedWords(), block.base);
    Grows(w, block.base + block.size, geo.words);
    assert w * (block.base + block.size) == w * block.base + w * block.size;
  }

  lemma {:induction false} AddressesStay(start: PoolState, program: seq<Instr>, k: nat, v: Value)
    requires start.geo.Valid() && k <= |program| && NamesAfter(program).Some? && AssignedBy(start, program).Some?
    requires Sound(start) && start.live == map[]
    ensures AssignedBy(start, program[..k]).Some? && NamesAfter(program[..k]).Some?
    ensures v in AssignedBy(start, program[..k]).value.address ==>
              v in AssignedBy(start, program).value.address
              && AssignedBy(start, program).value.address[v] == AssignedBy(start, program[..k]).value.address[v]
    decreases |program|
  {
    if k == |program| {
      assert program[..k] == program;
    } else {
      var before := program[..|program| - 1];
      assert before[..k] == program[..k];
      AddressesStay(start, before, k, v);
      WalkLocates(start, before);
      var a, n, e := AssignedBy(start, before).value, NamesAfter(before).value, program[|program| - 1];
      if e.Alloc? || e.Alias? { AddressIsNamed(a, n, e.v); }
    }
  }

  /** At every point of the program, a live buffer of the small memory lies above the reserved bytes and below the end of
      the memory, and shares no byte with another one. */
  lemma {:induction false} LiveBuffersApart(start: PoolState, program: seq<Instr>, k: nat, b: Value, c: Value, x: int)
    requires Sound(start) && start.live == map[] && NamesAfter(program).Some? && AssignedBy(start, program).Some?
    requires k <= |program| && NamesAfter(program[..k]).Some?
    requires InLram(NamesAfter(program[..k]).value, b) && InLram(NamesAfter(program[..k]).value, c)
    ensures var address, sizes := AssignedBy(start, program).value.address, SizesAfter(program[..k]);
            && b in address && c in address && b in sizes && c in sizes
            && start.geo.reservedBytes <= address[b] && address[b] + sizes[b] <= start.geo.words * start.geo.wordBytes
            && (Inside(address[b], sizes[b], x) && Inside(address[c], sizes[c], x) ==> b == c)
  {
    AddressesStay(start, program, k, b);
    AddressesStay(start, program, k, c);
    WalkLocates(start, program[..k]);
    var a, sizes := AssignedBy(start, program[..k]).value, SizesAfter(program[..k]);
    hide AssignedBy;
    hide NamesAfter;
    hide SizesAfter;
    assert BlockOf(a, sizes, b) && BlockOf(a, sizes, c);
    Fits(a.pool.geo, a.pool.live[b], sizes[b]);
    if Inside(a.address[b], sizes[b], x) && Inside(a.address[c], sizes[c], x) {
      InsideIsInBlock(a.pool.geo, a.pool.live[b], sizes[b], x);
      InsideIsInBlock(a.pool.geo, a.pool.live[c], sizes[c], x);
    }
  }

  /** Every value with an address has that of its buffer. */
  lemma {:induction false} AliasesAtRoots(start: PoolState, program: seq<Instr>, v: Value)
    requires Sound(start) && start.live == map[] && NamesAfter(program).Some? && AssignedBy(start, program).Some?
    ensures v in AssignedBy(start, program).value.address ==>
              AtRoot(AssignedBy(start, program).value, NamesAfter(program).value, v)
  {
    WalkLocates(start, program);
  }
}
