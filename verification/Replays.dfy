/** The LRAM allocations, aliases and deallocations of a program, run through the pool from a fresh start. */
module Replays {
  import opened Basics
  import opened Ir
  import opened Pools
  import opened Totals

  /** The pool, every address given to a value so far, and the byte size of every live buffer. */
  datatype Replay = Replay(pool: PoolState, address: map<Value, nat>, bytes: map<Value, nat>)

  /** None if a buffer does not fit in the usable bytes, the pool finds no place for it, or an alias is taken
      of a value without an address; an alias has the address of its base. */
  ghost function ReplayStep(r: Replay, e: Instr): Option<Replay>
    requires r.pool.geo.Valid()
  {
    match e
    case Alloc(v, Lram, bytes) =>
      if v in r.pool.live || bytes + r.pool.UsedBytes() > r.pool.geo.UsableBytes() then None else
      (match Placement(r.pool, bytes)
       case None => None
       case Some(base) =>
         Some(Replay(Allocated(r.pool, v, base, r.pool.geo.WordsFor(bytes)),
                     r.address[v := base * r.pool.geo.wordBytes], r.bytes[v := bytes])))
    case Alias(v, base, _, _) =>
      if base in r.address then Some(r.(address := r.address[v := r.address[base]])) else None
    case Dealloc(v, Lram) => Some(r.(pool := Freed(r.pool, v), bytes := r.bytes - {v}))
    case _ => Some(r)
  }

  ghost function ReplayOf(geo: Geometry, program: seq<Instr>): (r: Option<Replay>)
    requires geo.Valid()
    ensures r.Some? ==> r.value.pool.geo == geo
  {
    if program == [] then Some(Replay(Fresh(geo), map[], map[])) else
    match ReplayOf(geo, program[..|program| - 1])
    case None => None
    case Some(r) => ReplayStep(r, program[|program| - 1])
  }

  lemma {:induction false} ReplayOneMore(geo: Geometry, program: seq<Instr>, e: Instr)
    requires geo.Valid() && ReplayOf(geo, program).Some?
    ensures ReplayOf(geo, program + [e]) == ReplayStep(ReplayOf(geo, program).value, e)
  {
    assert (program + [e])[..|program|] == program;
  }

  lemma {:induction false} ReplayPrefix(geo: Geometry, program: seq<Instr>, k: nat)
    requires geo.Valid() && k <= |program| && ReplayOf(geo, program).Some?
    ensures ReplayOf(geo, program[..k]).Some?
    decreases |program|
  {
    if k == |program| {
      assert program[..k] == program;
    } else {
      ReplayPrefix(geo, program[..|program| - 1], k);
      assert program[..|program| - 1][..k] == program[..k];
    }
  }

  /** A buffer that fits in the usable bytes is no larger than the pool. */
  lemma FittingIsSmall(geo: Geometry, bytes: nat, used: nat)
    requires geo.Valid() && bytes + used <= geo.UsableBytes()
    ensures geo.WordsFor(bytes) <= geo.words
  {
    var w, q := geo.wordBytes, geo.WordsFor(bytes);
    assert bytes + w - 1 == w * q + (bytes + w - 1) % w;
    assert w * q < w * (geo.words + 1);
    Cancel(w, q, geo.words + 1);
  }

  lemma Cancel(w: nat, a: nat, b: nat)
    requires w * a < w * b
    ensures a < b
  {}
}
