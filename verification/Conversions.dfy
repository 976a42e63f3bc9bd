/** The conversion of a program over unlimited LRAM buffers into one that runs in the pool. */
module Conversions {
  import opened Basics
  import opened Ir
  import opened Pools
  import opened Replays
  import opened Refinement
  import opened MemoryStates
  import opened ValueSizes
  import opened StepStates
  import opened VirtualMemories
  import opened Progresses
  import opened Evictions
  import opened Fittings

  /** A program the conversion is handed: no instruction is wrong, and its values are below `limit`. */
  ghost predicate IsProgram(program: seq<Instr>, limit: Value) {
    && NamesAfter(program).Some?
    && forall k :: 0 <= k < |program| ==>
         IsSource(program[k]) && (program[k].Alloc? || program[k].Alias? ==> program[k].v < limit)
  }

  /** The conversion has done the first `k` instructions. */
  ghost predicate Done(m: Memory, program: seq<Instr>, limit: Value, geo: Geometry, k: nat) {
    true == (
      && m.original == program && m.firstFresh == limit && m.pool.geo == geo
      && m.now.pos == k <= |program|
      && NamesAfter(program[..k]) == Some(m.now.source))
  }

  lemma DoneIsAtStep(m: Memory, program: seq<Instr>, limit: Value, geo: Geometry, k: nat)
    requires IsProgram(program, limit) && Done(m, program, limit, geo, k) && k < |program|
    ensures AtStep(m, program[k])
    ensures forall n :: StepDone(m, program[k], n) ==> Done(n, program, limit, geo, k + 1)
  {
    NextNames(program, k);
    hide NamesAfter;
  }

  lemma NothingDone(program: seq<Instr>, limit: Value, geo: Geometry)
    requires geo.Valid()
    ensures Done(Empty(program, limit, geo), program, limit, geo, 0) && Settled(Empty(program, limit, geo))
    ensures Untouched(Empty(program, limit, geo))
  {
    assert program[..0] == [];
  }

  /** What a finished conversion guarantees: a certificate that `code` is a rewriting of the whole program, and a
      replay of `code` that ends in the state of the pool and gives every value the address found for it. */
  ghost predicate Converted(
        program: seq<Instr>, code: seq<Instr>, pool: PoolState, trace: seq<Snapshot>, found: map<Value, nat>) {
    && Certified(program, code, trace) && trace[|code|].pos == |program|
    && pool.geo.Valid()
    && ReplayOf(pool.geo, code).Some?
    && ReplayOf(pool.geo, code).value.pool == pool
    && ReplayOf(pool.geo, code).value.address == found
  }

  lemma DoneIsConverted(m: Memory, program: seq<Instr>, limit: Value, geo: Geometry)
    requires Inv(m) && Done(m, program, limit, geo, |program|)
    ensures Converted(program, m.out, m.pool, m.trace, m.found)
  {
    hide InvHome;
    hide InvAlias;
    hide InvNames;
    hide InvPins;
    hide InvFlights;
    hide InvPhysical;
  }

  /** What the inserted code does besides keeping the behaviour: buffers are copied to buffers of the same size, operations
      and starts get operands of the sizes they had, and nothing is allocated at the end but a home for every buffer that
      the program has left allocated. */
  ghost predicate Tidy(program: seq<Instr>, code: seq<Instr>) {
    && NamesAfter(program).Some? && NamesAfter(code).Some?
    && CopiesFit(code) && OperandSizes(code) == OperandSizes(program)
    && |NamesAfter(code).value.live| == |NamesAfter(program).value.live|
  }

  lemma DoneIsTidy(m: Memory, program: seq<Instr>, limit: Value, geo: Geometry)
    requires Inv(m) && Done(m, program, limit, geo, |program|)
    ensures Tidy(program, m.out)
  {
    assert InvTrace(m) && InvStock(m);
    hide Inv;
    assert program[..|program|] == program;
    CodeIsNamed(m);
    hide InvOrder;
    hide SizesAfter;
    hide CopiesFit;
    hide OperandSizes;
    hide Certified;
    hide NamesAfter;
    HomesAreLive(m);
    SameCount(m.now.home, m.now.target.live);
  }

  lemma HomesAreLive(m: Memory)
    requires InvTrace(m) && InvClean(m)
    ensures m.now.home.Keys == m.now.source.live.Keys && Injective(m.now.home)
    ensures forall x :: x in m.now.target.live <==> exists b :: b in m.now.home && m.now.home[b] == x
  {
    hide Certified;
    forall x | x in m.now.target.live ensures exists b :: b in m.now.home && m.now.home[b] == x { assert IsHome(m.now, x); }
  }

  /** As many keys as values, when every value is that of one key. */
  lemma {:induction false} SameCount<T>(home: map<Value, Value>, live: map<Value, T>)
    requires Injective(home) && forall x :: x in live <==> exists b :: b in home && home[b] == x
    ensures |live| == |home|
    decreases |home|
  {
    if home == map[] {
      assert forall x :: x !in live;
      assert live == map[];
    } else {
      var b :| b in home;
      var h, l := home - {b}, live - {home[b]};
      assert h.Keys == home.Keys - {b} && l.Keys == live.Keys - {home[b]};
      forall x ensures x in l <==> exists c :: c in h && h[c] == x {
        if x in l {
          var c :| c in home && home[c] == x;
          assert c in h && h[c] == x;
        }
        if c :| c in h && h[c] == x { assert c in home && home[c] == x; }
      }
      SameCount(h, l);
    }
  }

  /** When the program fits as it is, so does its next instruction. */
  lemma {:induction false} StepFits(m: Memory, program: seq<Instr>, limit: Value, geo: Geometry, k: nat)
    requires Inv(m) && Done(m, program, limit, geo, k) && k < |program| && AtStep(m, program[k]) && geo.Valid()
    ensures ReplayOf(geo, program).Some? && Untouched(m) ==> FitsAsIs(m, program[k])
  {
    hide Inv;
    hide Untouched;
    hide AtStep;
    if ReplayOf(geo, program).Some? && Untouched(m) { NextFits(m, program[k]); }
  }

  lemma NothingMoved(m: Memory, program: seq<Instr>, limit: Value, geo: Geometry)
    requires Done(m, program, limit, geo, |program|) && Untouched(m)
    ensures m.out == program
  {
    assert program[..|program|] == program;
  }

  /** Rewrites `program` for the memory behind `pool`; `limit` bounds its values.  Whatever order the operands to
      bring in and the buffers to defragment are taken in, a run that does not fail yields a faithful rewriting. */
  method ConvertVirtualToPhysical(pool: Pool, program: seq<Instr>, limit: Value)
    returns (ok: bool, code: seq<Instr>, ghost trace: seq<Snapshot>, ghost found: map<Value, nat>)
    requires pool.Valid() && pool.State() == Fresh(pool.geo) && IsProgram(program, limit)
    modifies pool
    ensures ok ==> pool.Valid() && Exact(pool.State()) && Converted(program, code, pool.State(), trace, found)
    ensures ok ==> Tidy(program, code)
    ensures ok && code == program <==> ReplayOf(pool.geo, program).Some?
  {
    hide Inv;
    hide Settled;
    hide Done;
    hide StepDone;
    hide Untouched;
    hide FitsAsIs;
    hide Converted;
    hide Tidy;
    hide IsProgram;
    hide AtStep;
    var vm := new VirtualMemory(pool, program, limit, limit);
    NothingDone(program, limit, pool.geo);
    code, trace, found := [], [], map[];
    for k := 0 to |program|
      invariant fresh(vm) && vm.pool == pool
      invariant ReplayOf(pool.geo, program).Some? ==> Untouched(vm.State())
      invariant vm.Valid() && Settled(vm.State()) && Done(vm.State(), program, limit, pool.geo, k)
    {
      DoneIsAtStep(vm.State(), program, limit, pool.geo, k);
      StepFits(vm.State(), program, limit, pool.geo, k);
      ok := vm.Process(program[k]);
      if !ok {
        return;
      }
    }
    DoneIsConverted(vm.State(), program, limit, pool.geo);
    DoneIsTidy(vm.State(), program, limit, pool.geo);
    PoolIsExact(vm.State());
    if Untouched(vm.State()) { NothingMoved(vm.State(), program, limit, pool.geo); }
    ConvertedReplays(program, vm.code.out, vm.pool.State(), vm.book.trace, vm.book.found);
    ok, code := true, vm.code.out;
    trace, found := vm.book.trace, vm.book.found;
  }

  lemma {:induction false} ConvertedReplays(
        program: seq<Instr>, code: seq<Instr>, s: PoolState, trace: seq<Snapshot>, found: map<Value, nat>)
    requires Converted(program, code, s, trace, found)
    ensures s.geo.Valid() && ReplayOf(s.geo, code).Some?
    ensures ReplayOf(s.geo, code).value.pool == s && ReplayOf(s.geo, code).value.address == found
  {}

  lemma PoolIsExact(m: Memory)
    requires Inv(m)
    ensures Exact(m.pool)
  {
    hide InvHome;
    hide InvAlias;
    hide InvNames;
    hide InvPins;
    hide InvFlights;
  }
}
