/** When one program is a faithful rewriting of another.

    A rewriting is certified by one snapshot between any two instructions of the new program:
    how much of the original program has been done, the names of both programs, and the buffer of the
    new program that now holds each live buffer of the original one (its home).  The certificate is
    static; the lemmas below turn it into equality of behaviour for every kernel and every interleaving. */
module Refinement {
  import opened Basics
  import opened Ir

  datatype Snapshot = Snapshot(pos: nat, source: Names, target: Names, home: map<Value, Value>)

  const START := Snapshot(0, NO_NAMES, NO_NAMES, map[])

  ghost predicate Injective(home: map<Value, Value>) {
    forall a, b :: a in home && b in home && home[a] == home[b] ==> a == b
  }

  /** The same part of the same buffer, at its current home in LRAM. */
  predicate SamePart(s: Snapshot, a: Access, p: Access) {
    && a.root in s.home
    && p == Access(s.home[a.root], a.path)
    && s.home[a.root] in s.target.live
    && s.target.live[s.home[a.root]] == Lram
  }

  ghost predicate SameParts(s: Snapshot, accesses: seq<Access>, physical: seq<Access>) {
    && |accesses| == |physical|
    && forall i :: 0 <= i < |accesses| ==> SamePart(s, accesses[i], physical[i])
  }

  ghost predicate SameOperands(s: Snapshot, operands: seq<Value>, physical: seq<Value>) {
    && Reachable(s.source, operands)
    && Reachable(s.target, physical)
    && SameParts(s, AccessesOf(s.source, operands), AccessesOf(s.target, physical))
  }

  /** `e` is housekeeping: it may allocate and name, free a buffer that is nobody's home, and move an idle
      buffer by copying its home to a buffer that is nobody's home. */
  ghost predicate Inserted(s: Snapshot, e: Instr, t: Snapshot) {
    && t.pos == s.pos
    && t.source == s.source
    && match e
       case Alloc(_, _, _) => t.home == s.home
       case Dealloc(v, _) => v !in s.home.Values && t.home == s.home
       case Alias(_, _, _, _) => t.home == s.home
       case Copy(dst, src) =>
         exists b :: b in s.home && s.home[b] == src && dst !in s.home.Values && !Busy(s.source, b)
             && t.home == s.home[b := dst]
       case _ => false
  }

  /** `e` stands for the next original instruction `o`. */
  ghost predicate Translated(s: Snapshot, o: Instr, e: Instr, t: Snapshot) {
    && t.pos == s.pos + 1
    && StepNames(s.source, o) == Some(t.source)
    && match o
       case Alloc(v, _, _) => e == o && t.home == s.home[v := v]
       case Dealloc(v, _) => e.Dealloc? && v in s.home && e.v == s.home[v] && t.home == s.home - {v}
       case Alias(_, _, _, _) => e == o && t.home == s.home
       case Op(tag, operands) => e.Op? && e.tag == tag && SameOperands(s, operands, e.operands) && t.home == s.home
       case Start(inv, operands) => e.Start? && e.inv == inv && SameOperands(s, operands, e.operands) && t.home == s.home
       case Wait(_) => e == o && t.home == s.home
       case Copy(_, _) => false
  }

  ghost predicate Linked(original: seq<Instr>, s: Snapshot, e: Instr, t: Snapshot) {
    && StepNames(s.target, e) == Some(t.target)
    && (Inserted(s, e, t) || (s.pos < |original| && Translated(s, original[s.pos], e, t)))
  }

  ghost predicate Certified(original: seq<Instr>, program: seq<Instr>, trace: seq<Snapshot>) {
    && |trace| == |program| + 1
    && trace[0] == START
    && forall i :: 0 <= i < |program| ==> Linked(original, trace[i], program[i], trace[i + 1])
  }

  lemma CertifyNext(original: seq<Instr>, program: seq<Instr>, trace: seq<Snapshot>, e: Instr, t: Snapshot)
    requires Certified(original, program, trace) && Linked(original, trace[|program|], e, t)
    ensures Certified(original, program + [e], trace + [t])
  {
    var p, q := program + [e], trace + [t];
    forall i | 0 <= i < |p| ensures Linked(original, q[i], p[i], q[i + 1]) {
      if i < |program| {
        assert Linked(original, trace[i], program[i], trace[i + 1]);
      }
    }
  }

  /** A certified program defines the names its certificate says it does. */
  lemma {:induction false} CertifiedNames(original: seq<Instr>, program: seq<Instr>, trace: seq<Snapshot>, k: nat)
    requires Certified(original, program, trace) && k <= |program|
    ensures NamesAfter(program[..k]) == Some(trace[k].target)
  {
    if k > 0 {
      CertifiedNames(original, program, trace, k - 1);
      assert program[..k][..k - 1] == program[..k - 1];
      assert Linked(original, trace[k - 1], program[k - 1], trace[k]);
    }
  }

  // -------------------------------------------------------------------------
  // What every snapshot of a certificate satisfies

  ghost predicate Matched(s: Snapshot) {
    && Coherent(s.source) && Coherent(s.target)
    && s.home.Keys == s.source.live.Keys
    && Injective(s.home)
    && (forall b :: b in s.home ==> s.home[b] in s.target.live)
    && s.source.inflight.Keys == s.target.inflight.Keys
    && (forall inv :: inv in s.source.inflight ==> SameParts(s, s.source.inflight[inv], s.target.inflight[inv]))
  }

  lemma HomesStay(original: seq<Instr>, s: Snapshot, e: Instr, t: Snapshot)
    requires Matched(s) && Linked(original, s, e, t)
    ensures t.home.Keys == t.source.live.Keys
    ensures Injective(t.home)
    ensures forall b :: b in t.home ==> t.home[b] in t.target.live
  {
    HomesAreNamed(s);
    hide SameParts;
    hide Coherent;
    hide StepNames;
    if Inserted(s, e, t) {
      HomesInserted(s, e, t);
    } else {
      HomesTranslated(s, original[s.pos], e, t);
    }
  }

  lemma HomesAreNamed(s: Snapshot)
    requires Matched(s)
    ensures forall b :: b in s.home ==> s.home[b] in s.target.access
  {
    hide SameParts;
  }

  lemma HomesInserted(s: Snapshot, e: Instr, t: Snapshot)
    requires Inserted(s, e, t) && StepNames(s.target, e) == Some(t.target)
    requires s.home.Keys == s.source.live.Keys && Injective(s.home)
    requires forall b :: b in s.home ==> s.home[b] in s.target.live
    ensures t.home.Keys == t.source.live.Keys && Injective(t.home)
    ensures forall b :: b in t.home ==> t.home[b] in t.target.live
  {}

  lemma HomesTranslated(s: Snapshot, o: Instr, e: Instr, t: Snapshot)
    requires Translated(s, o, e, t) && StepNames(s.target, e) == Some(t.target)
    requires s.home.Keys == s.source.live.Keys && Injective(s.home)
    requires forall b :: b in s.home ==> s.home[b] in s.target.live && s.home[b] in s.target.access
    ensures t.home.Keys == t.source.live.Keys && Injective(t.home)
    ensures forall b :: b in t.home ==> t.home[b] in t.target.live
  {
    hide SameOperands;
    hide Busy;
    hide Reachable;
    match o
    case Alloc(v, _, _) => assert forall b :: b in s.home ==> s.home[b] != v;
    case Dealloc(v, _) => assert forall b :: b in t.home ==> s.home[b] != e.v;
    case _ =>
  }

  lemma InFlightAgrees(original: seq<Instr>, s: Snapshot, e: Instr, t: Snapshot)
    requires Matched(s) && Linked(original, s, e, t)
    ensures t.source.inflight.Keys == t.target.inflight.Keys
    ensures forall inv :: inv in t.source.inflight && inv !in s.source.inflight ==>
              SameParts(t, t.source.inflight[inv], t.target.inflight[inv])
  {
    if Inserted(s, e, t) {
      assert t.target.inflight == s.target.inflight;
    } else if original[s.pos].Start? {
      assert SameParts(s, t.source.inflight[e.inv], t.target.inflight[e.inv]);
    }
  }

  lemma LinkKeepsMatched(original: seq<Instr>, s: Snapshot, e: Instr, t: Snapshot)
    requires Matched(s) && Linked(original, s, e, t)
    ensures Matched(t)
  {
    StepKeepsCoherent(s.target, e);
    if !Inserted(s, e, t) {
      StepKeepsCoherent(s.source, original[s.pos]);
    }
    HomesStay(original, s, e, t);
    InFlightAgrees(original, s, e, t);
    forall inv | inv in t.source.inflight
      ensures SameParts(t, t.source.inflight[inv], t.target.inflight[inv])
    {
      if inv in s.source.inflight {
        PartsStay(original, s, e, t, inv);
      }
    }
  }

  /** While a program is in flight its operands keep their homes, and the homes stay in LRAM. */
  lemma PartsStay(original: seq<Instr>, s: Snapshot, e: Instr, t: Snapshot, inv: Invocation)
    requires Matched(s) && Linked(original, s, e, t)
    requires inv in s.source.inflight && inv in t.source.inflight
    ensures t.source.inflight[inv] == s.source.inflight[inv]
    ensures inv in t.target.inflight && t.target.inflight[inv] == s.target.inflight[inv]
    ensures SameParts(t, t.source.inflight[inv], t.target.inflight[inv])
  {
    var accesses, physical := s.source.inflight[inv], s.target.inflight[inv];
    assert SameParts(s, accesses, physical);
    FlightStays(original, s, e, t, inv);
    hide Linked;
    hide Coherent;
    hide SamePart;
    forall i | 0 <= i < |accesses| ensures SamePart(t, accesses[i], physical[i]) {
      assert SamePart(s, accesses[i], physical[i]);
      PartStays(original, s, e, t, inv, i);
    }
  }

  lemma FlightStays(original: seq<Instr>, s: Snapshot, e: Instr, t: Snapshot, inv: Invocation)
    requires Linked(original, s, e, t) && s.source.inflight.Keys == s.target.inflight.Keys
    requires inv in s.source.inflight && inv in t.source.inflight
    ensures t.source.inflight[inv] == s.source.inflight[inv]
    ensures inv in t.target.inflight && t.target.inflight[inv] == s.target.inflight[inv]
  {
    hide SameOperands;
    hide Busy;
    hide Reachable;
  }

  lemma PartStays(original: seq<Instr>, s: Snapshot, e: Instr, t: Snapshot, inv: Invocation, i: nat)
    requires Linked(original, s, e, t) && Injective(s.home) && s.home.Keys == s.source.live.Keys
    requires inv in s.source.inflight && i < |s.source.inflight[inv]|
    requires inv in s.target.inflight && i < |s.target.inflight[inv]|
    requires SamePart(s, s.source.inflight[inv][i], s.target.inflight[inv][i])
    ensures SamePart(t, s.source.inflight[inv][i], s.target.inflight[inv][i])
  {
    var a, p := s.source.inflight[inv][i], s.target.inflight[inv][i];
    assert Busy(s.source, a.root) && Busy(s.target, p.root);
    hide Busy;
    hide SameOperands;
    hide Reachable;
    if Inserted(s, e, t) {
      BusyStaysInserted(s, e, t, a, p);
    } else {
      BusyStaysTranslated(s, original[s.pos], e, t, a, p);
    }
  }

  lemma BusyStaysInserted(s: Snapshot, e: Instr, t: Snapshot, a: Access, p: Access)
    requires Inserted(s, e, t) && StepNames(s.target, e) == Some(t.target) && Injective(s.home)
    requires Busy(s.source, a.root) && Busy(s.target, p.root) && SamePart(s, a, p)
    ensures SamePart(t, a, p)
  {
    hide Busy;
  }

  lemma BusyStaysTranslated(s: Snapshot, o: Instr, e: Instr, t: Snapshot, a: Access, p: Access)
    requires Translated(s, o, e, t) && StepNames(s.target, e) == Some(t.target) && s.home.Keys == s.source.live.Keys
    requires Busy(s.source, a.root) && Busy(s.target, p.root) && SamePart(s, a, p)
    ensures SamePart(t, a, p)
  {
    hide Busy;
    hide SameOperands;
    hide Reachable;
  }

  lemma {:induction false} AllMatched(original: seq<Instr>, program: seq<Instr>, trace: seq<Snapshot>, i: nat)
    requires Certified(original, program, trace) && i <= |program|
    ensures Matched(trace[i])
  {
    if i > 0 {
      AllMatched(original, program, trace, i - 1);
      assert Linked(original, trace[i - 1], program[i - 1], trace[i]);
      LinkKeepsMatched(original, trace[i - 1], program[i - 1], trace[i]);
    }
  }

  ghost predicate InFlightThroughout(trace: seq<Snapshot>, inv: Invocation, i: nat, j: nat) {
    && j < |trace|
    && forall m :: i <= m <= j ==> inv in trace[m].source.inflight
  }

  /** From `Start` to `Wait`, whatever is inserted in between, the operands of the started program denote
      the same physical buffers, which stay allocated in LRAM. */
  lemma {:induction false} OperandsStayPut(
      original: seq<Instr>, program: seq<Instr>, trace: seq<Snapshot>, inv: Invocation, i: nat, j: nat)
    requires Certified(original, program, trace) && i <= j && InFlightThroughout(trace, inv, i, j)
    ensures trace[j].source.inflight[inv] == trace[i].source.inflight[inv]
    ensures inv in trace[i].target.inflight && inv in trace[j].target.inflight
    ensures trace[j].target.inflight[inv] == trace[i].target.inflight[inv]
    ensures SameParts(trace[j], trace[i].source.inflight[inv], trace[i].target.inflight[inv])
    decreases j
  {
    AllMatched(original, program, trace, j);
    if i < j {
      AllMatched(original, program, trace, j - 1);
      OperandsStayPut(original, program, trace, inv, i, j - 1);
      assert Linked(original, trace[j - 1], program[j - 1], trace[j]);
      PartsStay(original, trace[j - 1], program[j - 1], trace[j], inv);
    }
  }

  // -------------------------------------------------------------------------
  // Same contents

  /** Every live original buffer has its contents in its home; the rest of the state is equal. */
  ghost predicate SameData<D(!new), E>(home: map<Value, Value>, a: Data<D, E>, c: Data<D, E>) {
    && a.ext == c.ext
    && a.log == c.log
    && SameMem(home, a.mem, c.mem)
  }

  ghost predicate SameMem<D(!new)>(home: map<Value, Value>, a: map<Value, D>, c: map<Value, D>) {
    forall b :: b in home ==> b in a && home[b] in c && c[home[b]] == a[b]
  }

  ghost predicate Moved(home: map<Value, Value>, accesses: seq<Access>, physical: seq<Access>) {
    && |accesses| == |physical|
    && forall i :: 0 <= i < |accesses| ==>
         accesses[i].root in home && physical[i] == Access(home[accesses[i].root], accesses[i].path)
  }

  lemma {:induction false} SameWrites<D(!new), E>(
      k: Kernel<D, E>, home: map<Value, Value>, accesses: seq<Access>, physical: seq<Access>,
      outputs: seq<Option<D>>, a: map<Value, D>, c: map<Value, D>)
    requires Injective(home) && SameMem(home, a, c) && Moved(home, accesses, physical)
    requires Covers(a, accesses) && Covers(c, physical)
    ensures SameMem(home, WriteAll(k, accesses, outputs, a), WriteAll(k, physical, outputs, c))
    decreases |accesses|
  {
    if accesses != [] && outputs != [] {
      var x, y := accesses[0], physical[0];
      if outputs[0].None? {
        SameWrites(k, home, accesses[1..], physical[1..], outputs[1..], a, c);
      } else {
        var a' := a[x.root := WritePath(k, a[x.root], x.path, outputs[0].value)];
        var c' := c[y.root := WritePath(k, c[y.root], y.path, outputs[0].value)];
        SameWrites(k, home, accesses[1..], physical[1..], outputs[1..], a', c');
      }
    }
  }

  lemma SameApply<D(!new), E>(
      k: Kernel<D, E>, tag: Tag, home: map<Value, Value>, accesses: seq<Access>, physical: seq<Access>,
      a: Data<D, E>, c: Data<D, E>)
    requires Injective(home) && SameData(home, a, c) && Moved(home, accesses, physical)
    requires Covers(a.mem, accesses) && Covers(c.mem, physical)
    ensures SameData(home, Apply(k, tag, accesses, a), Apply(k, tag, physical, c))
  {
    assert Inputs(k, accesses, a.mem) == Inputs(k, physical, c.mem);
    var (outputs, _) := k.run(tag, Inputs(k, accesses, a.mem), a.ext);
    SameWrites(k, home, accesses, physical, outputs, a.mem, c.mem);
  }

  lemma SameInserted<D(!new), E>(k: Kernel<D, E>, s: Snapshot, e: Instr, t: Snapshot, a: Data<D, E>, c: Data<D, E>)
    requires Matched(s) && Inserted(s, e, t) && StepNames(s.target, e) == Some(t.target)
    requires s.source.live.Keys == a.mem.Keys && s.target.live.Keys == c.mem.Keys
    requires SameData(s.home, a, c)
    ensures SameData(t.home, a, Effect(k, s.target, e, c))
  {}

  lemma SameTranslated<D(!new), E>(
      k: Kernel<D, E>, s: Snapshot, o: Instr, e: Instr, t: Snapshot, a: Data<D, E>, c: Data<D, E>)
    requires Matched(s) && Translated(s, o, e, t) && StepNames(s.target, e) == Some(t.target)
    requires s.source.live.Keys == a.mem.Keys && s.target.live.Keys == c.mem.Keys
    requires SameData(s.home, a, c)
    ensures SameData(t.home, Effect(k, s.source, o, a), Effect(k, s.target, e, c))
  {
    match o
    case Op(tag, operands) =>
      SamePartsMoved(s, AccessesOf(s.source, operands), AccessesOf(s.target, e.operands));
      hide SameParts;
      hide Inputs;
      hide Moved;
      hide WriteAll;
      SameApply(k, tag, s.home, AccessesOf(s.source, operands), AccessesOf(s.target, e.operands), a, c);
    case _ => SameOther(k, s, o, e, t, a, c);
  }

  lemma SameOther<D(!new), E>(
      k: Kernel<D, E>, s: Snapshot, o: Instr, e: Instr, t: Snapshot, a: Data<D, E>, c: Data<D, E>)
    requires Matched(s) && Translated(s, o, e, t) && StepNames(s.target, e) == Some(t.target) && !o.Op?
    requires s.source.live.Keys == a.mem.Keys && s.target.live.Keys == c.mem.Keys
    requires SameData(s.home, a, c)
    ensures SameData(t.home, Effect(k, s.source, o, a), Effect(k, s.target, e, c))
  {
    HomesAreNamed(s);
    hide SameParts;
    hide SameOperands;
    hide Coherent;
    hide Busy;
    hide Reachable;
    hide SameMem;
    match o
    case Alloc(v, _, _) => SameWithOne(s.home, v, k.initial(v), a.mem, c.mem);
    case Dealloc(v, _) => SameWithoutOne(s.home, v, a.mem, c.mem);
    case _ =>
  }

  lemma SameWithOne<D(!new)>(home: map<Value, Value>, v: Value, d: D, a: map<Value, D>, c: map<Value, D>)
    requires SameMem(home, a, c) && forall b :: b in home ==> home[b] != v
    ensures SameMem(home[v := v], a[v := d], c[v := d])
  {}

  lemma SameWithoutOne<D(!new)>(home: map<Value, Value>, v: Value, a: map<Value, D>, c: map<Value, D>)
    requires SameMem(home, a, c) && Injective(home) && v in home
    ensures SameMem(home - {v}, a - {v}, c - {home[v]})
  {}

  lemma SamePartsMoved(s: Snapshot, accesses: seq<Access>, physical: seq<Access>)
    requires SameParts(s, accesses, physical)
    ensures Moved(s.home, accesses, physical)
  {
    forall i | 0 <= i < |accesses|
      ensures accesses[i].root in s.home && physical[i] == Access(s.home[accesses[i].root], accesses[i].path)
    {
      assert SamePart(s, accesses[i], physical[i]);
    }
  }

  // -------------------------------------------------------------------------
  // Same runs

  function Steps(events: seq<Event>): nat {
    if events == [] then 0 else Steps(events[..|events| - 1]) + if events[|events| - 1].Next? then 1 else 0
  }

  /** The events of the original program in a run of the rewritten one: inserted instructions are dropped. */
  function Projected(trace: seq<Snapshot>, events: seq<Event>): seq<Event> {
    if events == [] then [] else
    var n := |events| - 1;
    var pc := Steps(events[..n]);
    var keep := events[n].Inside? || pc + 1 >= |trace| || trace[pc].pos != trace[pc + 1].pos;
    Projected(trace, events[..n]) + if keep then [events[n]] else []
  }

  ghost predicate Corresponds<D(!new), E>(s: Snapshot, a: Config<D, E>, c: Config<D, E>) {
    && a.pc == s.pos && a.names == s.source && c.names == s.target
    && SameData(s.home, a.data, c.data)
  }

  lemma FireMoves<D(!new), E>(k: Kernel<D, E>, program: seq<Instr>, c: Config<D, E>, e: Event)
    requires c.Valid() && Fire(k, program, c, e).Some?
    ensures Fire(k, program, c, e).value.pc == if e.Next? then c.pc + 1 else c.pc
    ensures e.Next? ==> c.pc < |program|
  {}

  /** An inserted instruction is a pause of the original program. */
  lemma FireInserted<D(!new), E>(
      k: Kernel<D, E>, original: seq<Instr>, program: seq<Instr>, s: Snapshot, t: Snapshot, a: Config<D, E>, c: Config<D, E>)
    requires c.pc < |program| && Matched(s) && Linked(original, s, program[c.pc], t) && s.pos == t.pos
    requires a.Valid() && c.Valid() && Corresponds(s, a, c) && Fire(k, program, c, Next).Some?
    ensures Corresponds(t, a, Fire(k, program, c, Next).value)
  {
    SameInserted(k, s, program[c.pc], t, a.data, c.data);
    hide Matched;
    hide Effect;
    hide SameData;
  }

  /** Any other instruction is the next one of the original program. */
  lemma FireTranslated<D(!new), E>(
      k: Kernel<D, E>, original: seq<Instr>, program: seq<Instr>, s: Snapshot, t: Snapshot, a: Config<D, E>, c: Config<D, E>)
    requires c.pc < |program| && Matched(s) && Linked(original, s, program[c.pc], t) && s.pos != t.pos
    requires a.Valid() && c.Valid() && Corresponds(s, a, c) && Fire(k, program, c, Next).Some?
    ensures Fire(k, original, a, Next).Some?
    ensures Corresponds(t, Fire(k, original, a, Next).value, Fire(k, program, c, Next).value)
  {
    SameTranslated(k, s, original[s.pos], program[c.pc], t, a.data, c.data);
    hide Matched;
    hide Effect;
    hide SameData;
    hide SameOperands;
  }

  /** A program in flight does the same step on the homes. */
  lemma FireInside<D(!new), E>(
      k: Kernel<D, E>, original: seq<Instr>, program: seq<Instr>, s: Snapshot, a: Config<D, E>, c: Config<D, E>,
      inv: Invocation, tag: Tag)
    requires Matched(s) && a.Valid() && c.Valid() && Corresponds(s, a, c) && Fire(k, program, c, Inside(inv, tag)).Some?
    ensures Fire(k, original, a, Inside(inv, tag)).Some?
    ensures Corresponds(s, Fire(k, original, a, Inside(inv, tag)).value, Fire(k, program, c, Inside(inv, tag)).value)
  {
    SamePartsMoved(s, s.source.inflight[inv], s.target.inflight[inv]);
    SameApply(k, tag, s.home, s.source.inflight[inv], s.target.inflight[inv], a.data, c.data);
    hide Apply;
    hide SameData;
  }

  /** Every run of the rewritten program, whatever the kernels compute and wherever the steps of the
      programs in flight fall, is a run of the original program that makes the same observations in the
      same order, ends in the same outside state and has the same contents in every live buffer. */
  lemma {:induction false} EveryRunIsAnOriginalRun<D(!new), E>(
      k: Kernel<D, E>, original: seq<Instr>, program: seq<Instr>, trace: seq<Snapshot>, ext: E, events: seq<Event>)
    requires Certified(original, program, trace)
    requires Run(k, program, ext, events).Some?
    ensures var c := Run(k, program, ext, events).value;
            var r := Run(k, original, ext, Projected(trace, events));
            && c.pc == Steps(events) <= |program|
            && r.Some? && Corresponds(trace[c.pc], r.value, c)
    decreases |events|
  {
    if events != [] {
      var n := |events| - 1;
      EveryRunIsAnOriginalRun(k, original, program, trace, ext, events[..n]);
      var c := Run(k, program, ext, events[..n]).value;
      var a := Run(k, original, ext, Projected(trace, events[..n])).value;
      AllMatched(original, program, trace, c.pc);
      var s := trace[c.pc];
      hide Matched;
      hide Linked;
      hide Corresponds;
      FireMoves(k, program, c, events[n]);
      hide Fire;
      match events[n] {
        case Next =>
          var t := trace[c.pc + 1];
          assert Linked(original, s, program[c.pc], t);
          if s.pos == t.pos {
            FireInserted(k, original, program, s, t, a, c);
            assert Projected(trace, events) == Projected(trace, events[..n]);
          } else {
            FireTranslated(k, original, program, s, t, a, c);
            ProjectLast(trace, events);
          }
        case Inside(inv, tag) =>
          FireInside(k, original, program, s, a, c, inv, tag);
          ProjectLast(trace, events);
      }
    }
  }

  lemma {:induction false} ProjectLast(trace: seq<Snapshot>, events: seq<Event>)
    requires events != []
    ensures var n := |events| - 1; var p := Projected(trace, events);
            p != Projected(trace, events[..n]) ==>
              p != [] && p[..|p| - 1] == Projected(trace, events[..n]) && p[|p| - 1] == events[n]
  {}

  lemma {:induction false} RunOneMore<D(
        !new), E>(k: Kernel<D, E>, program: seq<Instr>, ext: E, events: seq<Event>, e: Event)
    requires Run(k, program, ext, events).Some?
    ensures Run(k, program, ext, events + [e]) == Fire(k, program, Run(k, program, ext, events).value, e)
  {
    assert (events + [e])[..|events|] == events;
  }

  /** Runs inserted instructions until the next one stands for an original instruction. */
  lemma {:induction false} SkipInserted<D(!new), E>(
      k: Kernel<D, E>, original: seq<Instr>, program: seq<Instr>, trace: seq<Snapshot>, ext: E, events: seq<Event>)
    returns (longer: seq<Event>)
    requires Certified(original, program, trace)
    requires Run(k, program, ext, events).Some?
    requires Steps(events) <= |program| && trace[Steps(events)].pos < trace[|program|].pos
    ensures Run(k, program, ext, longer).Some? && Projected(trace, longer) == Projected(trace, events)
    ensures Steps(longer) < |program| && trace[Steps(longer)].pos != trace[Steps(longer) + 1].pos
    ensures trace[Steps(longer)].pos == trace[Steps(events)].pos
    decreases |program| - Steps(events)
  {
    EveryRunIsAnOriginalRun(k, original, program, trace, ext, events);
    var pc := Steps(events);
    if trace[pc].pos != trace[pc + 1].pos {
      longer := events;
    } else {
      assert Linked(original, trace[pc], program[pc], trace[pc + 1]);
      var more := events + [Next];
      RunOneMore(k, program, ext, events, Next);
      assert more[..|events|] == events;
      longer := SkipInserted(k, original, program, trace, ext, more);
    }
  }

  /** Where the two correspond, what the original program can do the rewritten one can. */
  lemma {:induction false} FireBoth<D(!new), E>(
      k: Kernel<D, E>, original: seq<Instr>, program: seq<Instr>, trace: seq<Snapshot>, a: Config<D, E>, c: Config<D, E>,
      e: Event)
    requires Certified(original, program, trace) && c.pc <= |program| && a.Valid() && c.Valid()
    requires Corresponds(trace[c.pc], a, c)
    requires Fire(k, original, a, e).Some?
    requires e.Next? ==> c.pc < |program| && trace[c.pc].pos != trace[c.pc + 1].pos
    ensures Fire(k, program, c, e).Some?
  {
    if e.Next? {
      assert Linked(original, trace[c.pc], program[c.pc], trace[c.pc + 1]);
    } else {
      AllMatched(original, program, trace, c.pc);
    }
  }

  lemma {:induction false} ProjectOneMore(trace: seq<Snapshot>, before: seq<Event>, e: Event)
    requires e.Next? ==> Steps(before) + 1 < |trace| && trace[Steps(before)].pos != trace[Steps(before) + 1].pos
    ensures Projected(trace, before + [e]) == Projected(trace, before) + [e]
  {
    assert (before + [e])[..|before|] == before;
  }

  /** Appends an event that both programs can do. */
  lemma {:induction false} LiftOne<D(!new), E>(
      k: Kernel<D, E>, original: seq<Instr>, program: seq<Instr>, trace: seq<Snapshot>, ext: E,
      before: seq<Event>, e: Event)
    requires Certified(original, program, trace)
    requires Run(k, program, ext, before).Some?
    requires Run(k, original, ext, Projected(trace, before) + [e]).Some?
    requires e.Next? ==> Steps(before) < |program| && trace[Steps(before)].pos != trace[Steps(before) + 1].pos
    ensures Run(k, program, ext, before + [e]).Some?
    ensures Projected(trace, before + [e]) == Projected(trace, before) + [e]
  {
    EveryRunIsAnOriginalRun(k, original, program, trace, ext, before);
    CertifiedLength(original, program, trace);
    ProjectOneMore(trace, before, e);
    RunOneMore(k, program, ext, before, e);
    RunOneMore(k, original, ext, Projected(trace, before), e);
    hide Projected;
    hide Corresponds;
    hide Certified;
    hide Run;
    hide Fire;
    FireBoth(k, original, program, trace, Run(k, original, ext, Projected(trace, before)).value,
             Run(k, program, ext, before).value, e);
  }

  /** And no behaviour is lost: every run of the original program is the projection of a run of the
      rewritten one, which therefore never gets stuck before it. */
  lemma {:induction false} EveryOriginalRunIsKept<D(!new), E>(
      k: Kernel<D, E>, original: seq<Instr>, program: seq<Instr>, trace: seq<Snapshot>, ext: E, events: seq<Event>)
    returns (lifted: seq<Event>)
    requires Certified(original, program, trace) && trace[|program|].pos == |original|
    requires Run(k, original, ext, events).Some?
    ensures Run(k, program, ext, lifted).Some? && Projected(trace, lifted) == events
    decreases |events|
  {
    hide Run;
    hide Certified;
    hide Projected;
    hide Steps;
    RunBefore(k, original, ext, events);
    CertifiedLength(original, program, trace);
    if events == [] {
      lifted := [];
      RunBefore(k, program, ext, []);
    } else {
      var n := |events| - 1;
      var before := EveryOriginalRunIsKept(k, original, program, trace, ext, events[..n]);
      assert Projected(trace, before) + [events[n]] == events;
      if events[n].Next? {
        NextIsAhead(k, original, program, trace, ext, before);
        before := SkipInserted(k, original, program, trace, ext, before);
      }
      LiftOne(k, original, program, trace, ext, before, events[n]);
      lifted := before + [events[n]];
    }
  }

  lemma {:induction false} RunBefore<D(!new), E>(k: Kernel<D, E>, program: seq<Instr>, ext: E, events: seq<Event>)
    ensures events == [] ==> Run(k, program, ext, events).Some?
    ensures events != [] && Run(k, program, ext, events).Some? ==> Run(k, program, ext, events[..|events| - 1]).Some?
  {}

  lemma {:induction false} CertifiedLength(original: seq<Instr>, program: seq<Instr>, trace: seq<Snapshot>)
    requires Certified(original, program, trace)
    ensures |trace| == |program| + 1 && Projected(trace, []) == []
  {}

  lemma {:induction false} NextIsAhead<D(!new), E>(
      k: Kernel<D, E>, original: seq<Instr>, program: seq<Instr>, trace: seq<Snapshot>, ext: E, before: seq<Event>)
    requires Certified(original, program, trace)
    requires Run(k, program, ext, before).Some?
    requires Run(k, original, ext, Projected(trace, before) + [Next]).Some?
    ensures Steps(before) <= |program| && trace[Steps(before)].pos < |original|
  {
    EveryRunIsAnOriginalRun(k, original, program, trace, ext, before);
    RunOneMore(k, original, ext, Projected(trace, before), Next);
  }
}
