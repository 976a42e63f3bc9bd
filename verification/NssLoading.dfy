/** Double-buffered loading of NSS programs: each runs from one of two code areas and loads its successor into the other. */
module NssLoading {
  import opened Basics
  import opened NssPrograms
  import Pools

  type Byte = bv8

  /** The size of a code area. */
  const CODE_SIZE := NSS_MAX_PROGRAM_SIZE

  datatype Memory = Memory(lram: seq<Byte>, xram: seq<Byte>)

  /** What every operation does to memory. */
  type Effects = (nat, Memory) -> Memory

  /** The code of every program. */
  type Images = nat -> seq<Byte>

  /** Instructions of a program: its operations, and the copy of code from XRAM to LRAM. */
  datatype Instr = Body(op: nat) | LoadCode(from: int, to: int)

  /** What is left in the function. */
  datatype HostOp = Keep(op: nat) | HostCopy(from: int, to: int) | StartProgram(program: nat, code: int) | WaitProgram(program: nat)

  /** The code area program `k` runs from. */
  function Area(k: nat): int {
    (k % 2) * CODE_SIZE
  }

  /** Where the code of program `k` lies in XRAM. */
  function XramCode(base: nat, k: nat): int {
    base + k * CODE_SIZE
  }

  // -------------------------------------------------------------------------
  // Outlining

  function Operations(p: Program): seq<Instr> {
    seq(|p|, j requires 0 <= j < |p| => Body(p[j]))
  }

  ghost function BodyOf(ps: seq<Program>, base: nat, k: nat): seq<Instr>
    requires k < |ps|
  {
    Operations(ps[k]) + if k + 1 < |ps| then [LoadCode(XramCode(base, k + 1), Area(k + 1))] else []
  }

  ghost function Bodies(ps: seq<Program>, base: nat): seq<seq<Instr>> {
    seq(|ps|, k requires 0 <= k < |ps| => BodyOf(ps, base, k))
  }

  /** What is left of operation `x` once the programs `ps`, numbered from 1, are outlined: where the first operation of a
      program was, the program is started and waited for. */
  ghost function Piece(ps: seq<Program>, x: nat): seq<HostOp> {
    if ps == [] then [Keep(x)]
    else if x !in Last(ps) then Piece(ps[..|ps| - 1], x)
    else if x == Last(ps)[0] then [StartProgram(|ps|, Area(|ps|)), WaitProgram(|ps|)]
    else []
  }

  ghost function HostCode(ps: seq<Program>, n: nat): seq<HostOp> {
    if n == 0 then [] else HostCode(ps, n - 1) + Piece(ps, n - 1)
  }

  /** Program 0 is copied and started by the host before anything else. */
  ghost function Prelude(base: nat): seq<HostOp> {
    [HostCopy(XramCode(base, 0), Area(0)), StartProgram(0, Area(0)), WaitProgram(0)]
  }

  /** Program 0 is empty, the others are not and have no operation in common. */
  ghost predicate Placeable(all: seq<Program>) {
    && (all != [] ==> all[0] == [])
    && (forall k :: 1 <= k < |all| ==> all[k] != [])
    && forall j, k, x :: 0 <= j < k < |all| && x in all[j] ==> x !in all[k]
  }

  function Rewritten(h: HostOp, p: Program, k: nat, code: int): seq<HostOp> {
    if h.Keep? && h.op in p then
      if h.op == p[0] then [StartProgram(k, code), WaitProgram(k)] else []
    else [h]
  }

  ghost function Outlined(host: seq<HostOp>, p: Program, k: nat, code: int): seq<HostOp> {
    if host == [] then [] else Outlined(host[..|host| - 1], p, k, code) + Rewritten(Last(host), p, k, code)
  }

  /** Takes the operations of program `k` out of the function, and starts and waits for it in their place. */
  method Outline(host: seq<HostOp>, p: Program, k: nat, code: int) returns (r: seq<HostOp>)
    ensures r == Outlined(host, p, k, code)
  {
    r := [];
    for x := 0 to |host|
      invariant r == Outlined(host[..x], p, k, code)
    {
      assert host[..x + 1][..x] == host[..x];
      r := r + Rewritten(host[x], p, k, code);
    }
    assert host[..|host|] == host;
  }

  /** Makes a program of every list of operations. Its code is copied to one of the two areas in turn, the first by the
      host, all others by the program before. */
  method OutlinePrograms(all: seq<Program>, base: nat, n: nat) returns (bodies: seq<seq<Instr>>, host: seq<HostOp>)
    requires Placeable(all)
    ensures bodies == Bodies(all, base)
    ensures host == if all == [] then HostCode([], n) else Prelude(base) + HostCode(all[1..], n)
  {
    hide HostCode;
    hide Outlined;
    hide BodyOf;
    hide Prelude;
    hide Placeable;
    hide Operations;
    hide Bodies;
    bodies, host := [], seq(n, x requires 0 <= x < n => Keep(x));
    NothingOutlined(n);
    var areas := [0, CODE_SIZE];
    var address: int := base;
    for k := 0 to |all|
      invariant |bodies| == k && address == XramCode(base, k)
      invariant forall l :: 0 <= l < k - 1 ==> bodies[l] == BodyOf(all, base, l)
      invariant k > 0 ==> bodies[k - 1] == Operations(all[k - 1])
      invariant host == if k == 0 then HostCode([], n) else Prelude(base) + HostCode(all[1..k], n)
    {
      var code := areas[k % 2];
      if k > 0 {
        bodies := bodies[k - 1 := bodies[k - 1] + [LoadCode(address, code)]];
        OutlinesNext(all, base, n, k);
        LoadLast(all, base, k - 1);
        host := Outline(host, all[k], k, code);
      } else {
        host := [HostCopy(address, code), StartProgram(0, code), WaitProgram(0)] + host;
        PreludeFirst(all, base, n);
      }
      bodies := bodies + [Operations(all[k])];
      address := address + CODE_SIZE;
    }
    assert all != [] ==> all[1..|all|] == all[1..];
    if all != [] { LoadLast(all, base, |all| - 1); }
    AllBodies(all, base, bodies);
  }

  lemma AllBodies(all: seq<Program>, base: nat, bodies: seq<seq<Instr>>)
    requires |bodies| == |all| && forall k :: 0 <= k < |all| ==> bodies[k] == BodyOf(all, base, k)
    ensures bodies == Bodies(all, base)
  {
    hide BodyOf;
  }

  /** All programs but the last end by loading the next. */
  lemma LoadLast(ps: seq<Program>, base: nat, k: nat)
    requires k < |ps|
    ensures BodyOf(ps, base, k)
      == if k + 1 < |ps| then Operations(ps[k]) + [LoadCode(XramCode(base, k + 1), Area(k + 1))] else Operations(ps[k])
  {}

  lemma {:induction false} PreludeFirst(all: seq<Program>, base: nat, n: nat)
    requires all != []
    ensures [HostCopy(base, 0), StartProgram(0, 0), WaitProgram(0)] + HostCode([], n) ==
              Prelude(base) + HostCode(all[1..1], n)
  {
    assert all[1..1] == [];
  }

  lemma {:induction false} NothingOutlined(n: nat)
    ensures HostCode([], n) == seq(n, x requires 0 <= x < n => Keep(x))
  {
    if n > 0 { NothingOutlined(n - 1); }
  }

  lemma {:induction false} OutlinedNext(host: seq<HostOp>, h: HostOp, p: Program, k: nat, code: int)
    ensures Outlined(host + [h], p, k, code) == Outlined(host, p, k, code) + Rewritten(h, p, k, code)
  {
    assert (host + [h])[..|host|] == host;
  }

  lemma {:induction false} OutlinedSum(a: seq<HostOp>, b: seq<HostOp>, p: Program, k: nat, code: int)
    ensures Outlined(a + b, p, k, code) == Outlined(a, p, k, code) + Outlined(b, p, k, code)
    decreases |b|
  {
    hide Rewritten;
    if b == [] {
      assert a + b == a;
    } else {
      var c, h := b[..|b| - 1], Last(b);
      OutlinedSum(a, c, p, k, code);
      OutlinedNext(a + c, h, p, k, code);
      OutlinedNext(c, h, p, k, code);
      hide Outlined;
      assert a + b == (a + c) + [h] && b == c + [h];
    }
  }

  lemma {:induction false} PieceKept(ps: seq<Program>, x: nat)
    requires forall j :: 0 <= j < |ps| ==> x !in ps[j]
    ensures Piece(ps, x) == [Keep(x)]
    decreases |ps|
  {
    if ps != [] { PieceKept(ps[..|ps| - 1], x); }
  }

  /** What one more program takes of an operation. */
  lemma {:induction false} PieceNext(ps: seq<Program>, p: Program, x: nat)
    requires p != [] && forall j :: 0 <= j < |ps| && x in p ==> x !in ps[j]
    ensures Outlined(Piece(ps, x), p, |ps| + 1, Area(|ps| + 1)) == Piece(ps + [p], x)
  {
    var k := |ps| + 1;
    assert (ps + [p])[..|ps|] == ps && Last(ps + [p]) == p;
    if x in p {
      PieceKept(ps, x);
      assert [Keep(x)][..0] == [];
    } else {
      PieceIsOwn(ps, x);
      NothingTaken(Piece(ps, x), p, k, Area(k));
    }
  }

  lemma {:induction false} NothingTaken(host: seq<HostOp>, p: Program, k: nat, code: int)
    requires forall x :: 0 <= x < |host| && host[x].Keep? ==> host[x].op !in p
    ensures Outlined(host, p, k, code) == host
    decreases |host|
  {
    if host != [] {
      NothingTaken(host[..|host| - 1], p, k, code);
      assert host == host[..|host| - 1] + [Last(host)];
    }
  }

  lemma {:induction false} PieceIsOwn(ps: seq<Program>, x: nat)
    ensures forall j :: 0 <= j < |Piece(ps, x)| && Piece(ps, x)[j].Keep? ==> Piece(ps, x)[j].op == x
    decreases |ps|
  {
    if ps != [] { PieceIsOwn(ps[..|ps| - 1], x); }
  }

  lemma {:induction false} HostCodeNext(ps: seq<Program>, p: Program, n: nat)
    requires p != [] && forall j, x :: 0 <= j < |ps| && x in p ==> x !in ps[j]
    ensures Outlined(HostCode(ps, n), p, |ps| + 1, Area(|ps| + 1)) == HostCode(ps + [p], n)
    decreases n
  {
    hide Piece;
    hide Outlined;
    hide Area;
    if n == 0 {
      NothingTaken([], p, |ps| + 1, Area(|ps| + 1));
    } else {
      HostCodeNext(ps, p, n - 1);
      PieceNext(ps, p, n - 1);
      OutlinedSum(HostCode(ps, n - 1), Piece(ps, n - 1), p, |ps| + 1, Area(|ps| + 1));
    }
  }

  /** The prelude stays as it is when one more program is outlined. */
  lemma {:induction false} OutlinesNext(all: seq<Program>, base: nat, n: nat, k: nat)
    requires Placeable(all) && 1 <= k < |all|
    ensures Outlined(Prelude(base) + HostCode(all[1..k], n), all[k], k, Area(k)) == Prelude(base) + HostCode(all[1..k + 1], n)
  {
    var ps, p := all[1..k], all[k];
    assert all[1..k + 1] == ps + [p];
    forall j, x | 0 <= j < |ps| && x in p ensures x !in ps[j] { assert ps[j] == all[j + 1]; }
    HostCodeNext(ps, p, n);
    NothingTaken(Prelude(base), p, k, Area(k));
    OutlinedSum(Prelude(base), HostCode(ps, n), p, k, Area(k));
  }

  // -------------------------------------------------------------------------
  // Runs

  /** `image(k)` is the code of program `k`. */
  ghost predicate Holds(m: Memory, image: Images, k: nat) {
    |image(k)| == CODE_SIZE && |m.lram| >= 2 * CODE_SIZE && m.lram[Area(k)..Area(k) + CODE_SIZE] == image(k)
  }

  ghost predicate Stored(m: Memory, image: Images, base: nat, n: nat) {
    && |m.lram| >= 2 * CODE_SIZE && |m.xram| >= XramCode(base, n)
    && forall k: nat :: k < n ==>
          |image(k)| == CODE_SIZE && m.xram[XramCode(base, k)..XramCode(base, k) + CODE_SIZE] == image(k)
  }

  /** No two programs share code in XRAM, and the code of all of them lies from `base` on without gaps. The first program
      runs from the start of LRAM, the second from right behind it, and so on in turns. */
  lemma CodeApart(base: nat, j: nat, k: nat)
    ensures Area(0) == 0 && Area(1) == CODE_SIZE && Area(k + 2) == Area(k)
    ensures XramCode(base, 0) == base && XramCode(base, k + 1) == XramCode(base, k) + CODE_SIZE
    ensures j < k ==> XramCode(base, j) + CODE_SIZE <= XramCode(base, k)
  {}

  /** There is a memory that holds the code of all programs, whatever it is. */
  lemma {:induction false} CodeCanBeStored(image: Images, base: nat, n: nat) returns (m: Memory)
    requires forall k: nat :: k < n ==> |image(k)| == CODE_SIZE
    ensures Stored(m, image, base, n) && |m.xram| == XramCode(base, n)
    decreases n
  {
    if n == 0 {
      m := Memory(seq(2 * CODE_SIZE, _ => 0), seq(base, _ => 0));
    } else {
      var before := CodeCanBeStored(image, base, n - 1);
      m := Memory(before.lram, before.xram + image(n - 1));
      forall k: nat | k < n ensures m.xram[XramCode(base, k)..XramCode(base, k) + CODE_SIZE] == image(k) {
        if k < n - 1 {
          assert XramCode(base, k) + CODE_SIZE <= |before.xram|;
          assert m.xram[XramCode(base, k)..XramCode(base, k) + CODE_SIZE]
              == before.xram[XramCode(base, k)..XramCode(base, k) + CODE_SIZE];
        }
      }
    }
  }

  ghost predicate CanCopy(m: Memory, from: int, to: int) {
    0 <= from && from + CODE_SIZE <= |m.xram| && 0 <= to && to + CODE_SIZE <= |m.lram|
  }

  ghost function Copied(m: Memory, from: int, to: int): Memory
    requires CanCopy(m, from, to)
  {
    m.(lram := m.lram[..to] + m.xram[from..from + CODE_SIZE] + m.lram[to + CODE_SIZE..])
  }

  /** The effect of an operation; it neither writes the code areas, in which nothing is allocated, nor the code in XRAM. */
  ghost predicate Confined(step: Effects, base: nat, n: nat) {
    forall op: nat, m: Memory :: |m.lram| >= 2 * CODE_SIZE && |m.xram| >= XramCode(base, n) ==>
      var r := step(op, m);
      && |r.lram| == |m.lram| && |r.xram| == |m.xram|
      && r.lram[..2 * CODE_SIZE] == m.lram[..2 * CODE_SIZE] && r.xram[base..XramCode(base, n)] ==
        m.xram[base..XramCode(base, n)]
  }

  /** Equal but for the code areas. */
  ghost predicate Agree(a: Memory, b: Memory) {
    a.xram == b.xram && |a.lram| == |b.lram| && |a.lram| >= 2 * CODE_SIZE
        && a.lram[2 * CODE_SIZE..] == b.lram[2 * CODE_SIZE..]
  }

  /** Operations do not read the code areas. */
  ghost predicate Blind(step: Effects) {
    forall op: nat, a: Memory, b: Memory :: Agree(a, b) ==> Agree(step(op, a), step(op, b))
  }

  /** One instruction of program `k`; stuck if its code is not, or not any more, in its area. */
  ghost function Fetch(image: Images, k: nat, m: Memory): Option<Memory> {
    if Holds(m, image, k) then Some(m) else None
  }

  ghost function RunBody(
        step: Effects, image: Images, k: nat, body: seq<Instr>, m: Memory): Option<Memory>
    decreases |body|
  {
    if body == [] then Fetch(image, k, m) else
    match RunBody(step, image, k, body[..|body| - 1], m)
    case None => None
    case Some(m1) =>
      match Last(body)
      case Body(op) => Fetch(image, k, step(op, m1))
      case LoadCode(from, to) => if CanCopy(m1, from, to) then Fetch(image, k, Copied(m1, from, to)) else None
  }

  /** The function between two of its instructions, with the program it has started and not waited for. */
  datatype HostState = HostState(memory: Memory, running: Option<nat>)

  /** A started program has run when it has been waited for; meanwhile the host does nothing. Stuck on a second start and on
      a wait for another program. */
  ghost function RunHost(
      step: Effects, image: Images, bodies: seq<seq<Instr>>, host: seq<HostOp>, m: Memory): Option<HostState>
    decreases |host|
  {
    if host == [] then Some(HostState(m, None)) else
    match RunHost(step, image, bodies, host[..|host| - 1], m)
    case None => None
    case Some(h) => HostStep(step, image, bodies, Last(host), h)
  }

  ghost function HostStep(
      step: Effects, image: Images, bodies: seq<seq<Instr>>, op: HostOp, h: HostState): Option<HostState>
  {
    match op
    case Keep(x) => if h.running.None? then Some(HostState(step(x, h.memory), None)) else None
    case HostCopy(from, to) =>
      if h.running.None? && CanCopy(h.memory, from, to) then Some(HostState(Copied(h.memory, from, to), None)) else None
    case StartProgram(k, code) =>
      if h.running.None? && k < |bodies| && code == Area(k) then Some(HostState(h.memory, Some(k))) else None
    case WaitProgram(k) =>
      if h.running != Some(k) || k >= |bodies| then None else
      match RunBody(step, image, k, bodies[k], h.memory)
      case None => None
      case Some(m) => Some(HostState(m, None))
  }

  /** The operations one after another, before outlining. */
  ghost function Reference(step: Effects, n: nat, m: Memory): Memory {
    if n == 0 then m else step(n - 1, Reference(step, n - 1, m))
  }

  // -------------------------------------------------------------------------
  // Steps of a program

  lemma StepKeeps(step: Effects, image: Images, base: nat, n: nat, op: nat, m: Memory)
    requires Confined(step, base, n) && Stored(m, image, base, n)
    ensures Stored(step(op, m), image, base, n)
    ensures forall k :: Holds(m, image, k) ==> Holds(step(op, m), image, k)
  {
    var r := step(op, m);
    forall k: nat | k < n ensures r.xram[XramCode(base, k)..XramCode(base, k) + CODE_SIZE] == image(k) {
      SamePart(m.xram, r.xram, base, XramCode(base, n), XramCode(base, k), XramCode(base, k) + CODE_SIZE);
      assert m.xram[XramCode(base, k)..XramCode(base, k) + CODE_SIZE] == image(k);
    }
    forall k | Holds(m, image, k) ensures Holds(r, image, k) {
      assert m.lram[0..2 * CODE_SIZE] == m.lram[..2 * CODE_SIZE] && r.lram[0..2 * CODE_SIZE] == r.lram[..2 * CODE_SIZE];
      SamePart(m.lram, r.lram, 0, 2 * CODE_SIZE, Area(k), Area(k) + CODE_SIZE);
    }
  }

  lemma SamePart(a: seq<Byte>, b: seq<Byte>, lo: int, hi: int, from: int, to: int)
    requires 0 <= lo <= from <= to <= hi <= |a| && |a| == |b| && a[lo..hi] == b[lo..hi]
    ensures a[from..to] == b[from..to]
  {
    forall x | from <= x < to ensures a[x] == b[x] {
      assert a[x] == a[lo..hi][x - lo] && b[x] == b[lo..hi][x - lo];
    }
  }

  /** Loading the code of program `k` fills its area and leaves the other alone. */
  lemma LoadKeeps(image: Images, base: nat, n: nat, k: nat, m: Memory)
    requires Stored(m, image, base, n) && k < n
    ensures CanCopy(m, XramCode(base, k), Area(k))
    ensures var r := Copied(m, XramCode(base, k), Area(k));
            && Stored(r, image, base, n) && Holds(r, image, k) && Agree(r, m)
            && forall l: nat :: l % 2 != k % 2 && Holds(m, image, l) ==> Holds(r, image, l)
  {
    var from, to := XramCode(base, k), Area(k);
    assert m.xram[from..from + CODE_SIZE] == image(k);
    var r := Copied(m, from, to);
    assert r.lram[to..to + CODE_SIZE] == image(k);
    forall x | 2 * CODE_SIZE <= x < |m.lram| ensures r.lram[x] == m.lram[x] {}
    forall l: nat | l % 2 != k % 2 && Holds(m, image, l) ensures Holds(r, image, l) {
      forall x | Area(l) <= x < Area(l) + CODE_SIZE ensures r.lram[x] == m.lram[x] {}
      assert r.lram[Area(l)..Area(l) + CODE_SIZE] == m.lram[Area(l)..Area(l) + CODE_SIZE];
    }
  }

  lemma AgreeTransitive(a: Memory, b: Memory, c: Memory)
    requires Agree(a, b) && Agree(b, c)
    ensures Agree(a, c)
  {}

  /** The operations of a program run from an area that holds it, and do what they did in the function. */
  lemma {:induction false} OperationsRun(
      step: Effects, image: Images, base: nat, n: nat, k: nat, p: Program, j: nat, lo: nat, m: Memory, m0: Memory)
    returns (m1: Memory)
    requires Confined(step, base, n) && Blind(step) && Stored(m, image, base, n) && Holds(m, image, k)
    requires j <= |p| && Consecutive(p, lo) && Agree(m, Reference(step, lo, m0))
    ensures RunBody(step, image, k, Operations(p[..j]), m) == Some(m1)
    ensures Stored(m1, image, base, n) && Holds(m1, image, k) && Agree(m1, Reference(step, lo + j, m0))
    decreases j
  {
    hide Stored;
    hide Holds;
    hide Agree;
    if j == 0 {
      m1 := m;
      HoldsFetch(image, k, m);
    } else {
      var m2 := OperationsRun(step, image, base, n, k, p, j - 1, lo, m, m0);
      var body := Operations(p[..j]);
      assert body[..|body| - 1] == Operations(p[..j - 1]) && Last(body) == Body(lo + j - 1);
      m1 := step(lo + j - 1, m2);
      StepKeeps(step, image, base, n, lo + j - 1, m2);
      HoldsFetch(image, k, m1);
    }
  }

  ghost predicate Consecutive(p: Program, lo: nat) {
    forall x :: 0 <= x < |p| ==> p[x] == lo + x
  }

  lemma HoldsFetch(image: Images, k: nat, m: Memory)
    requires Holds(m, image, k)
    ensures Fetch(image, k, m) == Some(m)
  {}

  /** A program that is in its area runs to its end from there, and leaves its successor in the other area. */
  lemma ProgramRuns(
      step: Effects, image: Images, base: nat, ps: seq<Program>, k: nat, lo: nat, m: Memory, m0: Memory)
    returns (m1: Memory)
    requires k < |ps| && Confined(step, base, |ps|) && Blind(step) && Stored(m, image, base, |ps|) && Holds(m, image, k)
    requires Consecutive(ps[k], lo) && Agree(m, Reference(step, lo, m0))
    ensures RunBody(step, image, k, BodyOf(ps, base, k), m) == Some(m1)
    ensures Stored(m1, image, base, |ps|) && (k + 1 < |ps| ==> Holds(m1, image, k + 1))
    ensures Agree(m1, Reference(step, lo + |ps[k]|, m0))
  {
    hide Stored;
    hide Holds;
    hide Agree;
    hide Copied;
    hide CanCopy;
    hide Confined;
    hide Blind;
    var n, p := |ps|, ps[k];
    m1 := OperationsRun(step, image, base, n, k, p, |p|, lo, m, m0);
    assert p[..|p|] == p;
    var body := BodyOf(ps, base, k);
    if k + 1 < n {
      var load := LoadCode(XramCode(base, k + 1), Area(k + 1));
      assert body == Operations(p) + [load];
      assert body[..|body| - 1] == Operations(p) && Last(body) == load;
      m1 := LoadNext(image, base, n, k, m1, Reference(step, lo + |p|, m0));
    } else {
      assert body == Operations(p);
    }
  }

  lemma LoadNext(image: Images, base: nat, n: nat, k: nat, m: Memory, r: Memory) returns (m1: Memory)
    requires Stored(m, image, base, n) && Holds(m, image, k) && k + 1 < n && Agree(m, r)
    ensures CanCopy(m, XramCode(base, k + 1), Area(k + 1)) && m1 == Copied(m, XramCode(base, k + 1), Area(k + 1))
    ensures Stored(m1, image, base, n) && Holds(m1, image, k + 1) && Agree(m1, r)
    ensures Fetch(image, k, m1) == Some(m1)
  {
    LoadKeeps(image, base, n, k + 1, m);
    m1 := Copied(m, XramCode(base, k + 1), Area(k + 1));
    AgreeTransitive(m1, m, r);
    assert k % 2 != (k + 1) % 2;
    HoldsFetch(image, k, m1);
  }

  // -------------------------------------------------------------------------
  // Where programs begin and end

  lemma DropSingle(ops: seq<Op>, n: nat, max: nat, ps: seq<Program>)
    requires 0 < n <= |ops| && IsNss(ops[n - 1]) && IsSplit(ops, n, max, ps)
    requires ps != [] && |Last(ps)| == 1
    ensures IsSplit(ops, n - 1, max, ps[..|ps| - 1])
  {
    SplitEnds(ops, n, max, ps);
    var rest, q := ps[..|ps| - 1], Last(ps);
    assert Concat(rest) + q[..0] == Concat(rest);
    forall k | 0 <= k < |rest| ensures ProgramOk(ops, max, rest[k]) { assert rest[k] == ps[k]; }
  }

  lemma DropOperation(ops: seq<Op>, n: nat, max: nat, ps: seq<Program>) returns (shorter: seq<Program>)
    requires 0 < n <= |ops| && IsNss(ops[n - 1]) && IsSplit(ops, n, max, ps)
    requires ps != [] && |Last(ps)| > 1
    ensures n > 1 && IsNss(ops[n - 2]) && IsSplit(ops, n - 1, max, shorter)
    ensures shorter == ps[..|ps| - 1] + [Last(ps)[..|Last(ps)| - 1]] && Last(ps)[..|Last(ps)| - 1][0] == Last(ps)[0]
  {
    SplitEnds(ops, n, max, ps);
    var rest, q := ps[..|ps| - 1], Last(ps);
    assert ProgramOk(ops, max, q);
    ShorterProgram(ops, max, q);
    hide SizeOf;
    hide IsNss;
    shorter := rest + [q[..|q| - 1]];
    assert shorter[..|shorter| - 1] == rest;
    assert Last(q[..|q| - 1]) == n - 2 && Last(q[..|q| - 1]) in Concat(rest) + q[..|q| - 1];
    NssOpsBound(ops, n - 1);
    forall k | 0 <= k < |shorter| ensures ProgramOk(ops, max, shorter[k]) { assert k < |rest| ==> shorter[k] == ps[k]; }
  }

  lemma LastConsecutive(ops: seq<Op>, n: nat, max: nat, ps: seq<Program>)
    requires 0 < n <= |ops| && IsNss(ops[n - 1]) && IsSplit(ops, n, max, ps)
    ensures ps != [] && Last(ps) != [] && Last(ps)[0] + |Last(ps)| == n && Consecutive(Last(ps), Last(ps)[0])
  {
    SplitEnds(ops, n, max, ps);
    assert ProgramOk(ops, max, Last(ps));
  }

  /** The last program ends with the last operation for the NSS; the programs before it split what comes before it. */
  lemma {:induction false} DropLast(ops: seq<Op>, n: nat, max: nat, ps: seq<Program>)
    requires 0 < n <= |ops| && IsNss(ops[n - 1]) && IsSplit(ops, n, max, ps)
    ensures ps != [] && Last(ps) != [] && Last(ps)[0] + |Last(ps)| == n
    ensures IsSplit(ops, Last(ps)[0], max, ps[..|ps| - 1])
    ensures Consecutive(Last(ps), Last(ps)[0])
    ensures forall x :: Last(ps)[0] <= x < n ==> IsNss(ops[x])
    decreases n
  {
    hide IsNss;
    hide IsSplit;
    LastConsecutive(ops, n, max, ps);
    if |Last(ps)| == 1 {
      DropSingle(ops, n, max, ps);
    } else {
      var shorter := DropOperation(ops, n, max, ps);
      assert shorter[..|shorter| - 1] == ps[..|ps| - 1];
      hide Consecutive;
      DropLast(ops, n - 1, max, shorter);
    }
  }

  lemma ShorterProgram(ops: seq<Op>, max: nat, p: Program)
    requires ProgramOk(ops, max, p) && |p| > 1
    ensures ProgramOk(ops, max, p[..|p| - 1]) && p[..|p| - 1][0] == p[0]
  {
    var s := p[..|p| - 1];
    assert SizeOf(ops, p) >= SizeOf(ops, s);
    forall x | x in s ensures x < |ops| { assert x in p; }
    forall j | 0 <= j < |s| ensures s[j] == s[0] + j { assert p[j] == p[0] + j; }
    assert SizeOf(ops, s) <= max;
  }

  /** Programs that do not have the operations concerned leave them as they are. */
  lemma {:induction false} SameHostCode(ps: seq<Program>, n: nat)
    requires ps != [] && forall x :: x in Last(ps) ==> x >= n
    ensures HostCode(ps, n) == HostCode(ps[..|ps| - 1], n)
    decreases n
  {
    if n > 0 { SameHostCode(ps, n - 1); }
  }

  /** All of a program but its first operation has left the function. */
  lemma {:induction false} HostCodeOfProgram(ps: seq<Program>, lo: nat, n: nat)
    requires ps != [] && Consecutive(Last(ps), lo) && lo < n <= lo + |Last(ps)|
    ensures HostCode(ps, n) == HostCode(ps[..|ps| - 1], lo) + [StartProgram(|ps|, Area(|ps|))] + [WaitProgram(|ps|)]
    decreases n
  {
    assert Last(ps)[n - 1 - lo] == n - 1;
    if n - 1 == lo {
      SameHostCode(ps, lo);
    } else {
      HostCodeOfProgram(ps, lo, n - 1);
      assert Piece(ps, n - 1) == [];
    }
  }

  lemma {:induction false} InConcat(ps: seq<Program>, k: nat, x: nat)
    requires k < |ps| && x in ps[k]
    ensures x in Concat(ps)
    decreases |ps|
  {
    if k < |ps| - 1 { InConcat(ps[..|ps| - 1], k, x); }
  }

  /** An operation that is not for the NSS stays. */
  lemma {:induction false} OthersAreKept(ops: seq<Op>, n: nat, max: nat, ps: seq<Program>)
    requires 0 < n <= |ops| && !IsNss(ops[n - 1]) && IsSplit(ops, n, max, ps)
    ensures Piece(ps, n - 1) == [Keep(n - 1)]
  {
    NssOpsBound(ops, n);
    forall j | 0 <= j < |ps| ensures n - 1 !in ps[j] {
      if n - 1 in ps[j] { InConcat(ps, j, n - 1); }
    }
    PieceKept(ps, n - 1);
  }

  /** The programs of a split have no operation in common. */
  lemma {:induction false} SplitIsPlaceable(ops: seq<Op>, n: nat, max: nat, ps: seq<Program>)
    requires n <= |ops| && IsSplit(ops, n, max, ps)
    ensures Placeable([[]] + ps)
    decreases n
  {
    if n == 0 {
      NoPrograms(ops, max, ps);
    } else if !IsNss(ops[n - 1]) {
      SplitWithout(ops, n, max, ps);
      SplitIsPlaceable(ops, n - 1, max, ps);
    } else {
      DropLast(ops, n, max, ps);
      var rest, lo := ps[..|ps| - 1], Last(ps)[0];
      SplitIsPlaceable(ops, lo, max, rest);
      BelowPrograms(ops, lo, max, rest);
      OneMorePlaceable(rest, Last(ps), lo);
      assert rest + [Last(ps)] == ps;
    }
  }

  lemma BelowPrograms(ops: seq<Op>, n: nat, max: nat, ps: seq<Program>)
    requires n <= |ops| && IsSplit(ops, n, max, ps)
    ensures forall k, x :: 0 <= k < |ps| && x in ps[k] ==> x < n
  {
    NssOpsBound(ops, n);
    forall k, x | 0 <= k < |ps| && x in ps[k] ensures x < n { InConcat(ps, k, x); }
  }

  lemma OneMorePlaceable(rest: seq<Program>, p: Program, lo: nat)
    requires Placeable([[]] + rest) && p != [] && Consecutive(p, lo)
    requires forall k, x :: 0 <= k < |rest| && x in rest[k] ==> x < lo
    ensures Placeable([[]] + (rest + [p]))
  {
    var before, all: seq<Program> := [[]] + rest, [[]] + (rest + [p]);
    forall k | 1 <= k < |all| ensures all[k] != [] { assert k < |before| ==> all[k] == before[k]; }
    forall j, k, x | 0 <= j < k < |all| && x in all[j] ensures x !in all[k] {
      assert all[j] == before[j] && (k < |before| ==> all[k] == before[k]);
      if k == |before| { assert j > 0 && all[j] == rest[j - 1]; }
    }
  }

  // -------------------------------------------------------------------------
  // The whole run

  lemma RunHostNext(
      step: Effects, image: Images, bodies: seq<seq<Instr>>, host: seq<HostOp>, h: HostOp, m: Memory)
    ensures (host + [h])[..|host + [h]| - 1] == host && Last(host + [h]) == h
  {}

  /** After the first operations of the function: the programs started so far ran in place, and the next is in its area. */
  ghost predicate Reached(
      step: Effects, image: Images, base: nat, all: seq<Program>, host: seq<HostOp>, started: nat, n: nat,
      m0: Memory, m: Memory)
  {
    && RunHost(step, image, Bodies(all, base), host, m0) == Some(HostState(m, None))
    && Stored(m, image, base, |all|) && (started + 1 < |all| ==> Holds(m, image, started + 1))
    && Agree(m, Reference(step, n, m0))
  }

  lemma StartRuns(
      step: Effects, image: Images, base: nat, all: seq<Program>, host: seq<HostOp>, k: nat, lo: nat, m0: Memory, m: Memory)
    returns (m1: Memory)
    requires k < |all| && Confined(step, base, |all|) && Blind(step)
    requires RunHost(step, image, Bodies(all, base), host, m0) == Some(HostState(m, None))
    requires Stored(m, image, base, |all|) && Holds(m, image, k) && Agree(m, Reference(step, lo, m0))
    requires Consecutive(all[k], lo)
    ensures Reached(step, image, base, all, host + [StartProgram(k, Area(k))] + [WaitProgram(k)], k, lo + |all[k]|, m0, m1)
  {
    m1 := ProgramRuns(step, image, base, all, k, lo, m, m0);
    var started := host + [StartProgram(k, Area(k))];
    RunHostNext(step, image, Bodies(all, base), host, StartProgram(k, Area(k)), m0);
    RunHostNext(step, image, Bodies(all, base), started, WaitProgram(k), m0);
    hide Stored;
    hide Holds;
    hide Agree;
    hide RunBody;
    assert RunHost(step, image, Bodies(all, base), started, m0) == Some(HostState(m, Some(k)));
  }

  lemma NextRuns(
      step: Effects, image: Images, base: nat, all: seq<Program>, host: seq<HostOp>, started: nat, lo: nat,
      m0: Memory, m: Memory) returns (m1: Memory)
    requires started + 1 < |all| && Confined(step, base, |all|) && Blind(step)
    requires Reached(step, image, base, all, host, started, lo, m0, m)
    requires Consecutive(all[started + 1], lo)
    ensures var k := started + 1;
            Reached(step, image, base, all, host + [StartProgram(k, Area(k))] + [WaitProgram(k)], k, lo + |all[k]|, m0, m1)
  {
    hide Stored;
    hide Holds;
    hide Agree;
    hide RunHost;
    hide Confined;
    hide Blind;
    m1 := StartRuns(step, image, base, all, host, started + 1, lo, m0, m);
  }

  lemma SplitWithout(ops: seq<Op>, n: nat, max: nat, ps: seq<Program>)
    requires 0 < n <= |ops| && !IsNss(ops[n - 1]) && IsSplit(ops, n, max, ps)
    ensures IsSplit(ops, n - 1, max, ps)
  {}

  lemma PreludeRuns(step: Effects, image: Images, base: nat, all: seq<Program>, m0: Memory)
    returns (m: Memory)
    requires all != [] && all[0] == [] && Confined(step, base, |all|) && Blind(step) && Stored(m0, image, base, |all|)
    ensures Reached(step, image, base, all, Prelude(base), 0, 0, m0, m)
  {
    LoadKeeps(image, base, |all|, 0, m0);
    var copy := HostCopy(XramCode(base, 0), Area(0));
    var m1 := Copied(m0, XramCode(base, 0), Area(0));
    assert [] + [copy] == [copy];
    RunHostNext(step, image, Bodies(all, base), [], copy, m0);
    assert RunHost(step, image, Bodies(all, base), [copy], m0) == Some(HostState(m1, None));
    m := StartRuns(step, image, base, all, [copy], 0, 0, m0, m1);
    assert [copy] + [StartProgram(0, Area(0))] + [WaitProgram(0)] == Prelude(base);
  }

  lemma {:induction false} PrefixRuns(
      step: Effects, image: Images, base: nat, ops: seq<Op>, max: nat, ps: seq<Program>, all: seq<Program>, n: nat, m0: Memory)
    returns (m: Memory)
    requires n <= |ops| && IsSplit(ops, n, max, ps) && |ps| < |all| && all[0] == [] && all[1..|ps| + 1] == ps
    requires Confined(step, base, |all|) && Blind(step) && Stored(m0, image, base, |all|)
    ensures Reached(step, image, base, all, Prelude(base) + HostCode(ps, n), |ps|, n, m0, m)
    decreases n
  {
    hide Stored;
    hide Confined;
    hide Blind;
    hide Reached;
    hide IsSplit;
    hide Prelude;
    hide Piece;
    hide Consecutive;
    hide IsNss;
    if n == 0 {
      NoPrograms(ops, max, ps);
      m := PreludeRuns(step, image, base, all, m0);
      assert Prelude(base) + HostCode(ps, n) == Prelude(base);
    } else if !IsNss(ops[n - 1]) {
      SplitWithout(ops, n, max, ps);
      OthersAreKept(ops, n, max, ps);
      var m1 := PrefixRuns(step, image, base, ops, max, ps, all, n - 1, m0);
      var host := Prelude(base) + HostCode(ps, n - 1);
      assert Prelude(base) + HostCode(ps, n) == host + [Keep(n - 1)];
      m := KeepRuns(step, image, base, all, host, |ps|, n - 1, m0, m1);
    } else {
      DropLast(ops, n, max, ps);
      var rest, lo := ps[..|ps| - 1], Last(ps)[0];
      assert all[1..|rest| + 1] == rest && all[|ps|] == Last(ps);
      var m1 := PrefixRuns(step, image, base, ops, max, rest, all, lo, m0);
      HostCodeOfProgram(ps, lo, n);
      var host := Prelude(base) + HostCode(rest, lo);
      m := NextRuns(step, image, base, all, host, |rest|, lo, m0, m1);
      assert Prelude(base) + HostCode(ps, n) == host + [StartProgram(|ps|, Area(|ps|))] + [WaitProgram(|ps|)];
    }
  }

  lemma NoPrograms(ops: seq<Op>, max: nat, ps: seq<Program>)
    requires IsSplit(ops, 0, max, ps)
    ensures ps == []
  {
    if ps != [] {
      assert ProgramOk(ops, max, Last(ps));
      LastOfConcat(ps);
    }
  }

  lemma KeepRuns(
      step: Effects, image: Images, base: nat, all: seq<Program>, host: seq<HostOp>, started: nat, n: nat,
      m0: Memory, m: Memory) returns (m1: Memory)
    requires Confined(step, base, |all|) && Blind(step) && Reached(step, image, base, all, host, started, n, m0, m)
    ensures Reached(step, image, base, all, host + [Keep(n)], started, n + 1, m0, m1)
  {
    m1 := step(n, m);
    StepKeeps(step, image, base, |all|, n, m);
    RunHostNext(step, image, Bodies(all, base), host, Keep(n), m0);
    hide Stored;
    hide Holds;
    hide Agree;
    hide Confined;
  }

  /** Without programs the function stays as it is. */
  lemma {:induction false} UnsplitRuns(step: Effects, image: Images, base: nat, n: nat, m0: Memory) returns (m: Memory)
    requires Confined(step, base, 0) && Blind(step) && Stored(m0, image, base, 0)
    ensures Reached(step, image, base, [], HostCode([], n), 0, n, m0, m)
    decreases n
  {
    hide Confined;
    hide Blind;
    if n == 0 {
      m := m0;
    } else {
      m := UnsplitRuns(step, image, base, n - 1, m0);
      m := KeepRuns(step, image, base, [], HostCode([], n - 1), 0, n - 1, m0, m);
    }
  }

  /** The programs with the empty one that goes before them, if there are any. */
  function WithFirst(ps: seq<Program>): seq<Program> {
    if ps == [] then [] else [[]] + ps
  }

  /** What is left of a function of `n` operations. */
  ghost function OutlinedHost(ps: seq<Program>, base: nat, n: nat): seq<HostOp> {
    if ps == [] then HostCode([], n) else Prelude(base) + HostCode(ps, n)
  }

  lemma {:induction false} PieceTaken(ps: seq<Program>, x: nat)
    ensures Keep(x) in Piece(ps, x) <==> !(exists k :: 0 <= k < |ps| && x in ps[k])
    decreases |ps|
  {
    if ps != [] {
      var rest := ps[..|ps| - 1];
      PieceTaken(rest, x);
      if k :| 0 <= k < |ps| && x in ps[k] { assert k < |rest| ==> x in rest[k]; }
      if k :| 0 <= k < |rest| && x in rest[k] { assert x in ps[k]; }
      assert x in Last(ps) ==> x in ps[|ps| - 1];
    }
  }

  lemma {:induction false} InHostCode(ps: seq<Program>, n: nat, x: nat)
    ensures Keep(x) in HostCode(ps, n) <==> x < n && Keep(x) in Piece(ps, x)
    decreases n
  {
    if n > 0 {
      InHostCode(ps, n - 1, x);
      PieceIsOwn(ps, n - 1);
    }
  }

  /** What is left in the function is just what concerns no data transfer, no program of a slice or the CSS, and no memory
      but XRAM; everything else is in a program. */
  lemma LeftOnHost(ops: seq<Op>, max: nat, ps: seq<Program>, base: nat, x: nat)
    requires IsSplit(ops, |ops|, max, ps)
    ensures Keep(x) in OutlinedHost(ps, base, |ops|) <==> x < |ops| && ForHost(ops[x])
    ensures x < |ops| && !ForHost(ops[x]) <==> exists k :: 0 <= k < |ps| && x in ps[k]
  {
    InHostCode(ps, |ops|, x);
    PieceTaken(ps, x);
    HeldByPrograms(ops, |ops|, max, ps, x);
    hide HostCode;
    hide Piece;
    hide IsSplit;
    hide ForHost;
  }

  /** Outlining the programs of a split keeps what the function does, but for the contents of the code areas. Every program
      runs from the area it was loaded to, nothing is written there while it runs, and its successor is loaded before it is
      started: otherwise the run would be stuck. */
  lemma EveryProgramIsInPlace(
      step: Effects, image: Images, base: nat, ops: seq<Op>, max: nat, ps: seq<Program>, m0: Memory)
    returns (m: Memory)
    requires IsSplit(ops, |ops|, max, ps)
    requires Confined(step, base, |WithFirst(ps)|) && Blind(step) && Stored(m0, image, base, |WithFirst(ps)|)
    ensures RunHost(step, image, Bodies(WithFirst(ps), base), OutlinedHost(ps, base, |ops|), m0) == Some(HostState(m, None))
    ensures Agree(m, Reference(step, |ops|, m0))
  {
    var all := WithFirst(ps);
    if ps == [] {
      m := UnsplitRuns(step, image, base, |ops|, m0);
    } else {
      assert all[1..|ps| + 1] == ps;
      m := PrefixRuns(step, image, base, ops, max, ps, all, |ops|, m0);
    }
  }

  /** No buffer of the pool overlaps a code area: the pool reserves two of them at its start. */
  lemma {:induction false} PoolAvoidsCode(geo: Pools.Geometry, requests: seq<Pools.Request>, v: Value, a: int, k: nat)
    requires geo.Valid() && geo.reservedBytes >= 2 * CODE_SIZE
    requires var s := Pools.After(geo, requests);
             v in s.live && s.live[v].base * geo.wordBytes <= a < (s.live[v].base + s.live[v].size) * geo.wordBytes
    ensures !(Area(k) <= a < Area(k) + CODE_SIZE)
  {
    var s := Pools.After(geo, requests);
    Pools.HistoryIsExact(geo, requests);
    assert s.live[v].base >= geo.ReservedWords();
    hide Pools.After;
    hide Pools.Exact;
    BytesAfter(geo, s.live[v].base);
  }

  lemma BytesAfter(geo: Pools.Geometry, base: nat)
    requires geo.wordBytes > 0 && base >= geo.ReservedWords()
    ensures base * geo.wordBytes >= geo.reservedBytes
  {
    var w, r := geo.wordBytes, geo.ReservedWords();
    assert geo.reservedBytes + w - 1 == r * w + (geo.reservedBytes + w - 1) % w;
    MoreWords(r, base, w);
  }

  lemma MoreWords(x: nat, y: nat, w: nat)
    requires x <= y
    ensures x * w <= y * w
  {}

  /** Finds the programs of a function and outlines them; if there are any, an empty one goes before them. */
  method OutlineNssPrograms(ops: seq<Op>, taskSize: int, base: nat)
    returns (ps: seq<Program>, bodies: seq<seq<Instr>>, host: seq<HostOp>)
    ensures if taskSize > 1 then IsSplit(ops, |ops|, taskSize - 1, ps) else ps == []
    ensures bodies == Bodies(WithFirst(ps), base) && host == OutlinedHost(ps, base, |ops|)
  {
    ps := FindPrograms(ops, taskSize);
    var all := WithFirst(ps);
    if taskSize > 1 { SplitIsPlaceable(ops, |ops|, taskSize - 1, ps); }
    assert ps != [] ==> all[1..] == ps;
    bodies, host := OutlinePrograms(all, base, |ops|);
  }
}
