/** Timeline semaphores: values that only grow, a first failure that sticks, and waits that look at several semaphores one
    lock at a time while other threads signal and fail them. */
module Semaphores {
  import opened Basics

  type Code = nat

  /** What the mutex of a semaphore guards. */
  datatype Sem = Sem(value: nat, failure: Option<Code>)

  /** The value of failed semaphores; larger than any payload. */
  function Signalled(sem: Sem, value: nat): Sem {
    if value <= sem.value then sem else sem.(value := value)
  }

  /** Only the first failure counts; `None` is the OK status. */
  function Failed(sem: Sem, sentinel: nat, status: Option<Code>): Sem {
    if sem.failure.Some? then sem else Sem(sentinel, status)
  }

  datatype Status = Ok | OutOfRange | Aborted | DeadlineExceeded

  class Semaphore {
    var currentValue: nat
    var failureStatus: Option<Code>

    ghost function State(): Sem
      reads this
    {
      Sem(currentValue, failureStatus)
    }

    constructor (initialValue: nat)
      ensures State() == Sem(initialValue, None)
    {
      currentValue, failureStatus := initialValue, None;
    }

    /** The value, and the failure once the sentinel is reached. */
    method Query(sentinel: nat) returns (value: nat, status: Option<Code>)
      ensures value == State().value
      ensures status == if State().value >= sentinel then State().failure else None
      ensures (State().failure.Some? ==> State().value >= sentinel) ==> status == State().failure
    {
      value := currentValue;
      status := None;
      if value >= sentinel {
        status := failureStatus;
      }
    }

    method Signal(newValue: nat) returns (status: Status)
      modifies this
      ensures State() == Signalled(old(State()), newValue)
      ensures status == if newValue > old(currentValue) then Ok else OutOfRange
      ensures status.Ok? <==> State() != old(State())
    {
      if newValue <= currentValue {
        return OutOfRange;
      }
      currentValue := newValue;
      status := Ok;
    }

    method Fail(sentinel: nat, status: Option<Code>)
      modifies this
      ensures State() == Failed(old(State()), sentinel, status)
    {
      if failureStatus.Some? {
        return;
      }
      currentValue, failureStatus := sentinel, status;
    }
  }

  /** Signals a list in order and stops at the first semaphore whose value would not grow. A semaphore then has the
      largest of its old value and of the payloads signalled to it. */
  method MultiSignal(list: seq<Semaphore>, payloads: seq<nat>) returns (status: Status, reached: nat)
    requires |list| == |payloads|
    modifies list
    ensures reached <= |list| && status == if reached == |list| then Ok else OutOfRange
    ensures reached < |list| ==> payloads[reached] <= list[reached].currentValue
    ensures forall i :: 0 <= i < reached ==> payloads[i] <= list[i].currentValue
    ensures forall s :: s in list ==> s.failureStatus == old(s.failureStatus) && s.currentValue >= old(s.currentValue)
    ensures forall s :: s in list ==>
              s.currentValue == old(s.currentValue) || exists i ::
                    0 <= i < reached && list[i] == s && payloads[i] == s.currentValue
  {
    reached := 0;
    while reached < |list|
      invariant reached <= |list|
      invariant forall i :: 0 <= i < reached ==> payloads[i] <= list[i].currentValue
      invariant forall s :: s in list ==> s.failureStatus == old(s.failureStatus) && s.currentValue >= old(s.currentValue)
      invariant forall s :: s in list ==>
                  s.currentValue == old(s.currentValue) || exists i ::
                        0 <= i < reached && list[i] == s && payloads[i] == s.currentValue
    {
      status := list[reached].Signal(payloads[reached]);
      if !status.Ok? {
        return;
      }
      reached := reached + 1;
    }
    status := Ok;
  }

  // -------------------------------------------------------------------------
  // The other threads

  /** A failed semaphore is at the sentinel, and no value is above it. */
  ghost predicate Bounded(sems: seq<Sem>, sentinel: nat) {
    forall i :: 0 <= i < |sems| ==> sems[i].value <= sentinel && (sems[i].failure.Some? ==> sems[i].value == sentinel)
  }

  /** Nothing is lost from `a` to `b`: values grow and failures stay. */
  ghost predicate Grows(a: Sem, b: Sem) {
    a.value <= b.value && (a.failure.Some? ==> b.failure == a.failure)
  }

  ghost predicate AllGrow(a: seq<Sem>, b: seq<Sem>) {
    |a| == |b| && forall i :: 0 <= i < |a| ==> Grows(a[i], b[i])
  }

  /** A failure sets a value back exactly when the semaphore was signalled past the sentinel. */
  lemma FailureLosesValue(sem: Sem, sentinel: nat, status: Option<Code>)
    ensures Grows(sem, Failed(sem, sentinel, status)) <==> sem.failure.Some? || sem.value <= sentinel
  {}

  // -------------------------------------------------------------------------
  // A thread that waits

  datatype Mode = All | Any
  datatype Timeout = Immediate | Finite | Infinite

  /** The arguments of a wait: indices of semaphores and the values to wait for. */
  datatype Request = Request(mode: Mode, timeout: Timeout, list: seq<nat>, payloads: seq<nat>)

  /** Where the waiting thread is. Every step reads at most one semaphore, under its mutex. */
  datatype Pc =
    | Entry
    | Scan(next: nat)
    | Collect(next: nat, any: bool, all: bool, failed: bool)
    | Check
    | Watch
    | Recheck
    | Done(status: Status)

  /** `began` remembers the semaphores as they were when the deciding look at them began; `blocked` whether the thread
      went to wait on the notification. */
  datatype State = State(sems: seq<Sem>, pc: Pc, blocked: bool, began: seq<Sem>)

  ghost predicate ValidRequest(r: Request, n: nat) {
    |r.list| == |r.payloads| && forall i :: 0 <= i < |r.list| ==> r.list[i] < n
  }

  ghost predicate Reached(r: Request, sems: seq<Sem>, i: nat)
    requires ValidRequest(r, |sems|) && i < |r.list|
  {
    sems[r.list[i]].value >= r.payloads[i]
  }

  ghost predicate HasFailed(r: Request, sems: seq<Sem>, i: nat)
    requires ValidRequest(r, |sems|) && i < |r.list|
  {
    sems[r.list[i]].failure.Some?
  }

  ghost predicate Ready(r: Request, sems: seq<Sem>, i: nat)
    requires ValidRequest(r, |sems|) && i < |r.list|
  {
    Reached(r, sems, i) || HasFailed(r, sems, i)
  }

  ghost function Decide(mode: Mode, any: bool, all: bool, failed: bool): Status {
    if failed then Aborted
    else if (if mode.All? then all else any) then Ok
    else DeadlineExceeded
  }

  /** One step of the waiting thread. */
  ghost function Turn(r: Request, s: State): State
    requires ValidRequest(r, |s.sems|)
  {
    var n := |r.list|;
    match s.pc
    case Entry =>
      if n == 0 then s.(pc := Done(Ok))
      else if n == 1 then s.(pc := Check)
      else if r.timeout.Immediate? then s.(pc := Collect(0, false, true, false), began := s.sems)
      else s.(pc := Scan(0), blocked := true)
    case Scan(i) =>
      if r.mode.All? then
        if i >= n then s.(pc := Collect(0, false, true, false), began := s.sems)
        else if Ready(r, s.sems, i) then s.(pc := Scan(i + 1))
        else s.(pc := Scan(0))
      else
        if i >= n then s.(pc := Scan(0))
        else if Ready(r, s.sems, i) then s.(pc := Collect(0, false, true, false), began := s.sems)
        else s.(pc := Scan(i + 1))
    case Collect(i, any, all, failed) =>
      if i >= n then s.(pc := Done(Decide(r.mode, any, all, failed)))
      else if HasFailed(r, s.sems, i) then s.(pc := Collect(i + 1, any, all, true))
      else if !Reached(r, s.sems, i) then s.(pc := Collect(i + 1, any, false, failed))
      else s.(pc := Collect(i + 1, true, all, failed))
    case Check =>
      if n == 0 then s
      else if HasFailed(r, s.sems, 0) then s.(pc := Done(Aborted), began := s.sems)
      else if Reached(r, s.sems, 0) then s.(pc := Done(Ok), began := s.sems)
      else if r.timeout.Immediate? then s.(pc := Done(DeadlineExceeded), began := s.sems)
      else s.(pc := Watch, blocked := true)
    case Watch =>
      if n > 0 && Ready(r, s.sems, 0) then s.(pc := Recheck) else s
    case Recheck =>
      if n == 0 then s
      else if HasFailed(r, s.sems, 0) then s.(pc := Done(Aborted), began := s.sems)
      else if !Reached(r, s.sems, 0) then s.(pc := Done(DeadlineExceeded), began := s.sems)
      else s.(pc := Done(Ok), began := s.sems)
    case Done(_) => s
  }

  /** What can happen: other threads signal or fail a semaphore, a timeout expires, or the waiting thread takes a step. */
  datatype Event = Signal(i: nat, value: nat) | Fail(i: nat, code: Option<Code>) | Expire | Step

  ghost function Next(r: Request, sentinel: nat, s: State, e: Event): (t: State)
    requires ValidRequest(r, |s.sems|)
    ensures |t.sems| == |s.sems|
  {
    match e
    case Signal(i, value) => if i < |s.sems| then s.(sems := s.sems[i := Signalled(s.sems[i], value)]) else s
    case Fail(i, code) => if i < |s.sems| then s.(sems := s.sems[i := Failed(s.sems[i], sentinel, code)]) else s
    case Expire => if s.pc.Watch? && r.timeout.Finite? then s.(pc := Recheck) else s
    case Step => Turn(r, s)
  }

  ghost function Run(r: Request, sentinel: nat, s: State, es: seq<Event>): (t: State)
    requires ValidRequest(r, |s.sems|)
    ensures |t.sems| == |s.sems|
    decreases |es|
  {
    if es == [] then s else Run(r, sentinel, Next(r, sentinel, s, es[0]), es[1..])
  }

  /** Payloads, signalled and waited for, stay below the sentinel. */
  ghost predicate Fair(r: Request, sentinel: nat, es: seq<Event>) {
    && (forall i :: 0 <= i < |r.payloads| ==> r.payloads[i] < sentinel)
    && forall k :: 0 <= k < |es| && es[k].Signal? ==> es[k].value < sentinel
  }

  ghost function Initial(sems: seq<Sem>): State {
    State(sems, Entry, false, sems)
  }

  // -------------------------------------------------------------------------
  // Every step

  lemma EventGrows(r: Request, sentinel: nat, s: State, e: Event)
    requires ValidRequest(r, |s.sems|) && Bounded(s.sems, sentinel) && (e.Signal? ==> e.value < sentinel)
    ensures AllGrow(s.sems, Next(r, sentinel, s, e).sems) && Bounded(Next(r, sentinel, s, e).sems, sentinel)
  {}

  /** Values never fall and the first failure is never replaced, in any run. */
  lemma {:induction false} RunGrows(r: Request, sentinel: nat, s: State, es: seq<Event>)
    requires ValidRequest(r, |s.sems|) && Bounded(s.sems, sentinel) && Fair(r, sentinel, es)
    ensures AllGrow(s.sems, Run(r, sentinel, s, es).sems) && Bounded(Run(r, sentinel, s, es).sems, sentinel)
    decreases |es|
  {
    if es != [] {
      EventGrows(r, sentinel, s, es[0]);
      RunGrows(r, sentinel, Next(r, sentinel, s, es[0]), es[1..]);
    }
  }

  /** What the flags say after looking at the first `i` semaphores of the list. */
  ghost predicate Collected(r: Request, s: State, i: nat, any: bool, all: bool, failed: bool)
    requires ValidRequest(r, |s.sems|) && |s.began| == |s.sems| && i <= |r.list|
  {
    var n := |r.list|;
    && (s.blocked && r.mode.All? ==> all && forall j :: 0 <= j < n ==> Ready(r, s.sems, j))
    && (s.blocked && r.mode.Any? ==> exists j :: 0 <= j < n && Ready(r, s.began, j))
    && (failed ==> exists j :: 0 <= j < n && HasFailed(r, s.sems, j))
    && (any ==> exists j :: 0 <= j < n && Reached(r, s.sems, j))
    && (all && !failed ==> forall j :: 0 <= j < i ==> Reached(r, s.sems, j))
    && (!failed ==> forall j :: 0 <= j < i ==> !HasFailed(r, s.began, j))
    && (!any && !failed ==> forall j :: 0 <= j < i ==> !Reached(r, s.began, j))
    && (!all ==> exists j :: 0 <= j < n && !Reached(r, s.began, j))
  }

  /** What the thread knows of the semaphores of the list at any point. */
  ghost predicate Knows(r: Request, s: State)
    requires ValidRequest(r, |s.sems|)
  {
    var n := |r.list|;
    && AllGrow(s.began, s.sems)
    && match s.pc
       case Entry => !s.blocked
       case Scan(i) =>
         s.blocked && n >= 2 && i <= n && (r.mode.All? ==> forall j :: 0 <= j < i ==> Ready(r, s.sems, j))
       case Collect(i, any, all, failed) => n >= 2 && i <= n && Collected(r, s, i, any, all, failed)
       case Check => n == 1 && !s.blocked
       case Watch => n == 1 && s.blocked && !r.timeout.Immediate?
       case Recheck => n == 1 && s.blocked && (r.timeout.Finite? || Ready(r, s.sems, 0))
       case Done(status) =>
         match status
         case Ok =>
           && (if r.mode.All? || n == 0 then (forall j :: 0 <= j < n ==> Reached(r, s.sems, j))
               else (exists j :: 0 <= j < n && Reached(r, s.sems, j)))
           && (forall j :: 0 <= j < n ==> !HasFailed(r, s.began, j))
         case Aborted => exists j :: 0 <= j < n && HasFailed(r, s.sems, j)
         case DeadlineExceeded =>
           && (forall j :: 0 <= j < n ==> !HasFailed(r, s.began, j))
           && (if r.mode.All? then (exists j :: 0 <= j < n && !Reached(r, s.began, j))
               else (forall j :: 0 <= j < n ==> !Reached(r, s.began, j)))
           && (s.blocked ==> n == 1 && r.timeout.Finite?)
         case OutOfRange => false
  }

  lemma GrowthKeeps(r: Request, a: seq<Sem>, b: seq<Sem>, sentinel: nat, i: nat)
    requires ValidRequest(r, |a|) && AllGrow(a, b) && i < |r.list|
    ensures Reached(r, a, i) ==> Reached(r, b, i)
    ensures HasFailed(r, a, i) ==> HasFailed(r, b, i)
    ensures Ready(r, a, i) ==> Ready(r, b, i)
  {
    assert Grows(a[r.list[i]], b[r.list[i]]);
  }

  lemma GrowthIsTransitive(a: seq<Sem>, b: seq<Sem>, c: seq<Sem>)
    requires AllGrow(a, b) && AllGrow(b, c)
    ensures AllGrow(a, c)
  {
    forall i | 0 <= i < |a| ensures Grows(a[i], c[i]) {
      assert Grows(a[i], b[i]) && Grows(b[i], c[i]);
    }
  }

  /** What the thread knows stays true whatever the others do. */
  lemma OthersKeepKnows(r: Request, s: State, t: State)
    requires ValidRequest(r, |s.sems|) && Knows(r, s) && AllGrow(s.sems, t.sems) && t == s.(sems := t.sems)
    ensures Knows(r, t)
  {
    GrowthIsTransitive(s.began, s.sems, t.sems);
    forall i | 0 <= i < |r.list|
      ensures Reached(r, s.sems, i) ==> Reached(r, t.sems, i)
      ensures HasFailed(r, s.sems, i) ==> HasFailed(r, t.sems, i)
      ensures Ready(r, s.sems, i) ==> Ready(r, t.sems, i)
    {
      GrowthKeeps(r, s.sems, t.sems, 0, i);
    }
    hide Reached;
    hide HasFailed;
    hide Ready;
    hide AllGrow;
  }

  lemma CollectKnows(r: Request, s: State)
    requires ValidRequest(r, |s.sems|) && Knows(r, s) && s.pc.Collect?
    ensures Knows(r, Turn(r, s))
  {
    var i, t := s.pc.next, Turn(r, s);
    if i < |r.list| {
      GrowthKeeps(r, s.began, s.sems, 0, i);
      assert Ready(r, s.sems, i) <==> Reached(r, s.sems, i) || HasFailed(r, s.sems, i);
      hide HasFailed;
      hide Reached;
      hide Ready;
      hide AllGrow;
      assert Collected(r, t, i + 1, t.pc.any, t.pc.all, t.pc.failed);
    } else {
      assert forall j :: 0 <= j < |r.list| ==> (Ready(r, s.began, j) <==> Reached(r, s.began, j) || HasFailed(r, s.began, j));
      hide HasFailed;
      hide Reached;
      hide Ready;
      hide AllGrow;
    }
  }

  lemma TurnKnows(r: Request, s: State)
    requires ValidRequest(r, |s.sems|) && Knows(r, s)
    ensures Knows(r, Turn(r, s))
  {
    if s.pc.Scan? {
      if s.pc.next < |r.list| && Ready(r, s.sems, s.pc.next) { ScanKnows(r, s, s.pc.next); }
    } else if s.pc.Collect? {
      CollectKnows(r, s);
    } else if !s.pc.Entry? && !s.pc.Done? {
      SingleKnows(r, s);
    }
  }

  lemma ScanKnows(r: Request, s: State, i: nat)
    requires ValidRequest(r, |s.sems|) && Knows(r, s) && s.pc == Scan(i) && i < |r.list| && Ready(r, s.sems, i)
    ensures Knows(r, Turn(r, s))
  {
    hide Ready;
  }

  lemma SingleKnows(r: Request, s: State)
    requires ValidRequest(r, |s.sems|) && Knows(r, s) && (s.pc.Check? || s.pc.Watch? || s.pc.Recheck?)
    ensures Knows(r, Turn(r, s))
  {
    var t := Turn(r, s);
    if t.pc.Done? {
      assert Ready(r, s.sems, 0) <==> Reached(r, s.sems, 0) || HasFailed(r, s.sems, 0);
      hide Reached;
      hide HasFailed;
      hide Ready;
    }
  }

  lemma {:induction false} RunKnows(r: Request, sentinel: nat, s: State, es: seq<Event>)
    requires ValidRequest(r, |s.sems|) && Knows(r, s) && Bounded(s.sems, sentinel) && Fair(r, sentinel, es)
    ensures Knows(r, Run(r, sentinel, s, es))
    decreases |es|
  {
    hide Knows;
    if es != [] {
      var t := Next(r, sentinel, s, es[0]);
      EventGrows(r, sentinel, s, es[0]);
      EventKnows(r, sentinel, s, es[0]);
      RunKnows(r, sentinel, t, es[1..]);
    }
  }

  lemma EventKnows(r: Request, sentinel: nat, s: State, e: Event)
    requires ValidRequest(r, |s.sems|) && Knows(r, s) && Bounded(s.sems, sentinel) && (e.Signal? ==> e.value < sentinel)
    ensures Knows(r, Next(r, sentinel, s, e))
  {
    match e
    case Step => TurnKnows(r, s);
    case Expire =>
    case _ =>
      EventGrows(r, sentinel, s, e);
      OthersKeepKnows(r, s, Next(r, sentinel, s, e));
  }

  // -------------------------------------------------------------------------
  // What a finished wait means

  ghost predicate Finishes(r: Request, sentinel: nat, sems: seq<Sem>, es: seq<Event>, status: Status)
    requires ValidRequest(r, |sems|)
  {
    Run(r, sentinel, Initial(sems), es).pc == Done(status)
  }

  /** A wait that returns OK has all, or any, of its semaphores at their payloads at that moment, although it looked at them
      one after another. */
  lemma {:induction false} OkMeansReached(r: Request, sentinel: nat, sems: seq<Sem>, es: seq<Event>)
    requires ValidRequest(r, |sems|) && Bounded(sems, sentinel) && Fair(r, sentinel, es)
    requires Finishes(r, sentinel, sems, es, Ok)
    ensures var t := Run(r, sentinel, Initial(sems), es);
            if r.mode.All? || r.list == [] then forall j :: 0 <= j < |r.list| ==> Reached(r, t.sems, j)
            else exists j :: 0 <= j < |r.list| && Reached(r, t.sems, j)
  {
    RunKnows(r, sentinel, Initial(sems), es);
  }

  /** Failure comes first: whatever the mode, none of the semaphores of a wait that returns OK had failed when its last
      look began. */
  lemma {:induction false} OkMeansNoneFailed(r: Request, sentinel: nat, sems: seq<Sem>, es: seq<Event>)
    requires ValidRequest(r, |sems|) && Bounded(sems, sentinel) && Fair(r, sentinel, es)
    requires Finishes(r, sentinel, sems, es, Ok)
    ensures var t := Run(r, sentinel, Initial(sems), es);
            AllGrow(sems, t.began) && AllGrow(t.began, t.sems) && forall j :: 0 <= j < |r.list| ==> !HasFailed(r, t.began, j)
  {
    RunKnows(r, sentinel, Initial(sems), es);
    RunBegan(r, sentinel, Initial(sems), es, sems);
  }

  /** A wait that begins when one of its semaphores has failed can only be aborted. */
  lemma {:induction false} FailedIsAborted(r: Request, sentinel: nat, sems: seq<Sem>, es: seq<Event>, status: Status, i: nat)
    requires ValidRequest(r, |sems|) && Bounded(sems, sentinel) && Fair(r, sentinel, es)
    requires i < |r.list| && HasFailed(r, sems, i) && Finishes(r, sentinel, sems, es, status)
    ensures status == Aborted
  {
    RunKnows(r, sentinel, Initial(sems), es);
    RunBegan(r, sentinel, Initial(sems), es, sems);
    GrowthKeeps(r, sems, Run(r, sentinel, Initial(sems), es).began, 0, i);
  }

  /** A wait is aborted only if one of its semaphores has failed. */
  lemma {:induction false} AbortedMeansFailed(r: Request, sentinel: nat, sems: seq<Sem>, es: seq<Event>)
    requires ValidRequest(r, |sems|) && Bounded(sems, sentinel) && Fair(r, sentinel, es)
    requires Finishes(r, sentinel, sems, es, Aborted)
    ensures exists j :: 0 <= j < |r.list| && HasFailed(r, Run(r, sentinel, Initial(sems), es).sems, j)
  {
    RunKnows(r, sentinel, Initial(sems), es);
  }

  /** A wait reports a missed deadline only if at one moment, when its last look began, none of its semaphores had failed
      and some, or all, were below their payloads. */
  lemma {:induction false} DeadlineMeansTooEarly(r: Request, sentinel: nat, sems: seq<Sem>, es: seq<Event>)
    requires ValidRequest(r, |sems|) && Bounded(sems, sentinel) && Fair(r, sentinel, es)
    requires Finishes(r, sentinel, sems, es, DeadlineExceeded)
    ensures var t := Run(r, sentinel, Initial(sems), es);
            && AllGrow(t.began, t.sems)
            && (forall j :: 0 <= j < |r.list| ==> !HasFailed(r, t.began, j))
            && (if r.mode.All? then exists j :: 0 <= j < |r.list| && !Reached(r, t.began, j)
                else forall j :: 0 <= j < |r.list| ==> !Reached(r, t.began, j))
  {
    RunKnows(r, sentinel, Initial(sems), es);
  }

  /** There is a run in which the wait blocks and then reports a missed deadline. */
  ghost predicate MayMissDeadline(r: Request, sentinel: nat, sems: seq<Sem>)
    requires ValidRequest(r, |sems|)
  {
    exists es :: Fair(r, sentinel, es) && Finishes(r, sentinel, sems, es, DeadlineExceeded)
                 && Run(r, sentinel, Initial(sems), es).blocked
  }

  /** A wait that blocked never misses a deadline, unless it is for one semaphore that is not ready and with a finite
      timeout: then it can. The list waits ignore the timeout they are given. */
  lemma WhenDeadlinesAreMissed(r: Request, sentinel: nat, sems: seq<Sem>)
    requires ValidRequest(r, |sems|) && Bounded(sems, sentinel) && Fair(r, sentinel, [])
    ensures MayMissDeadline(r, sentinel, sems) <==> |r.list| == 1 && r.timeout.Finite? && !Ready(r, sems, 0)
  {
    if MayMissDeadline(r, sentinel, sems) { MissedOnlyIf(r, sentinel, sems); }
    if |r.list| == 1 && r.timeout.Finite? && !Ready(r, sems, 0) { MissesIf(r, sentinel, sems); }
  }

  lemma MissedOnlyIf(r: Request, sentinel: nat, sems: seq<Sem>)
    requires ValidRequest(r, |sems|) && Bounded(sems, sentinel) && MayMissDeadline(r, sentinel, sems)
    ensures |r.list| == 1 && r.timeout.Finite? && !Ready(r, sems, 0)
  {
    var es :| Fair(r, sentinel, es) && Finishes(r, sentinel, sems, es, DeadlineExceeded)
        && Run(r, sentinel, Initial(sems), es).blocked;
    RunKnows(r, sentinel, Initial(sems), es);
    if |r.list| == 1 {
      NotReadyAtFirst(r, sentinel, sems, es);
    }
  }

  /** It looks, blocks, and is woken by its timeout. */
  lemma MissesIf(r: Request, sentinel: nat, sems: seq<Sem>)
    requires ValidRequest(r, |sems|) && Fair(r, sentinel, [])
    requires |r.list| == 1 && r.timeout.Finite? && !Ready(r, sems, 0)
    ensures MayMissDeadline(r, sentinel, sems)
  {
    var es := [Step, Step, Expire, Step];
    var s1 := State(sems, Check, false, sems);
    var s2 := State(sems, Watch, true, sems);
    var s3 := State(sems, Recheck, true, sems);
    var end := State(sems, Done(DeadlineExceeded), true, sems);
    assert Next(r, sentinel, Initial(sems), Step) == s1 && Next(r, sentinel, s1, Step) == s2;
    assert Next(r, sentinel, s2, Expire) == s3 && Next(r, sentinel, s3, Step) == end;
    hide Next;
    hide Ready;
    assert es[1..] == [Step, Expire, Step] && es[1..][1..] == [Expire, Step] && es[1..][1..][1..] == [Step];
    assert Run(r, sentinel, s3, [Step]) == end by { assert [Step][1..] == []; }
    assert Run(r, sentinel, s2, [Expire, Step]) == end;
    assert Run(r, sentinel, s1, [Step, Expire, Step]) == end;
    assert Run(r, sentinel, Initial(sems), es) == end;
  }

  lemma NotReadyAtFirst(r: Request, sentinel: nat, sems: seq<Sem>, es: seq<Event>)
    requires ValidRequest(r, |sems|) && Bounded(sems, sentinel) && Fair(r, sentinel, es) && |r.list| == 1
    requires Finishes(r, sentinel, sems, es, DeadlineExceeded)
    ensures !Ready(r, sems, 0)
  {
    RunKnows(r, sentinel, Initial(sems), es);
    RunBegan(r, sentinel, Initial(sems), es, sems);
    GrowthKeeps(r, sems, Run(r, sentinel, Initial(sems), es).began, 0, 0);
  }

  lemma {:induction false} RunBegan(r: Request, sentinel: nat, s: State, es: seq<Event>, sems: seq<Sem>)
    requires ValidRequest(r, |s.sems|) && Bounded(s.sems, sentinel) && Fair(r, sentinel, es)
    requires AllGrow(sems, s.sems) && AllGrow(sems, s.began)
    ensures AllGrow(sems, Run(r, sentinel, s, es).began)
    decreases |es|
  {
    if es != [] {
      EventGrows(r, sentinel, s, es[0]);
      GrowthIsTransitive(sems, s.sems, Next(r, sentinel, s, es[0]).sems);
      RunBegan(r, sentinel, Next(r, sentinel, s, es[0]), es[1..], sems);
    }
  }

  /** A semaphore that has not failed reaches a payload when it is signalled to it, and not before. */
  lemma SignalReaches(r: Request, sentinel: nat, s: State, i: nat, value: nat)
    requires ValidRequest(r, |s.sems|) && i < |r.list|
    ensures Reached(r, Next(r, sentinel, s, Signal(r.list[i], value)).sems, i) <==>
              Reached(r, s.sems, i) || value >= r.payloads[i]
  {}

  // -------------------------------------------------------------------------
  // Waits return

  /** How many steps a poll may still need. */
  ghost function PollSteps(r: Request, s: State): int {
    var n := |r.list|;
    match s.pc
    case Entry => n + 3
    case Collect(i, _, _, _) => n - i + 1
    case Check => 1
    case Done(_) => 0
    case _ => 0
  }

  /** Where a poll can be: it never looks twice, and never goes to sleep. */
  ghost predicate Polls(r: Request, s: State) {
    && r.timeout.Immediate? && !s.blocked
    && match s.pc
       case Collect(i, _, _, _) => i <= |r.list|
       case Check => |r.list| == 1
       case Entry => true
       case Done(_) => true
       case _ => false
  }

  lemma PollTurn(r: Request, s: State)
    requires ValidRequest(r, |s.sems|) && Polls(r, s)
    ensures Polls(r, Turn(r, s))
    ensures s.pc.Done? || PollSteps(r, Turn(r, s)) < PollSteps(r, s)
  {}

  /** A wait with an immediate timeout returns after a bounded number of its own steps without blocking, whatever the
      semaphores do. */
  lemma {:induction false} PollReturns(r: Request, sentinel: nat, s: State, es: seq<Event>)
    requires ValidRequest(r, |s.sems|) && Polls(r, s) && Steps(es) >= PollSteps(r, s)
    ensures Run(r, sentinel, s, es).pc.Done? && !Run(r, sentinel, s, es).blocked
    decreases |es|
  {
    if es != [] {
      if es[0].Step? { PollTurn(r, s); }
      PollReturns(r, sentinel, Next(r, sentinel, s, es[0]), es[1..]);
    }
  }

  /** Nothing is left to wait for; `j` is a semaphore that is ready. */
  ghost predicate Awaited(r: Request, sems: seq<Sem>, j: nat)
    requires ValidRequest(r, |sems|)
  {
    if r.mode.All? then forall i :: 0 <= i < |r.list| ==> Ready(r, sems, i)
    else r.list != [] ==> j < |r.list| && Ready(r, sems, j)
  }

  /** How many of its own steps the thread may still need once there is nothing left to wait for. */
  ghost function Remaining(r: Request, s: State, j: nat): int {
    var n := |r.list|;
    var scan := if r.mode.All? then n else j;
    match s.pc
    case Entry => scan + n + 5
    case Scan(i) =>
      if r.mode.All? then (n - i + 1) + (n + 1)
      else if i <= j then (j - i + 1) + (n + 1)
      else (n - i + 1) + (j + 1) + (n + 1)
    case Collect(i, _, _, _) => n - i + 1
    case Check => 3
    case Watch => 2
    case Recheck => 1
    case Done(_) => 0
  }

  lemma TurnAdvances(r: Request, s: State, j: nat)
    requires ValidRequest(r, |s.sems|) && Knows(r, s) && Awaited(r, s.sems, j) && !s.pc.Done?
    ensures Remaining(r, Turn(r, s), j) < Remaining(r, s, j)
  {
    hide Reached;
    hide HasFailed;
  }

  ghost function Steps(es: seq<Event>): nat
    decreases |es|
  {
    if es == [] then 0 else (if es[0].Step? then 1 else 0) + Steps(es[1..])
  }

  lemma GrowthKeepsAwaited(r: Request, a: seq<Sem>, b: seq<Sem>, j: nat)
    requires ValidRequest(r, |a|) && AllGrow(a, b) && Awaited(r, a, j)
    ensures Awaited(r, b, j)
  {
    forall i | 0 <= i < |r.list| ensures Ready(r, a, i) ==> Ready(r, b, i) { GrowthKeeps(r, a, b, 0, i); }
  }

  /** Once its semaphores are ready a wait returns after a bounded number of its own steps, whatever the others do. */
  lemma {:induction false} ReadyWaitReturns(r: Request, sentinel: nat, s: State, es: seq<Event>, j: nat)
    requires ValidRequest(r, |s.sems|) && Knows(r, s) && Bounded(s.sems, sentinel) && Fair(r, sentinel, es)
    requires Awaited(r, s.sems, j) && Steps(es) >= Remaining(r, s, j)
    ensures Run(r, sentinel, s, es).pc.Done?
    decreases |es|
  {
    hide Knows;
    hide Awaited;
    if es == [] {
      RemainingIsPositive(r, s, j);
    } else {
      var t := Next(r, sentinel, s, es[0]);
      EventGrows(r, sentinel, s, es[0]);
      EventKnows(r, sentinel, s, es[0]);
      GrowthKeepsAwaited(r, s.sems, t.sems, j);
      if es[0].Step? && !s.pc.Done? { TurnAdvances(r, s, j); }
      ReadyWaitReturns(r, sentinel, t, es[1..], j);
    }
  }

  lemma RemainingIsPositive(r: Request, s: State, j: nat)
    requires ValidRequest(r, |s.sems|) && Knows(r, s) && Awaited(r, s.sems, j)
    ensures Remaining(r, s, j) > 0 || s.pc.Done?
  {
    hide Reached;
    hide HasFailed;
  }
}
