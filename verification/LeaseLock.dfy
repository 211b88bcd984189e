/**
 * A lock that is a Redis key with an expiry: SET NX PX to take it, a
 * compare-and-delete script to give it back, a challenger that polls for it and
 * then deletes it outright, and processes that may be killed at any point.
 *
 * Processes and the clock interleave freely; times are in milliseconds.
 */
module LeaseLock {
  import opened Wrappers
  import opened Basics

  const POLL: real := 50.0

  // ---- the key ----

  datatype Lease = Lease(token: string, deadline: real)

  predicate Live(key: Option<Lease>, now: real) {
    key.Some? && now < key.value.deadline
  }

  function SetNx(key: Option<Lease>, now: real, token: string, ttl: real): Option<Lease> {
    if Live(key, now) then key else Some(Lease(token, now + ttl))
  }

  function CompareAndDelete(key: Option<Lease>, now: real, token: string): Option<Lease> {
    if Live(key, now) && key.value.token == token then None else key
  }

  // ---- processes ----

  datatype Kind = Holder | Challenger(timeout: real)

  datatype Process = Process(kind: Kind, token: string, ttl: real)

  /** The processes, and how much later than planned any poll may happen. */
  datatype System = System(procs: seq<Process>, slack: real)

  datatype Phase =
    | Idle
    | Polling(start: real, lastPoll: real, polls: nat)
    | Inside(until: real)
    | Finished(acquired: bool)
    | Killed(held: Option<real>)

  /** `lastDeadline` is when the lease most recently taken by anyone runs out. */
  datatype State = State(now: real, key: Option<Lease>, phases: seq<Phase>, lastDeadline: real)

  datatype Label =
    | Tick(dt: real)
    | Start(p: nat)
    | TrySet(p: nat)
    | Release(p: nat)
    | Delete(p: nat)
    | GiveUp(p: nat)
    | Kill(p: nat)

  predicate ValidSystem(c: System) {
    && c.slack >= 0.0
    && (forall p, q :: 0 <= p < q < |c.procs| ==> c.procs[p].token != c.procs[q].token)
    && (forall p :: 0 <= p < |c.procs| ==> c.procs[p].ttl > 0.0)
  }

  predicate Init(c: System, s: State) {
    && s.now == 0.0 && s.key == None && s.lastDeadline == 0.0
    && |s.phases| == |c.procs|
    && forall p :: 0 <= p < |s.phases| ==> s.phases[p] == Idle
  }

  predicate Enabled(c: System, s: State, l: Label)
    requires |s.phases| == |c.procs|
  {
    match l
    case Tick(dt) =>
      // A sleeping challenger wakes up in time for its next poll.
      dt >= 0.0 && forall p :: 0 <= p < |s.phases| && s.phases[p].Polling? ==>
        s.now + dt <= s.phases[p].lastPoll + POLL + c.slack
    case Start(p) =>
      p < |s.phases| && c.procs[p].kind.Challenger? && s.phases[p].Idle?
    case TrySet(p) =>
      p < |s.phases| &&
      (match c.procs[p].kind
       case Holder => s.phases[p].Idle?
       case Challenger(timeout) =>
         && s.phases[p].Polling? && s.now < s.phases[p].start + timeout
         && (s.phases[p].polls == 0 || s.phases[p].lastPoll + POLL <= s.now))
    case Release(p) =>
      p < |s.phases| && c.procs[p].kind.Holder? && s.phases[p].Inside?
    case Delete(p) =>
      p < |s.phases| && c.procs[p].kind.Challenger? && s.phases[p].Inside?
    case GiveUp(p) =>
      p < |s.phases| && c.procs[p].kind.Challenger? && s.phases[p].Polling?
      && s.phases[p].start + c.procs[p].kind.timeout <= s.now
    case Kill(p) =>
      p < |s.phases| && !s.phases[p].Finished? && !s.phases[p].Killed?
  }

  function Move(s: State, p: nat, phase: Phase): State
    requires p < |s.phases|
  {
    s.(phases := s.phases[p := phase])
  }

  function Next(c: System, s: State, l: Label): State
    requires |s.phases| == |c.procs| && Enabled(c, s, l)
  {
    match l
    case Tick(dt) => s.(now := s.now + dt)
    case Start(p) => Move(s, p, Polling(s.now, s.now, 0))
    case TrySet(p) =>
      var me := c.procs[p];
      if !Live(s.key, s.now) then
        Move(s, p, Inside(s.now + me.ttl))
          .(key := SetNx(s.key, s.now, me.token, me.ttl), lastDeadline := s.now + me.ttl)
      else if me.kind.Holder? then
        Move(s, p, Finished(false))
      else
        Move(s, p, s.phases[p].(lastPoll := s.now, polls := s.phases[p].polls + 1))
    case Release(p) => Move(s, p, Finished(true)).(key := CompareAndDelete(s.key, s.now, c.procs[p].token))
    case Delete(p) => Move(s, p, Finished(true)).(key := None)
    case GiveUp(p) => Move(s, p, Finished(false))
    case Kill(p) => Move(s, p, Killed(if s.phases[p].Inside? then Some(s.phases[p].until) else None))
  }

  /** A challenger deletes the key before its own lease has run out. */
  predicate Prompt(s: State, l: Label) {
    l.Delete? && l.p < |s.phases| && s.phases[l.p].Inside? ==> s.now < s.phases[l.p].until
  }

  ghost predicate IsRun(c: System, ss: seq<State>, ls: seq<Label>) {
    && |ss| == |ls| + 1
    && Init(c, ss[0])
    && (forall i :: 0 <= i < |ss| ==> |ss[i].phases| == |c.procs|)
    && (forall i :: 0 <= i < |ls| ==> Enabled(c, ss[i], ls[i]) && ss[i + 1] == Next(c, ss[i], ls[i]))
  }

  ghost predicate PromptRun(ss: seq<State>, ls: seq<Label>)
    requires |ss| == |ls| + 1
  {
    forall i :: 0 <= i < |ls| ==> Prompt(ss[i], ls[i])
  }

  /** Every plain delete comes before the deleter's own lease has been over for `late`. */
  ghost predicate DeletesWithin(ss: seq<State>, ls: seq<Label>, late: real)
    requires |ss| == |ls| + 1
  {
    forall i :: 0 <= i < |ls| && ls[i].Delete? && ls[i].p < |ss[i].phases| && ss[i].phases[ls[i].p].Inside? ==>
      ss[i].now < ss[i].phases[ls[i].p].until + late
  }

  /** A run may go on with any step that is enabled in its last state. */
  lemma Extend(c: System, ss: seq<State>, ls: seq<Label>, l: Label) returns (ss': seq<State>, ls': seq<Label>)
    requires IsRun(c, ss, ls) && Enabled(c, ss[|ls|], l)
    ensures IsRun(c, ss', ls') && ss' == ss + [Next(c, ss[|ls|], l)] && ls' == ls + [l]
  {
    ss', ls' := ss + [Next(c, ss[|ls|], l)], ls + [l];
    forall i | 0 <= i < |ls'|
      ensures Enabled(c, ss'[i], ls'[i]) && ss'[i + 1] == Next(c, ss'[i], ls'[i])
    {
      assert ss'[i] == ss[i];
    }
  }

  // ---- mutual exclusion ----

  predicate InLease(s: State, p: nat)
    requires p < |s.phases|
  {
    s.phases[p].Inside? && s.now < s.phases[p].until
  }

  /** The key bears the lease of every process that is inside an unexpired one. */
  predicate KeyGuards(c: System, s: State)
    requires |s.phases| == |c.procs|
  {
    forall p :: 0 <= p < |s.phases| && InLease(s, p) ==>
      s.key == Some(Lease(c.procs[p].token, s.phases[p].until))
  }

  predicate Exclusive(s: State) {
    forall p, q :: 0 <= p < q < |s.phases| ==> !(InLease(s, p) && InLease(s, q))
  }

  lemma GuardedIsExclusive(c: System, s: State)
    requires ValidSystem(c) && |s.phases| == |c.procs| && KeyGuards(c, s)
    ensures Exclusive(s)
  {
  }

  /** A plain delete keeps the key honest exactly when nobody else is inside a lease. */
  lemma DeleteSafeIff(c: System, s: State, p: nat)
    requires ValidSystem(c) && |s.phases| == |c.procs| && KeyGuards(c, s)
    requires Enabled(c, s, Delete(p))
    ensures KeyGuards(c, Next(c, s, Delete(p))) <==> forall q :: 0 <= q < |s.phases| && q != p ==> !InLease(s, q)
    ensures s.now < s.phases[p].until ==> KeyGuards(c, Next(c, s, Delete(p)))
  {
    var s' := Next(c, s, Delete(p));
    assert forall q :: 0 <= q < |s.phases| ==> (InLease(s', q) <==> q != p && InLease(s, q));
    if s.now < s.phases[p].until {
      GuardedIsExclusive(c, s);
      assert InLease(s, p);
    }
  }

  lemma StepKeepsGuard(c: System, s: State, l: Label)
    requires ValidSystem(c) && |s.phases| == |c.procs|
    requires Enabled(c, s, l) && Prompt(s, l) && KeyGuards(c, s)
    ensures KeyGuards(c, Next(c, s, l))
  {
    var s' := Next(c, s, l);
    forall q | 0 <= q < |s'.phases| && InLease(s', q)
      ensures s'.key == Some(Lease(c.procs[q].token, s'.phases[q].until))
    {
      if !l.Tick? && q == l.p {
        assert l.TrySet?;
      } else {
        assert s'.phases[q] == s.phases[q] && InLease(s, q);
        if l.Delete? {
          DeleteSafeIff(c, s, l.p);
        }
      }
    }
  }

  lemma {:induction false} RunKeepsGuard(c: System, ss: seq<State>, ls: seq<Label>, i: nat)
    requires ValidSystem(c) && IsRun(c, ss, ls) && PromptRun(ss, ls) && i < |ss|
    ensures KeyGuards(c, ss[i])
  {
    if i > 0 {
      RunKeepsGuard(c, ss, ls, i - 1);
      StepKeepsGuard(c, ss[i - 1], ls[i - 1]);
    }
  }

  /**
   * Over every interleaving, with any number of processes and any of them
   * killed at any point, at most one is ever inside an unexpired lease.
   */
  lemma MutualExclusion(c: System, ss: seq<State>, ls: seq<Label>, i: nat)
    requires ValidSystem(c) && IsRun(c, ss, ls) && PromptRun(ss, ls) && i < |ss|
    ensures Exclusive(ss[i])
  {
    RunKeepsGuard(c, ss, ls, i);
    GuardedIsExclusive(c, ss[i]);
  }

  /**
   * In every run, promptly deleting or not: a key bears the token of a process
   * that is inside with just that deadline, or that has come to its end.
   */
  predicate KeyIsOwned(c: System, s: State)
    requires |s.phases| == |c.procs|
  {
    s.key.Some? ==> forall p :: 0 <= p < |s.phases| && c.procs[p].token == s.key.value.token ==>
      match s.phases[p]
      case Inside(until) => until == s.key.value.deadline
      case Finished(_) => true
      case Killed(_) => true
      case _ => false
  }

  lemma StepKeepsOwned(c: System, s: State, l: Label)
    requires ValidSystem(c) && |s.phases| == |c.procs| && Enabled(c, s, l) && KeyIsOwned(c, s)
    ensures KeyIsOwned(c, Next(c, s, l))
  {
  }

  lemma {:induction false} RunKeepsOwned(c: System, ss: seq<State>, ls: seq<Label>, i: nat)
    requires ValidSystem(c) && IsRun(c, ss, ls) && i < |ss|
    ensures KeyIsOwned(c, ss[i])
  {
    if i > 0 {
      RunKeepsOwned(c, ss, ls, i - 1);
      StepKeepsOwned(c, ss[i - 1], ls[i - 1]);
    }
  }

  /**
   * In every run, however late its deletes: what a holder gives back is exactly
   * its own lease, still running; any other key it leaves as it is.
   */
  lemma ReleaseTakesOwnLease(c: System, ss: seq<State>, ls: seq<Label>, i: nat)
    requires ValidSystem(c) && IsRun(c, ss, ls) && i < |ls| && ls[i].Release?
    ensures var p, s := ls[i].p, ss[i];
            ss[i + 1].key == if InLease(s, p) && s.key == Some(Lease(c.procs[p].token, s.phases[p].until)) then None else s.key
  {
    RunKeepsOwned(c, ss, ls, i);
  }

  /**
   * A holder that gives the lock back, however late, never takes it away from
   * a process that has acquired it since.
   */
  lemma ReleaseSparesOthers(c: System, ss: seq<State>, ls: seq<Label>, i: nat, q: nat)
    requires ValidSystem(c) && IsRun(c, ss, ls) && PromptRun(ss, ls)
    requires i < |ls| && ls[i].Release? && q < |c.procs| && q != ls[i].p
    requires InLease(ss[i], q)
    ensures InLease(ss[i + 1], q) && ss[i + 1].key == ss[i].key == Some(Lease(c.procs[q].token, ss[i].phases[q].until))
  {
    RunKeepsGuard(c, ss, ls, i);
    assert c.procs[ls[i].p].token != c.procs[q].token;
  }

  const LATE: System :=
    System([Process(Challenger(1000.0), "a", 10.0), Process(Holder, "b", 100.0), Process(Holder, "c", 100.0)], 0.0)

  const LATE_STATES: seq<State> := [
    State(0.0, None, [Idle, Idle, Idle], 0.0),
    State(0.0, None, [Polling(0.0, 0.0, 0), Idle, Idle], 0.0),
    State(0.0, Some(Lease("a", 10.0)), [Inside(10.0), Idle, Idle], 10.0),
    State(20.0, Some(Lease("a", 10.0)), [Inside(10.0), Idle, Idle], 10.0),
    State(20.0, Some(Lease("b", 120.0)), [Inside(10.0), Inside(120.0), Idle], 120.0),
    State(20.0, None, [Finished(true), Inside(120.0), Idle], 120.0),
    State(20.0, Some(Lease("c", 120.0)), [Finished(true), Inside(120.0), Inside(120.0)], 120.0)
  ]

  const LATE_LABELS: seq<Label> := [Start(0), TrySet(0), Tick(20.0), TrySet(1), Delete(0), TrySet(2)]

  lemma LateStep(i: nat)
    requires i < 6
    ensures |LATE_STATES[i].phases| == 3 && Enabled(LATE, LATE_STATES[i], LATE_LABELS[i])
    ensures LATE_STATES[i + 1] == Next(LATE, LATE_STATES[i], LATE_LABELS[i])
  {
    if i < 3 {
      if i == 0 {} else if i == 1 {} else {}
    } else {
      if i == 3 {} else if i == 4 {} else {}
    }
  }

  /**
   * A late plain delete is the one way to break exclusion: a challenger whose
   * lease of 10 ms ran out deletes, at 20 ms, the key that a second process
   * holds by then, and a third walks in.
   */
  lemma LateDeleteBreaksExclusion()
    ensures ValidSystem(LATE) && IsRun(LATE, LATE_STATES, LATE_LABELS) && !PromptRun(LATE_STATES, LATE_LABELS)
    ensures !Exclusive(LATE_STATES[6])
  {
    forall i | 0 <= i < 6
      ensures Enabled(LATE, LATE_STATES[i], LATE_LABELS[i])
      ensures LATE_STATES[i + 1] == Next(LATE, LATE_STATES[i], LATE_LABELS[i])
    {
      LateStep(i);
    }
    assert !Prompt(LATE_STATES[4], LATE_LABELS[4]);
    assert InLease(LATE_STATES[6], 1) && InLease(LATE_STATES[6], 2);
  }

  // ---- what each process can come to ----

  /** What a step can make of a process, and what it can make of the key with it. */
  ghost predicate StepMeans(c: System, s: State, l: Label, s': State, p: nat)
    requires p < |c.procs| == |s.phases| == |s'.phases|
  {
    var me, was, now := c.procs[p], s.phases[p], s'.phases[p];
    && (now.Inside? && !was.Inside? ==>
          now.until == s.now + me.ttl && s'.key == Some(Lease(me.token, s.now + me.ttl)) && !Live(s.key, s.now))
    && (now == Finished(true) && was != now ==> was.Inside?)
    && (now == Finished(false) && was != now ==>
          if me.kind.Holder? then was.Idle? && Live(s.key, s.now)
          else was.Polling? && was.start + me.kind.timeout <= s.now)
    && (now.Killed? && !was.Killed? ==> now.held == if was.Inside? then Some(was.until) else None)
    && (now.Polling? ==> me.kind.Challenger? && (was.Idle? || (was.Polling? && was.start == now.start)))
    && (now.Idle? ==> was.Idle?)
    && (was.Inside? && now.Inside? ==> was == now)
  }

  /** In every run every step does to every process what it may, and nothing else. */
  lemma EveryStepMeans(c: System, ss: seq<State>, ls: seq<Label>, i: nat, p: nat)
    requires ValidSystem(c) && IsRun(c, ss, ls) && i < |ls| && p < |c.procs|
    ensures StepMeans(c, ss[i], ls[i], ss[i + 1], p)
  {
    RunOnTime(c, ss, ls, i);
  }

  /** A process ends as having acquired only after it has been inside. */
  lemma {:induction false} AcquiredWasInside(c: System, ss: seq<State>, ls: seq<Label>, i: nat, p: nat) returns (j: nat)
    requires ValidSystem(c) && IsRun(c, ss, ls) && i < |ss| && p < |c.procs| && ss[i].phases[p] == Finished(true)
    ensures j < i && ss[j].phases[p].Inside?
  {
    EveryStepMeans(c, ss, ls, i - 1, p);
    j := i - 1;
    if !ss[j].phases[p].Inside? {
      j := AcquiredWasInside(c, ss, ls, i - 1, p);
    }
  }

  // ---- exactly when deletes may be late ----

  /** A process that can come to hold the key at all. */
  predicate CanEnter(c: System, p: nat)
    requires p < |c.procs|
  {
    c.procs[p].kind.Challenger? ==> c.procs[p].kind.timeout > 0.0
  }

  /** A challenger and two more processes, each able to take the key. */
  predicate Trio(c: System, p: nat, q: nat, r: nat) {
    && p < |c.procs| && q < |c.procs| && r < |c.procs| && p != q && p != r && q != r
    && c.procs[p].kind.Challenger? && CanEnter(c, p) && CanEnter(c, q) && CanEnter(c, r)
  }

  ghost predicate Crowded(c: System) {
    exists p, q, r :: Trio(c, p, q, r)
  }

  /** Whoever is or was inside was able to enter, and challengers have not started in the future. */
  predicate OnlyAbleInside(c: System, s: State)
    requires |s.phases| == |c.procs|
  {
    forall p :: 0 <= p < |s.phases| ==>
      && (s.phases[p].Inside? || s.phases[p] == Finished(true) ==> CanEnter(c, p))
      && (s.phases[p].Polling? ==> s.phases[p].start <= s.now)
  }

  /** A challenger that has deleted the key is out for good. */
  predicate SomeoneDeleted(c: System, s: State)
    requires |s.phases| == |c.procs|
  {
    exists p :: 0 <= p < |s.phases| && s.phases[p] == Finished(true) && c.procs[p].kind.Challenger?
  }

  lemma StepKeepsDeleted(c: System, s: State, l: Label)
    requires |s.phases| == |c.procs| && Enabled(c, s, l) && SomeoneDeleted(c, s)
    ensures SomeoneDeleted(c, Next(c, s, l))
  {
    var p :| 0 <= p < |s.phases| && s.phases[p] == Finished(true) && c.procs[p].kind.Challenger?;
    assert Next(c, s, l).phases[p] == Finished(true);
  }

  lemma StepMayDelete(c: System, s: State, l: Label)
    requires ValidSystem(c) && |s.phases| == |c.procs| && Enabled(c, s, l)
    requires KeyGuards(c, s) || SomeoneDeleted(c, s)
    ensures KeyGuards(c, Next(c, s, l)) || SomeoneDeleted(c, Next(c, s, l))
  {
    if SomeoneDeleted(c, s) {
      StepKeepsDeleted(c, s, l);
    } else if l.Delete? {
      assert Next(c, s, l).phases[l.p] == Finished(true);
    } else {
      StepKeepsGuard(c, s, l);
    }
  }

  lemma {:induction false} RunMayDelete(c: System, ss: seq<State>, ls: seq<Label>, i: nat)
    requires ValidSystem(c) && IsRun(c, ss, ls) && i < |ss|
    ensures OnlyAbleInside(c, ss[i])
    ensures KeyGuards(c, ss[i]) || SomeoneDeleted(c, ss[i])
  {
    if i > 0 {
      RunMayDelete(c, ss, ls, i - 1);
      StepMayDelete(c, ss[i - 1], ls[i - 1]);
    }
  }

  /** Without three such processes there is nobody to be let in by a late delete. */
  lemma UncrowdedIsExclusive(c: System, ss: seq<State>, ls: seq<Label>, i: nat)
    requires ValidSystem(c) && IsRun(c, ss, ls) && i < |ss| && !Crowded(c)
    ensures Exclusive(ss[i])
  {
    var s := ss[i];
    RunMayDelete(c, ss, ls, i);
    if KeyGuards(c, s) {
      GuardedIsExclusive(c, s);
    } else {
      var p :| 0 <= p < |s.phases| && s.phases[p] == Finished(true) && c.procs[p].kind.Challenger?;
      forall q, r | 0 <= q < r < |s.phases|
        ensures !(InLease(s, q) && InLease(s, r))
      {
        assert InLease(s, q) && InLease(s, r) ==> Trio(c, p, q, r);
      }
    }
  }

  /** An idle process enters when the key is free; everything else stays as it is. */
  lemma Enter(c: System, ss: seq<State>, ls: seq<Label>, x: nat, late: real)
    returns (ss': seq<State>, ls': seq<Label>)
    requires IsRun(c, ss, ls) && DeletesWithin(ss, ls, late)
    requires x < |c.procs| && CanEnter(c, x) && ss[|ls|].phases[x].Idle? && !Live(ss[|ls|].key, ss[|ls|].now)
    ensures IsRun(c, ss', ls') && DeletesWithin(ss', ls', late)
    ensures var s, s' := ss[|ls|], ss'[|ls'|];
            && s'.now == s.now && s'.phases == s.phases[x := Inside(s.now + c.procs[x].ttl)]
            && s'.key == Some(Lease(c.procs[x].token, s.now + c.procs[x].ttl))
  {
    ss', ls' := ss, ls;
    if c.procs[x].kind.Challenger? {
      ss', ls' := Extend(c, ss', ls', Start(x));
    }
    ss', ls' := Extend(c, ss', ls', TrySet(x));
  }

  lemma FreshRun(c: System) returns (ss: seq<State>, ls: seq<Label>)
    ensures IsRun(c, ss, ls) && ls == [] && |ss| == 1
  {
    ss, ls := [State(0.0, None, seq(|c.procs|, _ => Idle), 0.0)], [];
  }

  /**
   * The first takes the key and lets its lease run out, the second takes it, the
   * first deletes it that very moment, and the third walks in.
   */
  lemma LateDeleteLetsIn(c: System, p: nat, q: nat, r: nat, late: real) returns (ss: seq<State>, ls: seq<Label>)
    requires ValidSystem(c) && Trio(c, p, q, r) && late > 0.0
    ensures IsRun(c, ss, ls) && DeletesWithin(ss, ls, late) && !Exclusive(ss[|ls|])
  {
    ss, ls := FreshRun(c);
    ss, ls := Enter(c, ss, ls, p, late);
    ss, ls := Extend(c, ss, ls, Tick(c.procs[p].ttl));
    ss, ls := Enter(c, ss, ls, q, late);
    ss, ls := Extend(c, ss, ls, Delete(p));
    ss, ls := Enter(c, ss, ls, r, late);
    var s := ss[|ls|];
    assert InLease(s, q) && InLease(s, r);
    assert q < r || r < q;
  }

  /** No two processes are ever inside unexpired leases in runs whose deletes are at most so late. */
  ghost predicate ExclusiveWithin(c: System, late: real) {
    forall ss, ls, i :: IsRun(c, ss, ls) && DeletesWithin(ss, ls, late) && 0 <= i < |ss| ==> Exclusive(ss[i])
  }

  /**
   * Exactly when the lock excludes: either every plain delete comes before the
   * deleter's own lease is over, or there are no three processes of which one
   * deletes. A holder and one challenger exclude each other in any case.
   */
  lemma ExclusiveWithinIff(c: System, late: real)
    requires ValidSystem(c)
    ensures ExclusiveWithin(c, late) <==> late <= 0.0 || !Crowded(c)
  {
    if late <= 0.0 || !Crowded(c) {
      forall ss, ls, i | IsRun(c, ss, ls) && DeletesWithin(ss, ls, late) && 0 <= i < |ss|
        ensures Exclusive(ss[i])
      {
        if late <= 0.0 {
          MutualExclusion(c, ss, ls, i);
        } else {
          UncrowdedIsExclusive(c, ss, ls, i);
        }
      }
    } else {
      var p, q, r :| Trio(c, p, q, r);
      var ss, ls := LateDeleteLetsIn(c, p, q, r, late);
      assert !Exclusive(ss[|ls|]);
    }
  }

  // ---- recovery after a crash ----

  predicate PollsOnTime(c: System, s: State, p: nat)
    requires p < |s.phases| == |c.procs|
  {
    s.phases[p].Polling? && c.procs[p].kind.Challenger? ==>
      var Polling(start, lastPoll, polls) := s.phases[p];
      && start <= lastPoll <= s.now <= lastPoll + POLL + c.slack
      && (polls == 0 ==> lastPoll == start)
      && (polls > 0 ==> lastPoll < s.lastDeadline && lastPoll < start + c.procs[p].kind.timeout)
      && (polls > 0 ==> (polls - 1) as real * POLL <= lastPoll - start)
  }

  predicate OnTime(c: System, s: State)
    requires |s.phases| == |c.procs|
  {
    && s.now >= 0.0
    && (Live(s.key, s.now) ==> s.key.value.deadline == s.lastDeadline)
    && (forall p :: 0 <= p < |s.phases| && s.phases[p].Polling? ==> c.procs[p].kind.Challenger?)
    && forall p :: 0 <= p < |s.phases| ==> PollsOnTime(c, s, p)
  }

  lemma StepOnTime(c: System, s: State, l: Label)
    requires ValidSystem(c) && |s.phases| == |c.procs| && Enabled(c, s, l) && OnTime(c, s)
    ensures OnTime(c, Next(c, s, l))
  {
    var s' := Next(c, s, l);
    forall q | 0 <= q < |s'.phases|
      ensures PollsOnTime(c, s', q)
    {
      assert PollsOnTime(c, s, q);
      if !l.Tick? && q != l.p {
        assert s'.phases[q] == s.phases[q];
      }
    }
  }

  lemma {:induction false} RunOnTime(c: System, ss: seq<State>, ls: seq<Label>, i: nat)
    requires ValidSystem(c) && IsRun(c, ss, ls) && i < |ss|
    ensures OnTime(c, ss[i])
  {
    if i > 0 {
      RunOnTime(c, ss, ls, i - 1);
      StepOnTime(c, ss[i - 1], ls[i - 1]);
    }
  }

  /**
   * Whoever took the lock last and whatever became of them, a challenger is
   * still polling at most one poll interval (and the slack) after that lease
   * has run out, or after its own time is up; and it has polled only so often.
   */
  lemma PollingEnds(c: System, ss: seq<State>, ls: seq<Label>, i: nat, p: nat)
    requires ValidSystem(c) && IsRun(c, ss, ls) && i < |ss| && p < |c.procs|
    requires ss[i].phases[p].Polling?
    ensures c.procs[p].kind.Challenger?
    ensures var Polling(start, _, polls) := ss[i].phases[p];
            var timeout := c.procs[p].kind.timeout;
            && ss[i].now <= Max(start, ss[i].lastDeadline) + 50.0 + c.slack
            && ss[i].now <= Max(start, start + timeout) + 50.0 + c.slack
            && (polls > 0 ==> (polls - 1) as real * 50.0 < timeout)
  {
    RunOnTime(c, ss, ls, i);
    assert PollsOnTime(c, ss[i], p);
  }

  // ---- one holder, one challenger ----

  /** As long as the challenger waits, the holder's lease is the last one taken. */
  predicate HolderLast(c: System, s: State)
    requires |s.phases| == |c.procs| == 2
  {
    s.phases[1].Polling? || s.phases[1].Idle? ==>
      && (s.phases[0].Inside? ==> s.lastDeadline == s.phases[0].until)
      && (s.phases[0].Killed? && s.phases[0].held.Some? ==> s.lastDeadline == s.phases[0].held.value)
  }

  lemma {:induction false} RunHolderLast(c: System, ss: seq<State>, ls: seq<Label>, i: nat)
    requires ValidSystem(c) && IsRun(c, ss, ls) && i < |ss|
    requires |c.procs| == 2 && c.procs[0].kind.Holder? && c.procs[1].kind.Challenger?
    ensures HolderLast(c, ss[i])
  {
    if i > 0 {
      RunHolderLast(c, ss, ls, i - 1);
      RunOnTime(c, ss, ls, i - 1);
    }
  }

  /**
   * If the holder is killed at any point after acquiring, a challenger that
   * still polls does so at most until the lease has run out and one poll more;
   * so if its timeout leaves that much room it never gives up.
   */
  lemma CrashRecovery(c: System, ss: seq<State>, ls: seq<Label>, i: nat)
    requires ValidSystem(c) && IsRun(c, ss, ls) && i < |ss|
    requires |c.procs| == 2 && c.procs[0].kind.Holder? && c.procs[1].kind.Challenger?
    requires ss[i].phases[0].Killed? && ss[i].phases[0].held.Some? && ss[i].phases[1].Polling?
    ensures var until, start := ss[i].phases[0].held.value, ss[i].phases[1].start;
            && ss[i].now <= Max(start, until) + 50.0 + c.slack
            && (Max(start, until) + 50.0 + c.slack < start + c.procs[1].kind.timeout ==> !Enabled(c, ss[i], GiveUp(1)))
            && (until <= ss[i].now ==> !Live(ss[i].key, ss[i].now))
  {
    RunHolderLast(c, ss, ls, i);
    RunOnTime(c, ss, ls, i);
    PollingEnds(c, ss, ls, i, 1);
  }

  /** One holder that is dead inside its lease, and a challenger that has time enough. */
  predicate Recovering(c: System, s: State) {
    && |c.procs| == 2 && c.procs[0].kind.Holder? && c.procs[1].kind.Challenger?
    && |s.phases| == 2 && s.phases[0].Killed? && s.phases[0].held.Some?
    && s.phases[1].Polling? && RecoveredBy(c, s) < s.phases[1].start + c.procs[1].kind.timeout
  }

  /** When the lease is over, and one poll and the latency after that. */
  function RecoveredBy(c: System, s: State): real
    requires |s.phases| == 2 && s.phases[0].Killed? && s.phases[0].held.Some? && s.phases[1].Polling?
  {
    Max(s.phases[1].start, s.phases[0].held.value) + POLL + c.slack
  }

  /** A challenger never gets stuck: it can poll, give up, or sleep until its next poll. */
  lemma PollerCanMove(c: System, ss: seq<State>, ls: seq<Label>, i: nat)
    requires ValidSystem(c) && IsRun(c, ss, ls) && i < |ss|
    requires |c.procs| == 2 && c.procs[0].kind.Holder? && ss[i].phases[1].Polling?
    ensures || Enabled(c, ss[i], TrySet(1)) || Enabled(c, ss[i], GiveUp(1))
            || (ss[i].now < ss[i].phases[1].lastPoll + 50.0 && Enabled(c, ss[i], Tick(ss[i].phases[1].lastPoll + 50.0 - ss[i].now)))
  {
    RunOnTime(c, ss, ls, i);
    assert PollsOnTime(c, ss[i], 0) && PollsOnTime(c, ss[i], 1);
  }

  /** Whatever else happens, it polls on with time left until it is inside, or is killed itself. */
  lemma {:induction false} ChallengerGoesOn(c: System, ss: seq<State>, ls: seq<Label>, i: nat, j: nat)
    requires ValidSystem(c) && IsRun(c, ss, ls) && i <= j < |ss| && Recovering(c, ss[i])
    ensures ss[j].phases[0] == ss[i].phases[0]
    ensures var me := ss[j].phases[1];
            || (me.Polling? && me.start == ss[i].phases[1].start)
            || me.Inside? || me == Finished(true) || me.Killed?
  {
    if i < j {
      ChallengerGoesOn(c, ss, ls, i, j - 1);
      if ss[j - 1].phases[1].Polling? {
        CrashRecovery(c, ss, ls, j - 1);
      }
    }
  }

  /**
   * The claim of the crash phase: once the lease of a killed holder has been over
   * for one poll interval and the latency, a challenger with enough time has the
   * lock or has had it.
   */
  lemma AcquiredInTime(c: System, ss: seq<State>, ls: seq<Label>, i: nat, j: nat)
    requires ValidSystem(c) && IsRun(c, ss, ls) && i <= j < |ss| && Recovering(c, ss[i])
    requires ss[j].now > RecoveredBy(c, ss[i]) && !ss[j].phases[1].Killed?
    ensures ss[j].phases[1].Inside? || ss[j].phases[1] == Finished(true)
  {
    ChallengerGoesOn(c, ss, ls, i, j);
    if ss[j].phases[1].Polling? {
      CrashRecovery(c, ss, ls, j);
    }
  }

  /** Sleeping until the next poll is due. */
  lemma SleepUntilPoll(c: System, ss: seq<State>, ls: seq<Label>) returns (ss': seq<State>, ls': seq<Label>)
    requires ValidSystem(c) && IsRun(c, ss, ls) && Recovering(c, ss[|ls|])
    ensures IsRun(c, ss', ls') && ss <= ss'
    ensures var s, s' := ss[|ls|], ss'[|ls'|];
            s'.phases == s.phases && s'.key == s.key && Enabled(c, s', TrySet(1))
  {
    var i := |ls|;
    ss', ls' := ss, ls;
    PollerCanMove(c, ss, ls, i);
    CrashRecovery(c, ss, ls, i);
    if !Enabled(c, ss[i], TrySet(1)) {
      ss', ls' := Extend(c, ss, ls, Tick(ss[i].phases[1].lastPoll + POLL - ss[i].now));
      CrashRecovery(c, ss', ls', i + 1);
    }
  }

  /** And the run can always go on so that it gets there: the bound is not met by standing still. */
  lemma {:induction false} CanRecover(c: System, ss: seq<State>, ls: seq<Label>) returns (ss': seq<State>, ls': seq<Label>)
    requires ValidSystem(c) && IsRun(c, ss, ls) && Recovering(c, ss[|ls|])
    ensures IsRun(c, ss', ls') && ss <= ss'
    ensures ss'[|ls'|].phases[1].Inside? && ss'[|ls'|].now <= RecoveredBy(c, ss[|ls|])
    decreases if ss[|ls|].phases[1].polls == 0 then 1 else 0,
              PollsLeft(ss[|ls|].phases[0].held.value, ss[|ls|].phases[1].lastPoll)
  {
    var s := ss[|ls|];
    ss', ls' := SleepUntilPoll(c, ss, ls);
    CrashRecovery(c, ss', ls', |ls'|);
    var now := ss'[|ls'|].now;
    ss', ls' := Extend(c, ss', ls', TrySet(1));
    if !ss'[|ls'|].phases[1].Inside? {
      RunHolderLast(c, ss', ls', |ls'|);
      RunOnTime(c, ss', ls', |ls'|);
      assert PollsOnTime(c, ss'[|ls'|], 1);
      if s.phases[1].polls > 0 {
        FewerPollsLeft(s.phases[0].held.value, s.phases[1].lastPoll, now);
      }
      ss', ls' := CanRecover(c, ss', ls');
    }
  }

  /** How many more polls fit before the lease is over. */
  function PollsLeft(until: real, lastPoll: real): nat {
    if lastPoll < until then ((until - lastPoll) / POLL).Floor + 1 else 0
  }

  lemma FewerPollsLeft(until: real, lastPoll: real, now: real)
    requires lastPoll + POLL <= now < until
    ensures PollsLeft(until, now) < PollsLeft(until, lastPoll)
  {
    assert (until - now) / POLL <= (until - lastPoll) / POLL - 1.0;
  }

  // ---- the key as the mutable thing it is ----

  class RedisKey {
    var lease: Option<Lease>

    constructor ()
      ensures lease == None
    {
      lease := None;
    }

    method TakeNx(now: real, token: string, ttl: real) returns (ok: bool)
      modifies this
      ensures ok <==> old(lease).None? || old(lease).value.deadline <= now
      ensures lease == if ok then Some(Lease(token, now + ttl)) else old(lease)
      ensures lease == SetNx(old(lease), now, token, ttl)
    {
      ok := !(lease.Some? && now < lease.value.deadline);
      if ok {
        lease := Some(Lease(token, now + ttl));
      }
    }

    method GiveBack(now: real, token: string) returns (deleted: int)
      modifies this
      ensures lease == CompareAndDelete(old(lease), now, token)
      ensures deleted == if old(lease).Some? && now < old(lease).value.deadline && old(lease).value.token == token then 1 else 0
      ensures lease == if deleted == 1 then None else old(lease)
    {
      if lease.Some? && now < lease.value.deadline && lease.value.token == token {
        lease := None;
        deleted := 1;
      } else {
        deleted := 0;
      }
    }
  }

  // ---- the challenger's loop ----

  datatype Verdict = Acquired(elapsed: real) | TimedOut(elapsed: real)

  /**
   * The polling loop, for any clock that its sleeps move by at least one poll
   * interval and any sequence of keys it may find: it ends, with the first poll
   * that finds no live key, or with the first reading past the deadline.
   */
  method PollForLock(world: nat -> Option<Lease>, clock: nat -> real, timeout: real) returns (v: Verdict, polls: nat)
    requires forall k: nat :: clock(k) + 50.0 <= clock(k + 1)
    ensures var last := if v.Acquired? then polls - 1 else polls;
            && last >= 0
            && (forall k :: 0 <= k < last ==> clock(k) < clock(0) + timeout && Live(world(k), clock(k)))
            && v.elapsed == clock(last) - clock(0)
            && (v.Acquired? <==> clock(last) < clock(0) + timeout && !Live(world(last), clock(last)))
            && (v.TimedOut? <==> clock(0) + timeout <= clock(last))
  {
    var start := clock(0);
    var deadline := start + timeout;
    polls := 0;
    while clock(polls) < deadline
      invariant forall k :: 0 <= k < polls ==> clock(k) < clock(0) + timeout && Live(world(k), clock(k))
      decreases ((deadline - clock(polls)) / POLL).Floor + 1
    {
      var k := polls;
      polls := polls + 1;
      if !Live(world(k), clock(k)) {
        return Acquired(clock(k) - start), polls;
      }
      assert (deadline - clock(k + 1)) / POLL <= (deadline - clock(k)) / POLL - 1.0;
    }
    return TimedOut(clock(polls) - start), polls;
  }
}
