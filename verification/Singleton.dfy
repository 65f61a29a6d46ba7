/** The check-lock-check singleton as a protocol of atomic steps, for any number of goroutines and any schedule. */
module Singleton {
  import opened Documents

  type Goroutine = nat

  type Instance = nat

  /** Where a goroutine is in GetClient. */
  datatype Place =
    | Entered                               // before the argument checks
    | FirstCheck                            // before reading singleInstance without the lock
    | Locking                               // at lock.Lock()
    | SecondCheck                           // holding the lock, before reading singleInstance again
    | Starting(instance: Instance)          // inside instance.Start
    | Publishing(instance: Instance)        // before singleInstance = instance
    | Returning(locked: bool)               // before reading singleInstance for the result
    | Unlocking(result: Option<Instance>)   // the deferred lock.Unlock()
    | Returned(result: Option<Instance>)    // with a nil error
    | Rejected                              // with an error

  /** `started` maps an instance whose Start has finished to whether its client was set. */
  datatype State = State(
    lock: Option<Goroutine>,
    single: Option<Instance>,
    instances: nat,
    startCalls: nat,
    started: map<Instance, bool>,
    places: map<Goroutine, Place>)

  const INITIAL := State(None, None, 0, 0, map[], map[])

  /** One scheduling decision: who moves, and what the environment answers should it ask (are the arguments
      non-nil; does Start succeed). */
  datatype Turn = Turn(who: Goroutine, answer: bool)

  predicate Enabled(s: State, t: Turn) {
    if t.who !in s.places then true
    else match s.places[t.who]
      case Locking => s.lock.None?
      case Returned(_) => false
      case Rejected => false
      case _ => true
  }

  function Move(s: State, who: Goroutine, to: Place): State {
    s.(places := s.places[who := to])
  }

  function Step(s: State, t: Turn): State
    requires Enabled(s, t)
  {
    var me := t.who;
    if me !in s.places then Move(s, me, Entered)
    else match s.places[me]
      case Entered => Move(s, me, if t.answer then FirstCheck else Rejected)
      case FirstCheck => Move(s, me, if s.single.None? then Locking else Returning(false))
      case Locking => Move(s, me, SecondCheck).(lock := Some(me))
      case SecondCheck =>
        if s.single.None?
        then Move(s, me, Starting(s.instances)).(instances := s.instances + 1, startCalls := s.startCalls + 1)
        else Move(s, me, Returning(true))
      case Starting(i) => Move(s, me, Publishing(i)).(started := s.started[i := t.answer])
      case Publishing(i) => Move(s, me, Returning(true)).(single := Some(i))
      case Returning(locked) => Move(s, me, if locked then Unlocking(s.single) else Returned(s.single))
      case Unlocking(result) => Move(s, me, Returned(result)).(lock := None)
  }

  /** The state after a schedule; a turn that is not enabled passes. */
  function After(schedule: seq<Turn>): State {
    if schedule == [] then INITIAL
    else
      var s := After(schedule[..|schedule| - 1]);
      var t := schedule[|schedule| - 1];
      if Enabled(s, t) then Step(s, t) else s
  }

  // --- The invariant ---

  predicate Holding(p: Place) {
    p.SecondCheck? || p.Starting? || p.Publishing? || p == Returning(true) || p.Unlocking?
  }

  predicate Creating(p: Place) {
    p.Starting? || p.Publishing?
  }

  ghost predicate Inv(s: State) {
    && (forall g :: g in s.places ==> (Holding(s.places[g]) <==> s.lock == Some(g)))
    && (s.lock.Some? ==> s.lock.value in s.places)
    && s.startCalls == s.instances <= 1
    && (s.instances == 1 <==> s.single.Some? || (s.lock.Some? && Creating(s.places[s.lock.value])))
    && (s.instances == 0 ==> s.started == map[])
    && s.started.Keys <= {0}
    && (s.single.Some? ==> s.single == Some(0) && 0 in s.started)
    && (forall g :: g in s.places ==> PlaceInv(s, s.places[g]))
  }

  ghost predicate PlaceInv(s: State, p: Place) {
    match p
    case Starting(i) => s.single.None? && i == 0 && s.started == map[]
    case Publishing(i) => s.single.None? && i == 0 && 0 in s.started
    case Returning(_) => s.single.Some?
    case Unlocking(result) => result.Some? && result == s.single
    case Returned(result) => result.Some? && result == s.single
    case _ => true
  }

  lemma StepKeepsInv(s: State, t: Turn)
    requires Inv(s) && Enabled(s, t)
    ensures Inv(Step(s, t))
    ensures s.single.Some? ==> Step(s, t).single == s.single && Step(s, t).started[0] == s.started[0]
    ensures s.startCalls <= Step(s, t).startCalls
  {
    var s' := Step(s, t);
    forall g | g in s'.places
      ensures Holding(s'.places[g]) <==> s'.lock == Some(g)
      ensures PlaceInv(s', s'.places[g])
    {
      if g != t.who {
        assert s'.places[g] == s.places[g];
        assert PlaceInv(s, s.places[g]);
      }
    }
  }

  lemma {:induction false} Safe(schedule: seq<Turn>)
    ensures Inv(After(schedule))
    decreases |schedule|
  {
    if schedule == [] {
    } else {
      Safe(schedule[..|schedule| - 1]);
      var s := After(schedule[..|schedule| - 1]);
      if Enabled(s, schedule[|schedule| - 1]) {
        StepKeepsInv(s, schedule[|schedule| - 1]);
      }
    }
  }

  // --- What it gives ---

  /** Start is called at most once, never by two at a time, and has finished before its instance is published. */
  lemma StartOnceBeforePublication(schedule: seq<Turn>)
    ensures var s := After(schedule);
            && s.startCalls <= 1 && s.instances <= 1
            && (s.single.Some? ==> s.startCalls == 1 && s.single.value in s.started)
            && (forall g, h :: g in s.places && h in s.places && Holding(s.places[g]) && Holding(s.places[h]) ==>
                  g == h)
  {
    Safe(schedule);
  }

  /** What is published at some time stays published, with the outcome of its Start: a client whose Start failed is
      never replaced. */
  lemma {:induction false} PublicationIsFinal(schedule: seq<Turn>, earlier: nat)
    requires earlier <= |schedule|
    requires After(schedule[..earlier]).single.Some?
    ensures var past, now := After(schedule[..earlier]), After(schedule);
            && now.single == past.single
            && past.single.value in past.started && now.single.value in now.started
            && now.started[now.single.value] == past.started[past.single.value]
    decreases |schedule|
  {
    Safe(schedule[..earlier]);
    Safe(schedule);
    if earlier == |schedule| {
      assert schedule[..earlier] == schedule;
    } else {
      var front := schedule[..|schedule| - 1];
      assert front[..earlier] == schedule[..earlier];
      PublicationIsFinal(front, earlier);
      Safe(front);
      if Enabled(After(front), schedule[|schedule| - 1]) {
        StepKeepsInv(After(front), schedule[|schedule| - 1]);
      }
    }
  }

  // --- When the published client is usable ---

  /** Turn `k` of the schedule ends a Start; its answer tells whether the client was set. */
  predicate EndsStart(schedule: seq<Turn>, k: nat) {
    k < |schedule| &&
    var s := After(schedule[..k]);
    schedule[k].who in s.places && s.places[schedule[k].who].Starting?
  }

  ghost predicate StartOk(schedule: seq<Turn>) {
    exists k: nat :: EndsStart(schedule, k) && schedule[k].answer
  }

  /** What `started` records is what the environment answered. */
  ghost predicate Recorded(schedule: seq<Turn>) {
    var s := After(schedule);
    && (0 in s.started <==> exists k: nat :: EndsStart(schedule, k))
    && (0 in s.started ==> (s.started[0] <==> StartOk(schedule)))
  }

  lemma EndsStartInFront(schedule: seq<Turn>, k: nat)
    requires k + 1 < |schedule|
    ensures EndsStart(schedule, k) <==> EndsStart(schedule[..|schedule| - 1], k)
  {
    assert schedule[..|schedule| - 1][..k] == schedule[..k];
  }

  /** One turn that does not end a Start. */
  lemma RecordedPasses(schedule: seq<Turn>)
    requires schedule != [] && Recorded(schedule[..|schedule| - 1]) && !EndsStart(schedule, |schedule| - 1)
    ensures Recorded(schedule)
  {
    var front, n := schedule[..|schedule| - 1], |schedule| - 1;
    assert After(schedule).started == After(front).started;
    forall k: nat
      ensures EndsStart(schedule, k) <==> EndsStart(front, k)
      ensures EndsStart(front, k) ==> schedule[k] == front[k]
    {
      if k < n {
        EndsStartInFront(schedule, k);
      }
    }
  }

  /** The turn that ends the Start. */
  lemma RecordedThen(schedule: seq<Turn>)
    requires schedule != [] && Recorded(schedule[..|schedule| - 1]) && EndsStart(schedule, |schedule| - 1)
    ensures Recorded(schedule)
  {
    var front, n := schedule[..|schedule| - 1], |schedule| - 1;
    Safe(front);
    var s := After(front);
    assert PlaceInv(s, s.places[schedule[n].who]);
    forall k: nat | EndsStart(schedule, k)
      ensures k == n
    {
      if k < n {
        EndsStartInFront(schedule, k);
        assert false;
      }
    }
  }

  lemma {:induction false} AlwaysRecorded(schedule: seq<Turn>)
    ensures Recorded(schedule)
    decreases |schedule|
  {
    if schedule == [] {
    } else {
      AlwaysRecorded(schedule[..|schedule| - 1]);
      if EndsStart(schedule, |schedule| - 1) {
        RecordedThen(schedule);
      } else {
        RecordedPasses(schedule);
      }
    }
  }

  lemma NoStartEndedBefore(schedule: seq<Turn>, k: nat)
    requires EndsStart(schedule, k)
    ensures forall j: nat :: j < k ==> !EndsStart(schedule, j)
  {
    var early := schedule[..k];
    Safe(early);
    AlwaysRecorded(early);
    assert PlaceInv(After(early), After(early).places[schedule[k].who]);
    forall j: nat | j < k
      ensures !EndsStart(schedule, j)
    {
      assert early[..j] == schedule[..j] && !EndsStart(early, j);
    }
  }

  /** In every schedule only one Start ends. */
  lemma OneStartEnds(schedule: seq<Turn>, j: nat, k: nat)
    requires EndsStart(schedule, j) && EndsStart(schedule, k)
    ensures j == k
  {
    NoStartEndedBefore(schedule, j);
    NoStartEndedBefore(schedule, k);
  }

  /** The published client is initialised if and only if that Start succeeded, in every schedule. */
  lemma PublishedExactly(schedule: seq<Turn>)
    requires After(schedule).single.Some?
    ensures var s := After(schedule);
            s.single.value in s.started && (s.started[s.single.value] <==> StartOk(schedule))
  {
    Safe(schedule);
    AlwaysRecorded(schedule);
  }

  lemma AfterOneMore(schedule: seq<Turn>, t: Turn)
    ensures var s := After(schedule);
            After(schedule + [t]) == if Enabled(s, t) then Step(s, t) else s
  {
    assert (schedule + [t])[..|schedule|] == schedule;
  }

  /** A single caller, served until its Start fails. */
  const FAILED_START: seq<Turn> :=
    [Turn(0, true)] + [Turn(0, true)] + [Turn(0, true)] + [Turn(0, true)] + [Turn(0, true)] + [Turn(0, false)]

  /** A client whose Start failed is published all the same, and is never replaced. */
  lemma FailedStartIsPublished(later: seq<Turn>)
    ensures var s := After(FAILED_START + [Turn(0, true)]);
            s.single == Some(0) && s.started == map[0 := false]
    ensures var s := After(FAILED_START + [Turn(0, true)] + later);
            s.single == Some(0) && 0 in s.started && !s.started[0]
  {
    var t := Turn(0, true);
    AfterOneMore([], t);
    assert [] + [t] == [t];
    AfterOneMore([t], t);
    AfterOneMore([t] + [t], t);
    AfterOneMore([t] + [t] + [t], t);
    AfterOneMore([t] + [t] + [t] + [t], t);
    AfterOneMore([t] + [t] + [t] + [t] + [t], Turn(0, false));
    AfterOneMore(FAILED_START, t);
    var schedule := FAILED_START + [t] + later;
    assert schedule[..7] == FAILED_START + [t];
    PublicationIsFinal(schedule, 7);
  }

  /** After a publication no turn changes whether the Start succeeded. */
  lemma StartIsDecided(schedule: seq<Turn>, earlier: nat)
    requires earlier <= |schedule| && After(schedule[..earlier]).single.Some?
    ensures StartOk(schedule) <==> StartOk(schedule[..earlier])
  {
    PublicationIsFinal(schedule, earlier);
    PublishedExactly(schedule);
    PublishedExactly(schedule[..earlier]);
  }

  /** Two error-free returns, at any two times of a run, give the same instance, and it is the published one. */
  lemma ReturnsAgree(schedule: seq<Turn>, earlier: nat, g: Goroutine, h: Goroutine)
    requires earlier <= |schedule|
    requires var s := After(schedule[..earlier]); g in s.places && s.places[g].Returned?
    requires var s := After(schedule); h in s.places && s.places[h].Returned?
    ensures var past, now := After(schedule[..earlier]), After(schedule);
            && past.places[g].result.Some?
            && past.places[g].result == now.places[h].result == now.single
  {
    Safe(schedule[..earlier]);
    Safe(schedule);
    assert PlaceInv(After(schedule[..earlier]), After(schedule[..earlier]).places[g]);
    assert PlaceInv(After(schedule), After(schedule).places[h]);
    PublicationIsFinal(schedule, earlier);
  }

  // --- Which calls are turned away, and which are served without the lock ---

  /** In turn `k` of the schedule the call of `g` checks its arguments. */
  predicate ChecksArguments(schedule: seq<Turn>, k: nat, g: Goroutine) {
    k < |schedule| && schedule[k].who == g &&
    var s := After(schedule[..k]);
    g in s.places && s.places[g].Entered?
  }

  /** The check has been made, and the call is turned away, exactly as the environment answered. */
  ghost predicate CheckedAsAnswered(schedule: seq<Turn>, g: Goroutine) {
    var s := After(schedule);
    && (g in s.places && !s.places[g].Entered? <==> exists k: nat :: ChecksArguments(schedule, k, g))
    && (g in s.places && s.places[g].Rejected? <==>
        exists k: nat :: ChecksArguments(schedule, k, g) && !schedule[k].answer)
  }

  lemma ChecksInFront(schedule: seq<Turn>, k: nat, g: Goroutine)
    requires schedule != []
    ensures k + 1 < |schedule| ==>
              (ChecksArguments(schedule, k, g) <==> ChecksArguments(schedule[..|schedule| - 1], k, g))
    ensures ChecksArguments(schedule, k, g) ==>
              k == |schedule| - 1 || ChecksArguments(schedule[..|schedule| - 1], k, g)
  {
    if k + 1 < |schedule| {
      assert schedule[..|schedule| - 1][..k] == schedule[..k];
    }
  }

  /** Only the check itself takes a call past it, or turns it away. */
  lemma StepPastCheck(s: State, t: Turn, g: Goroutine)
    requires Enabled(s, t) && !(t.who == g && g in s.places && s.places[g].Entered?)
    ensures var s' := Step(s, t);
            && (g in s'.places && !s'.places[g].Entered? <==> g in s.places && !s.places[g].Entered?)
            && (g in s'.places && s'.places[g].Rejected? <==> g in s.places && s.places[g].Rejected?)
  {
    if t.who != g {
      assert g in Step(s, t).places <==> g in s.places;
    }
  }

  lemma SameChecks(schedule: seq<Turn>, g: Goroutine)
    requires schedule != []
    ensures var front, n := schedule[..|schedule| - 1], |schedule| - 1;
            forall k: nat :: ChecksArguments(schedule, k, g) <==>
              (k == n && ChecksArguments(schedule, n, g)) || (k < n && ChecksArguments(front, k, g))
  {
    forall k: nat
      ensures k + 1 < |schedule| ==>
                (ChecksArguments(schedule, k, g) <==> ChecksArguments(schedule[..|schedule| - 1], k, g))
    {
      ChecksInFront(schedule, k, g);
    }
  }

  lemma NotChecking(schedule: seq<Turn>, g: Goroutine)
    requires schedule != [] && CheckedAsAnswered(schedule[..|schedule| - 1], g)
    requires !ChecksArguments(schedule, |schedule| - 1, g)
    ensures CheckedAsAnswered(schedule, g)
  {
    var front, t := schedule[..|schedule| - 1], schedule[|schedule| - 1];
    SameChecks(schedule, g);
    assert forall k: nat :: k < |front| ==> front[k] == schedule[k];
    if Enabled(After(front), t) {
      StepPastCheck(After(front), t, g);
    }
  }

  lemma Checking(schedule: seq<Turn>, g: Goroutine)
    requires schedule != [] && CheckedAsAnswered(schedule[..|schedule| - 1], g)
    requires ChecksArguments(schedule, |schedule| - 1, g)
    ensures CheckedAsAnswered(schedule, g)
  {
    SameChecks(schedule, g);
  }

  /** A call ends with an error if and only if one of its arguments was nil when it checked them, in every schedule. */
  lemma {:induction false} RejectedExactly(schedule: seq<Turn>, g: Goroutine)
    ensures CheckedAsAnswered(schedule, g)
    decreases |schedule|
  {
    if schedule == [] {
    } else {
      RejectedExactly(schedule[..|schedule| - 1], g);
      if ChecksArguments(schedule, |schedule| - 1, g) {
        Checking(schedule, g);
      } else {
        NotChecking(schedule, g);
      }
    }
  }

  /** A call that has nothing to do with the lock, and can only return this instance. */
  predicate OffLock(s: State, g: Goroutine, single: Option<Instance>) {
    g in s.places ==>
      match s.places[g]
      case Entered => true
      case FirstCheck => true
      case Returning(locked) => !locked
      case Returned(result) => result == single
      case Rejected => true
      case _ => false
  }

  lemma StepOffLock(s: State, t: Turn, g: Goroutine)
    requires Enabled(s, t) && s.single.Some? && OffLock(s, g, s.single)
    ensures OffLock(Step(s, t), g, s.single)
  {
    if t.who != g {
      assert g in Step(s, t).places ==> g in s.places && Step(s, t).places[g] == s.places[g];
    }
  }

  /** A call that began after the publication neither waits for the lock nor takes it, and gets the published
      instance. */
  lemma {:induction false} ServedWithoutLock(schedule: seq<Turn>, earlier: nat, g: Goroutine)
    requires earlier <= |schedule|
    requires After(schedule[..earlier]).single.Some? && g !in After(schedule[..earlier]).places
    ensures OffLock(After(schedule), g, After(schedule[..earlier]).single)
    ensures g in After(schedule).places ==> After(schedule).lock != Some(g)
    decreases |schedule|
  {
    Safe(schedule);
    if earlier == |schedule| {
      assert schedule[..earlier] == schedule;
    } else {
      var front, t := schedule[..|schedule| - 1], schedule[|schedule| - 1];
      assert front[..earlier] == schedule[..earlier];
      ServedWithoutLock(front, earlier, g);
      PublicationIsFinal(front, earlier);
      if Enabled(After(front), t) {
        StepOffLock(After(front), t, g);
      }
    }
  }

  predicate Finished(p: Place) {
    p.Returned? || p.Rejected?
  }

  /** No deadlock: while some call is unfinished, some unfinished call can move. */
  lemma NoDeadlock(schedule: seq<Turn>, g: Goroutine)
    requires g in After(schedule).places && !Finished(After(schedule).places[g])
    ensures exists t :: Enabled(After(schedule), t) && t.who in After(schedule).places &&
              !Finished(After(schedule).places[t.who])
  {
    Safe(schedule);
    var s := After(schedule);
    var mover := if s.lock.Some? then s.lock.value else g;
    assert s.lock.Some? ==> Holding(s.places[mover]);
    assert Enabled(s, Turn(mover, true));
  }

  /** The most steps a call can still make. */
  function StepsLeft(p: Place): nat {
    match p
    case Entered => 8
    case FirstCheck => 7
    case Locking => 6
    case SecondCheck => 5
    case Starting(_) => 4
    case Publishing(_) => 3
    case Returning(_) => 2
    case Unlocking(_) => 1
    case _ => 0
  }

  function TotalLeft(places: map<Goroutine, Place>, n: nat): nat {
    if n == 0 then 0
    else TotalLeft(places, n - 1) + if n - 1 in places then StepsLeft(places[n - 1]) else 9
  }

  /** No livelock: with goroutines below `n`, every effective turn uses up part of a bound fixed from the start. */
  lemma EveryStepCounts(s: State, t: Turn, n: nat)
    requires Enabled(s, t) && t.who < n
    ensures TotalLeft(Step(s, t).places, n) < TotalLeft(s.places, n)
  {
    TotalLeftStep(s.places, Step(s, t).places, t.who, n);
  }

  lemma {:induction false} TotalLeftStep(a: map<Goroutine, Place>, b: map<Goroutine, Place>, who: Goroutine, n: nat)
    requires who in b && b == a[who := b[who]]
    requires who in a ==> StepsLeft(b[who]) < StepsLeft(a[who])
    ensures who < n ==> TotalLeft(b, n) < TotalLeft(a, n)
    ensures who >= n ==> TotalLeft(b, n) == TotalLeft(a, n)
  {
    if n == 0 {
    } else {
      TotalLeftStep(a, b, who, n - 1);
    }
  }

  /** How many turns of a schedule were enabled. */
  function EffectiveTurns(schedule: seq<Turn>): nat {
    if schedule == [] then 0
    else
      var front := schedule[..|schedule| - 1];
      EffectiveTurns(front) + if Enabled(After(front), schedule[|schedule| - 1]) then 1 else 0
  }

  /** However they are interleaved, `n` calls take at most nine steps each. */
  lemma {:induction false} BoundedWork(schedule: seq<Turn>, n: nat)
    requires forall i :: 0 <= i < |schedule| ==> schedule[i].who < n
    ensures EffectiveTurns(schedule) + TotalLeft(After(schedule).places, n) <= 9 * n
    decreases |schedule|
  {
    if schedule == [] {
      NobodyYet(n);
    } else {
      var front, t := schedule[..|schedule| - 1], schedule[|schedule| - 1];
      BoundedWork(front, n);
      if Enabled(After(front), t) {
        EveryStepCounts(After(front), t, n);
      }
    }
  }

  lemma {:induction false} NobodyYet(n: nat)
    ensures TotalLeft(map[], n) == 9 * n
  {
    if n == 0 {
    } else {
      NobodyYet(n - 1);
    }
  }
}
