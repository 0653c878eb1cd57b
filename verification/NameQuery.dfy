/** lookupServerOrWorkgroup (UniAddress.java): two query threads, a caller, one lock with a counter.
    Every access to shared state is a step of its own; any order of steps may happen. */
module NameQuery {
  type Address = int

  /** How one name query ends: an address, an UnknownHostException, another Exception (wrapped in
      one), or an Error that no handler takes. */
  datatype Outcome = Answer(address: Address) | Unknown | Failure | Died

  datatype Maybe<T> = Nothing | Just(value: T)

  /** Where a QueryThread is in run(). */
  datatype Place = Unstarted | Asking | Answered | Holding | Counted | Notified | Ended

  /** ans and uhe are null until set. */
  datatype Query = Query(place: Place, outcome: Outcome, ans: Maybe<Address>, uhe: bool)

  /** Where the caller is. Looking reads sem.count, q1x.ans and q20.ans one after the other. */
  datatype Caller =
    | Begun | Starting(started: nat) | Looking(read: nat) | Sleeping | Woken(interrupted: bool)
    | Leaving(throwing: bool) | Reading(second: bool)
    | Returned(address: Address) | Threw(uhe: bool) | Interrupted

  datatype Owner = Free | ByCaller | ByQuery(first: bool)

  datatype State = State(caller: Caller, q1x: Query, q20: Query, count: int, lock: Owner)

  function Get(s: State, first: bool): Query { if first then s.q1x else s.q20 }

  function Set(s: State, first: bool, q: Query): State { if first then s.(q1x := q) else s.(q20 := q) }

  function Initial(first: Outcome, second: Outcome): State
  {
    State(Begun, Query(Unstarted, first, Nothing, false), Query(Unstarted, second, Nothing, false), 2, Free)
  }

  /** Whose step it is. Wake is a wake-up without notify, Interrupt a Thread.interrupt. */
  datatype Step = CallerStep | QueryStep(first: bool) | Wake | Interrupt

  /** The caller's next step, if it can be taken. */
  function CallerNext(s: State): Maybe<State>
  {
    match s.caller
    case Begun => if s.lock == Free then Just(s.(caller := Starting(0), lock := ByCaller)) else Nothing
    case Starting(n) =>
      if n == 0 then Just(s.(caller := Starting(1), q1x := s.q1x.(place := Asking)))
      else Just(s.(caller := Looking(0), q20 := s.q20.(place := Asking)))
    case Looking(n) =>
      if n == 0 then Just(s.(caller := if s.count > 0 then Looking(1) else Leaving(false)))
      else if n == 1 then Just(s.(caller := if s.q1x.ans == Nothing then Looking(2) else Leaving(false)))
      else if n == 2 then Just(s.(caller := if s.q20.ans == Nothing then Looking(3) else Leaving(false)))
      else Just(s.(caller := Sleeping, lock := Free))
    case Woken(interrupted) =>
      if s.lock != Free then Nothing
      else Just(s.(caller := if interrupted then Leaving(true) else Looking(0), lock := ByCaller))
    case Leaving(throwing) => Just(s.(caller := if throwing then Interrupted else Reading(false), lock := Free))
    case Reading(second) =>
      if !second then Just(s.(caller := if s.q1x.ans.Just? then Returned(s.q1x.ans.value) else Reading(true)))
      else Just(s.(caller := if s.q20.ans.Just? then Returned(s.q20.ans.value) else Threw(s.q1x.uhe)))
    case _ => Nothing
  }

  /** A query thread's next step, if it can be taken. */
  function QueryNext(s: State, first: bool): Maybe<State>
  {
    var q := Get(s, first);
    match q.place
    case Asking =>
      Just(Set(s, first, q.(place := Answered,
                            ans := if q.outcome.Answer? then Just(q.outcome.address) else Nothing,
                            uhe := q.outcome.Unknown? || q.outcome.Failure?)))
    case Answered =>
      if s.lock == Free then Just(Set(s, first, q.(place := Holding)).(lock := ByQuery(first))) else Nothing
    case Holding => Just(Set(s, first, q.(place := Counted)).(count := s.count - 1))
    case Counted =>
      Just(Set(s, first, q.(place := Notified)).(caller := if s.caller == Sleeping then Woken(false) else s.caller))
    case Notified => Just(Set(s, first, q.(place := Ended)).(lock := Free))
    case _ => Nothing
  }

  function Next(s: State, step: Step): Maybe<State>
  {
    match step
    case CallerStep => CallerNext(s)
    case QueryStep(first) => QueryNext(s, first)
    case Wake => if s.caller == Sleeping then Just(s.(caller := Woken(false))) else Nothing
    case Interrupt =>
      if s.caller == Sleeping then Just(s.(caller := Woken(true)))
      else if s.caller == Looking(3) then Just(s.(caller := Leaving(true)))
      else Nothing
  }

  /** The state after steps taken in order; steps that cannot be taken are no run. */
  function Run(s: State, steps: seq<Step>): Maybe<State>
  {
    if |steps| == 0 then Just(s)
    else
      var before := Run(s, steps[..|steps| - 1]);
      if before.Just? then Next(before.value, steps[|steps| - 1]) else Nothing
  }

  // ---- the invariant

  predicate InLock(p: Place) { p == Holding || p == Counted || p == Notified }

  /** The thread has taken itself off the count. */
  predicate Off(p: Place) { p == Counted || p == Notified || p == Ended }

  /** The thread has its notify still before it. */
  predicate WillNotify(p: Place) { p == Asking || p == Answered || p == Holding || p == Counted }

  predicate CallerInLock(c: Caller)
  {
    match c case Starting(_) => true case Looking(_) => true case Leaving(_) => true case _ => false
  }

  ghost predicate QueryOk(q: Query)
  {
    && (q.ans.Just? ==> q.outcome.Answer? && q.ans.value == q.outcome.address)
    && (if q.place == Unstarted || q.place == Asking then q.ans == Nothing && !q.uhe
        else (q.outcome.Answer? ==> q.ans.Just?) && (q.uhe <==> q.outcome.Unknown? || q.outcome.Failure?))
  }

  /** The lock's holder, and nobody else, is where only the holder can be. */
  ghost predicate LockOk(s: State)
  {
    && (s.lock == ByCaller <==> CallerInLock(s.caller))
    && (s.lock == ByQuery(true) <==> InLock(s.q1x.place))
    && (s.lock == ByQuery(false) <==> InLock(s.q20.place))
  }

  ghost predicate CountOk(s: State)
  {
    s.count == 2 - (if Off(s.q1x.place) then 1 else 0) - (if Off(s.q20.place) then 1 else 0)
  }

  ghost predicate StartOk(s: State)
  {
    && (s.q1x.place == Unstarted <==> s.caller == Begun || s.caller == Starting(0))
    && (s.q20.place == Unstarted <==> s.caller == Begun || s.caller == Starting(0) || s.caller == Starting(1))
    && (s.caller.Starting? ==> s.caller.started <= 1) && (s.caller.Looking? ==> s.caller.read <= 3)
  }

  /** The reason the loop was left. */
  ghost predicate Settled(s: State) { s.count <= 0 || s.q1x.ans.Just? || s.q20.ans.Just? }

  ghost predicate CallerOk(s: State)
  {
    match s.caller
    case Looking(n) => n > 0 ==> s.count > 0
    case Sleeping => WillNotify(s.q1x.place) || WillNotify(s.q20.place)
    case Leaving(throwing) => !throwing ==> Settled(s)
    case Reading(second) =>
      if second then s.q20.ans.Just? || (s.count <= 0 && s.q1x.ans == Nothing) else Settled(s)
    case Returned(a) => s.q1x.ans == Just(a) || s.q20.ans == Just(a)
    case Threw(uhe) => s.count <= 0 && s.q1x.ans == Nothing && s.q20.ans == Nothing && uhe == s.q1x.uhe
    case _ => true
  }

  ghost predicate Inv(s: State)
  {
    QueryOk(s.q1x) && QueryOk(s.q20) && LockOk(s) && CountOk(s) && StartOk(s) && CallerOk(s)
  }

  lemma InitialInv(first: Outcome, second: Outcome)
    ensures Inv(Initial(first, second))
  {}

  /** The counter runs out only when both threads have stored what they have. */
  lemma CountedOut(s: State)
    requires Inv(s) && s.count <= 0
    ensures Off(s.q1x.place) && Off(s.q20.place)
  {}

  lemma CallerKeeps(s: State)
    requires Inv(s) && CallerNext(s).Just?
    ensures Inv(CallerNext(s).value)
  {
    CallerStores(s);
    CallerLocks(s);
    CallerStarts(s);
    CallerStays(s);
  }

  lemma CallerStores(s: State)
    requires Inv(s) && CallerNext(s).Just?
    ensures var t := CallerNext(s).value; QueryOk(t.q1x) && QueryOk(t.q20) && CountOk(t)
  {}

  lemma CallerLocks(s: State)
    requires LockOk(s) && StartOk(s) && CallerNext(s).Just?
    ensures LockOk(CallerNext(s).value)
  {}

  lemma CallerStarts(s: State)
    requires LockOk(s) && StartOk(s) && CallerNext(s).Just?
    ensures StartOk(CallerNext(s).value)
  {}

  lemma CallerStays(s: State)
    requires Inv(s) && CallerNext(s).Just?
    ensures CallerOk(CallerNext(s).value)
  {}

  lemma QueryKeeps(s: State, first: bool)
    requires Inv(s) && QueryNext(s, first).Just?
    ensures Inv(QueryNext(s, first).value)
  {
    QueryLocks(s, first);
    QueryWakes(s, first);
  }

  lemma QueryLocks(s: State, first: bool)
    requires QueryOk(s.q1x) && QueryOk(s.q20) && LockOk(s) && CountOk(s) && StartOk(s) && QueryNext(s, first).Just?
    ensures
      var t := QueryNext(s, first).value;
      QueryOk(t.q1x) && QueryOk(t.q20) && LockOk(t) && CountOk(t) && StartOk(t)
  {
    QueryStores(s, first);
    QueryHolds(s, first);
  }

  lemma QueryStores(s: State, first: bool)
    requires QueryOk(s.q1x) && QueryOk(s.q20) && QueryNext(s, first).Just?
    ensures var t := QueryNext(s, first).value; QueryOk(t.q1x) && QueryOk(t.q20)
  {}

  lemma QueryHolds(s: State, first: bool)
    requires LockOk(s) && QueryNext(s, first).Just?
    ensures LockOk(QueryNext(s, first).value)
  {}

  lemma QueryWakes(s: State, first: bool)
    requires Inv(s) && QueryNext(s, first).Just?
    ensures CallerOk(QueryNext(s, first).value)
  {}

  lemma WakeKeeps(s: State, step: Step)
    requires Inv(s) && Next(s, step).Just? && (step.Wake? || step.Interrupt?)
    ensures Inv(Next(s, step).value)
  {}

  lemma NextKeeps(s: State, step: Step)
    requires Inv(s) && Next(s, step).Just?
    ensures Inv(Next(s, step).value)
  {
    hide CallerNext, QueryNext, Inv;
    match step
    case CallerStep => CallerKeeps(s);
    case QueryStep(first) => QueryKeeps(s, first);
    case _ => WakeKeeps(s, step);
  }

  /** Every state of every run, whatever the threads are given to do and however they interleave. */
  lemma {:induction false} RunKeeps(first: Outcome, second: Outcome, steps: seq<Step>)
    requires Run(Initial(first, second), steps).Just?
    ensures Inv(Run(Initial(first, second), steps).value)
  {
    hide Inv, Next;
    if |steps| == 0 {
      InitialInv(first, second);
    } else {
      RunKeeps(first, second, steps[..|steps| - 1]);
      NextKeeps(Run(Initial(first, second), steps[..|steps| - 1]).value, steps[|steps| - 1]);
    }
  }

  // ---- no lost wake-up, nobody stuck

  /** While the caller sleeps, a thread has its notify still before it: both cannot be done. */
  lemma NoLostWakeup(first: Outcome, second: Outcome, steps: seq<Step>)
    requires Run(Initial(first, second), steps).Just?
    ensures
      var s := Run(Initial(first, second), steps).value;
      s.caller == Sleeping ==> !(s.q1x.place == Ended && s.q20.place == Ended)
  {
    RunKeeps(first, second, steps);
  }

  ghost predicate Finished(c: Caller) { c.Returned? || c.Threw? || c.Interrupted? }

  /** Until the caller is through, somebody can take a step that is not a chance wake-up. */
  lemma SomebodyMoves(s: State)
    requires Inv(s) && !Finished(s.caller)
    ensures CallerNext(s).Just? || QueryNext(s, true).Just? || QueryNext(s, false).Just?
  {}

  function Left(p: Place): nat
  {
    match p
    case Unstarted => 6 case Asking => 5 case Answered => 4 case Holding => 3
    case Counted => 2 case Notified => 1 case Ended => 0
  }

  function CallerLeft(c: Caller): nat
  {
    match c
    case Begun => 13
    case Starting(n) => if n == 0 then 12 else 11
    case Woken(interrupted) => if interrupted then 4 else 10
    case Looking(n) => if n >= 3 then 6 else 9 - n
    case Sleeping => 5
    case Leaving(_) => 3
    case Reading(second) => if second then 1 else 2
    case _ => 0
  }

  /** Steps left at most, chance wake-ups apart. */
  function Work(s: State): nat
  {
    10 * Left(s.q1x.place) + 10 * Left(s.q20.place) + CallerLeft(s.caller)
  }

  lemma CallerWork(s: State)
    requires StartOk(s) && CallerNext(s).Just?
    ensures Work(CallerNext(s).value) < Work(s)
  {}

  lemma QueryWork(s: State, first: bool)
    requires QueryNext(s, first).Just?
    ensures Work(QueryNext(s, first).value) < Work(s)
  {}

  /** Every step but a chance wake-up brings the end nearer. */
  lemma WorkShrinks(s: State, step: Step)
    requires Inv(s) && Next(s, step).Just?
    ensures Work(Next(s, step).value) <= Work(s) + if step == Wake then 5 else -1
  {
    hide CallerNext, QueryNext, Work, CallerOk;
    match step
    case CallerStep => CallerWork(s);
    case QueryStep(first) => QueryWork(s, first);
    case _ => WakeWork(s, step);
  }

  lemma WakeWork(s: State, step: Step)
    requires StartOk(s) && Next(s, step).Just? && (step.Wake? || step.Interrupt?)
    ensures Work(Next(s, step).value) <= Work(s) + if step == Wake then 5 else -1
  {}

  function Wakes(steps: seq<Step>): nat
  {
    if |steps| == 0 then 0 else Wakes(steps[..|steps| - 1]) + if steps[|steps| - 1] == Wake then 1 else 0
  }

  /** No run is longer than its chance wake-ups allow; as somebody can always move until the caller
      is through, the caller comes through under every schedule. */
  lemma {:induction false} RunsEnd(first: Outcome, second: Outcome, steps: seq<Step>)
    requires Run(Initial(first, second), steps).Just?
    ensures |steps| + Work(Run(Initial(first, second), steps).value) <= 133 + 6 * Wakes(steps)
  {
    if |steps| > 0 {
      RunsEnd(first, second, steps[..|steps| - 1]);
      RunKeeps(first, second, steps[..|steps| - 1]);
      WorkShrinks(Run(Initial(first, second), steps[..|steps| - 1]).value, steps[|steps| - 1]);
    }
  }

  // ---- what the caller gets

  /** An answer is one of the two queries' own; an exception means that neither had one. It is null
      exactly when q1x was ended by an Error, which leaves its uhe unset. */
  lemma ResultIsRight(first: Outcome, second: Outcome, steps: seq<Step>)
    requires Run(Initial(first, second), steps).Just?
    ensures
      var s := Run(Initial(first, second), steps).value;
      && (s.caller.Returned? ==> first == Answer(s.caller.address) || second == Answer(s.caller.address))
      && (s.caller.Threw? ==> !first.Answer? && !second.Answer? && (s.caller.uhe <==> first != Died))
  {
    RunKeeps(first, second, steps);
    OutcomesStay(first, second, steps);
    var s := Run(Initial(first, second), steps).value;
    if s.caller.Threw? { CountedOut(s); }
  }

  lemma {:induction false} OutcomesStay(first: Outcome, second: Outcome, steps: seq<Step>)
    requires Run(Initial(first, second), steps).Just?
    ensures
      var s := Run(Initial(first, second), steps).value;
      s.q1x.outcome == first && s.q20.outcome == second
  {
    if |steps| > 0 {
      OutcomesStay(first, second, steps[..|steps| - 1]);
    }
  }

  /** If a query has an answer and nobody interrupts, an answer is returned, not an exception. */
  lemma AnswerIsReturned(first: Outcome, second: Outcome, steps: seq<Step>)
    requires Run(Initial(first, second), steps).Just? && (first.Answer? || second.Answer?)
    requires forall i | 0 <= i < |steps| :: steps[i] != Interrupt
    ensures
      var s := Run(Initial(first, second), steps).value;
      Finished(s.caller) ==> s.caller.Returned?
  {
    ResultIsRight(first, second, steps);
    NotInterrupted(first, second, steps);
  }

  /** More steps from a state that a run reached. */
  lemma RunOneMore(s: State, steps: seq<Step>, more: Step)
    ensures Run(s, steps + [more]) == if Run(s, steps).Just? then Next(Run(s, steps).value, more) else Nothing
  {
    assert (steps + [more])[..|steps|] == steps;
  }

  lemma ResumedBefore(s: State, steps: seq<Step>, more: seq<Step>)
    requires |more| > 0 && Run(s, steps + more).Just?
    ensures
      var n := |more| - 1;
      && Run(s, steps + more[..n]).Just?
      && Run(s, steps + more) == Next(Run(s, steps + more[..n]).value, more[n])
  {
    var n := |more| - 1;
    assert steps + more == (steps + more[..n]) + [more[n]];
    RunOneMore(s, steps + more[..n], more[n]);
  }

  /** q1x has answered, and the caller has not looked past that. */
  ghost predicate PrefersFirst(s: State)
  {
    && s.q1x.ans.Just? && s.caller != Reading(true) && !s.caller.Threw?
    && (s.caller.Returned? ==> s.caller.address == s.q1x.ans.value)
  }

  lemma StillPrefersFirst(s: State, step: Step)
    requires Inv(s) && PrefersFirst(s) && Next(s, step).Just?
    ensures PrefersFirst(Next(s, step).value)
  {}

  /** Whichever query was faster: once q1x has its answer, the caller returns that one, unless it has already found
      q1x without one and turned to q20, or is interrupted. */
  lemma {:induction false} FirstPreferred(first: Outcome, second: Outcome, steps: seq<Step>, more: seq<Step>)
    requires Run(Initial(first, second), steps).Just? && Run(Initial(first, second), steps + more).Just?
    requires
      var s := Run(Initial(first, second), steps).value;
      s.q1x.ans.Just? && s.caller != Reading(true) && !Finished(s.caller)
    ensures
      var t := Run(Initial(first, second), steps + more).value;
      PrefersFirst(t) && (Finished(t.caller) ==> t.caller == Interrupted || Answer(t.caller.address) == first)
  {
    hide Inv, Next;
    if |more| == 0 {
      assert steps + more == steps;
    } else {
      ResumedBefore(Initial(first, second), steps, more);
      FirstPreferred(first, second, steps, more[..|more| - 1]);
      RunKeeps(first, second, steps + more[..|more| - 1]);
      StillPrefersFirst(Run(Initial(first, second), steps + more[..|more| - 1]).value, more[|more| - 1]);
    }
    RunKeeps(first, second, steps + more);
    OutcomesStay(first, second, steps + more);
    AnsIsOutcome(Run(Initial(first, second), steps + more).value);
  }

  lemma AnsIsOutcome(s: State)
    requires Inv(s)
    ensures s.q1x.ans.Just? ==> s.q1x.outcome == Answer(s.q1x.ans.value)
  {}

  /** The caller is on its way out, or will see at its next look that there is something to leave for. */
  ghost predicate SeesReason(s: State)
  {
    match s.caller
    case Looking(n) =>
      (n <= 0 && s.count <= 0) || (n <= 1 && s.q1x.ans.Just?) || (n <= 2 && s.q20.ans.Just?)
    case Leaving(throwing) => !throwing
    case Reading(_) => true
    case Returned(_) => true
    case Threw(_) => true
    case _ => false
  }

  lemma StillSeesReason(s: State, step: Step)
    requires Inv(s) && SeesReason(s) && Next(s, step).Just?
    ensures SeesReason(Next(s, step).value)
  {}

  /** An answer that is there when the caller comes to look for it, or a counter that has run out, is not waited
      past: the caller does not sleep again. */
  lemma {:induction false} ReasonIsTaken(first: Outcome, second: Outcome, steps: seq<Step>, more: seq<Step>)
    requires Run(Initial(first, second), steps).Just? && Run(Initial(first, second), steps + more).Just?
    requires SeesReason(Run(Initial(first, second), steps).value)
    ensures
      var t := Run(Initial(first, second), steps + more).value;
      SeesReason(t) && t.caller != Sleeping && !t.caller.Woken? && t.caller != Interrupted
  {
    hide Inv, Next;
    if |more| == 0 {
      assert steps + more == steps;
    } else {
      ResumedBefore(Initial(first, second), steps, more);
      ReasonIsTaken(first, second, steps, more[..|more| - 1]);
      RunKeeps(first, second, steps + more[..|more| - 1]);
      StillSeesReason(Run(Initial(first, second), steps + more[..|more| - 1]).value, more[|more| - 1]);
    }
  }

  lemma {:induction false} NotInterrupted(first: Outcome, second: Outcome, steps: seq<Step>)
    requires Run(Initial(first, second), steps).Just?
    requires forall i | 0 <= i < |steps| :: steps[i] != Interrupt
    ensures
      var s := Run(Initial(first, second), steps).value;
      s.caller != Interrupted && s.caller != Woken(true) && s.caller != Leaving(true)
  {
    if |steps| > 0 {
      NotInterrupted(first, second, steps[..|steps| - 1]);
      assert steps[|steps| - 1] != Interrupt;
    }
  }
}
