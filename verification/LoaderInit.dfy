/**
 * The once-only initialisation of the loader code: any number of threads enter, one runs
 * InitInject, the others wait for it. One step is one access to the shared fields.
 */
module LoaderInit {
  /** Where a thread is in EntrypointC. */
  datatype PC =
    | Entered     // about to read InitDone
    | Swapping    // about to compare-and-swap InitLock
    | Won         // about to call InitInject
    | Injecting   // inside InitInject
    | Injected    // about to set InitDone
    | Unlocking   // about to store 1 to InitLock
    | Spinning    // about to read InitLock again
    | Returned    // has returned the trampoline

  const UNTOUCHED := 0
  const BUSY := -1
  const READY := 1

  /** The shared fields, the threads, and what has become of InitInject. */
  datatype State = State(initDone: bool, lock: int, threads: seq<PC>, calls: nat, finished: bool)

  predicate Init(s: State) {
    !s.initDone && s.lock == UNTOUCHED && s.calls == 0 && !s.finished && forall t | 0 <= t < |s.threads| :: s.threads[t] == Entered
  }

  /** Thread t takes its next step. */
  function Step(s: State, t: nat): State
    requires t < |s.threads|
  {
    match s.threads[t]
    case Entered => Go(s, t, if s.initDone then Returned else Swapping)
    case Swapping =>
      if s.lock == UNTOUCHED then Go(s.(lock := BUSY), t, Won)
      else if s.lock == BUSY then Go(s, t, Spinning)
      else Go(s, t, Returned)
    case Won => Go(s.(calls := s.calls + 1), t, Injecting)
    case Injecting => Go(s.(finished := true), t, Injected)
    case Injected => Go(s.(initDone := true), t, Unlocking)
    case Unlocking => Go(s.(lock := READY), t, Returned)
    case Spinning => if s.lock == BUSY then s else Go(s, t, Returned)
    case Returned => s
  }

  function Go(s: State, t: nat, pc: PC): State
    requires t < |s.threads|
  {
    s.(threads := s.threads[t := pc])
  }

  /** The state after the threads of a schedule have each taken a step, in that order. */
  function Run(s: State, schedule: seq<nat>): State
    decreases |schedule|
  {
    if schedule == [] then s
    else if schedule[0] < |s.threads| then Run(Step(s, schedule[0]), schedule[1..])
    else Run(s, schedule[1..])
  }

  predicate Winning(pc: PC) {
    pc == Won || pc == Injecting || pc == Injected || pc == Unlocking
  }

  /** While the lock is busy, one thread is at work, and the other fields follow it. */
  ghost predicate Busy(s: State, w: nat) {
    && w < |s.threads| && Winning(s.threads[w])
    && (forall t | 0 <= t < |s.threads| && t != w :: !Winning(s.threads[t]))
    && s.calls == (if s.threads[w] == Won then 0 else 1)
    && s.finished == (s.threads[w] == Injected || s.threads[w] == Unlocking)
    && s.initDone == (s.threads[w] == Unlocking)
  }

  ghost predicate Inv(s: State) {
    && (s.lock == UNTOUCHED ==>
          && s.calls == 0 && !s.finished && !s.initDone
          && forall t | 0 <= t < |s.threads| :: s.threads[t] == Entered || s.threads[t] == Swapping)
    && (s.lock == BUSY ==> exists w :: Busy(s, w))
    && (s.lock == READY ==>
          && s.calls == 1 && s.finished && s.initDone
          && forall t | 0 <= t < |s.threads| :: !Winning(s.threads[t]))
    && (s.lock == UNTOUCHED || s.lock == BUSY || s.lock == READY)
    && forall t | 0 <= t < |s.threads| && s.threads[t] == Returned :: s.initDone
  }

  lemma StepKeepsInv(s: State, t: nat)
    requires Inv(s) && t < |s.threads|
    ensures Inv(Step(s, t))
  {
    var s' := Step(s, t);
    if s.lock == BUSY {
      var w :| Busy(s, w);
      if s'.lock == BUSY { assert Busy(s', w); }
    } else if s.lock == UNTOUCHED && s'.lock == BUSY {
      assert Busy(s', t);
    }
  }

  lemma {:induction false} RunKeepsInv(s: State, schedule: seq<nat>)
    requires Inv(s)
    ensures Inv(Run(s, schedule)) && |Run(s, schedule).threads| == |s.threads|
    decreases |schedule|
  {
    if schedule != [] {
      if schedule[0] < |s.threads| {
        StepKeepsInv(s, schedule[0]);
        RunKeepsInv(Step(s, schedule[0]), schedule[1..]);
      } else {
        RunKeepsInv(s, schedule[1..]);
      }
    }
  }

  /** In every state of every run InitInject has been called at most once, and before any thread has returned it has finished and InitDone is set. */
  lemma OnceBeforeAnyReturn(s: State, schedule: seq<nat>, t: nat)
    requires Init(s) && t < |s.threads|
    ensures var r := Run(s, schedule);
            && r.calls <= 1 && |r.threads| == |s.threads|
            && (r.threads[t] == Returned ==> r.calls == 1 && r.finished && r.initDone)
  {
    RunKeepsInv(s, schedule);
    var r := Run(s, schedule);
    if r.lock == BUSY {
      var w :| Busy(r, w);
    }
  }

  // ----- progress

  /** A thread whose step would change something. */
  predicate CanMove(s: State, t: nat)
    requires t < |s.threads|
  {
    s.threads[t] != Returned && !(s.threads[t] == Spinning && s.lock == BUSY)
  }

  /** As long as a thread has not returned, some thread can move. */
  lemma NoDeadlock(s: State)
    requires Inv(s) && exists t :: 0 <= t < |s.threads| && s.threads[t] != Returned
    ensures exists t :: 0 <= t < |s.threads| && CanMove(s, t)
  {
    if s.lock == BUSY {
      var w :| Busy(s, w);
      assert CanMove(s, w);
    } else {
      var t :| 0 <= t < |s.threads| && s.threads[t] != Returned;
      assert CanMove(s, t);
    }
  }

  function Rank(pc: PC): nat {
    match pc
    case Entered => 7
    case Swapping => 6
    case Won => 5
    case Injecting => 4
    case Injected => 3
    case Unlocking => 2
    case Spinning => 1
    case Returned => 0
  }

  function Work(threads: seq<PC>): nat {
    if threads == [] then 0 else Rank(threads[0]) + Work(threads[1..])
  }

  lemma {:induction false} WorkUpdate(threads: seq<PC>, t: nat, pc: PC)
    requires t < |threads|
    ensures Work(threads[t := pc]) + Rank(threads[t]) == Work(threads) + Rank(pc)
  {
    if t > 0 {
      assert threads[t := pc][1..] == threads[1..][t - 1 := pc];
      WorkUpdate(threads[1..], t - 1, pc);
    } else {
      assert threads[t := pc][1..] == threads[1..];
    }
  }

  /** Every step that changes something brings the end nearer; any other step is a spin and changes nothing. */
  lemma StepProgress(s: State, t: nat)
    requires t < |s.threads|
    ensures if CanMove(s, t) then Work(Step(s, t).threads) < Work(s.threads) else Step(s, t) == s
  {
    if CanMove(s, t) {
      StepMoves(s, t);
      hide Step, CanMove, Rank, Work;
      WorkUpdate(s.threads, t, Step(s, t).threads[t]);
    }
  }

  /** A step that changes something moves one thread on. */
  lemma StepMoves(s: State, t: nat)
    requires t < |s.threads| && CanMove(s, t)
    ensures var s' := Step(s, t);
            |s'.threads| == |s.threads| && s'.threads == s.threads[t := s'.threads[t]] && Rank(s'.threads[t]) < Rank(s.threads[t])
  {
  }

  /** How many steps of a schedule change something. */
  function Moves(s: State, schedule: seq<nat>): nat
    decreases |schedule|
  {
    if schedule == [] then 0
    else if schedule[0] < |s.threads| then
      (if CanMove(s, schedule[0]) then 1 else 0) + Moves(Step(s, schedule[0]), schedule[1..])
    else Moves(s, schedule[1..])
  }

  lemma {:induction false} WorkBound(threads: seq<PC>)
    ensures Work(threads) <= 7 * |threads|
  {
    if threads != [] {
      WorkBound(threads[1..]);
    }
  }

  lemma {:induction false} MovesBounded(s: State, schedule: seq<nat>)
    ensures Moves(s, schedule) + Work(Run(s, schedule).threads) <= Work(s.threads)
    decreases |schedule|
  {
    if schedule != [] {
      if schedule[0] < |s.threads| {
        StepProgress(s, schedule[0]);
        MovesBounded(Step(s, schedule[0]), schedule[1..]);
      } else {
        MovesBounded(s, schedule[1..]);
      }
    }
  }

  /** No run has more than seven moves a thread, and a run that leaves no thread able to move has let every thread return. */
  lemma EveryThreadReturns(s: State, schedule: seq<nat>)
    requires Init(s)
    ensures Moves(s, schedule) <= 7 * |s.threads|
    ensures var r := Run(s, schedule);
            (forall t | 0 <= t < |r.threads| :: !CanMove(r, t)) ==> forall t | 0 <= t < |r.threads| :: r.threads[t] == Returned
  {
    MovesBounded(s, schedule);
    WorkBound(s.threads);
    RunKeepsInv(s, schedule);
    var r := Run(s, schedule);
    if (forall t | 0 <= t < |r.threads| :: !CanMove(r, t)) && exists t :: 0 <= t < |r.threads| && r.threads[t] != Returned {
      NoDeadlock(r);
    }
  }
}
