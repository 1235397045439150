/**
 * What an event does, from its history alone: which calls were made before, by whom, and what they
 * answered. No statement here speaks of the waiting threads the state keeps.
 */
module EventHistory {
  import opened Waiting
  import opened Events

  // ── the signal ───────────────────────────────────────────────────────────

  /** The last call that set or took the signal decides; before any, the initial state does. */
  function Lit(manual: bool, initial: bool, past: seq<Action>): bool {
    if past == [] then initial
    else
      var last := past[|past| - 1];
      if last.call == SetEvent then true
      else if last.call == ResetEvent || (last.reply == Object0 && !manual) then false
      else Lit(manual, initial, past[..|past| - 1])
  }

  lemma LitNext(manual: bool, initial: bool, actions: seq<Action>, j: nat)
    requires j < |actions|
    ensures Lit(manual, initial, actions[..j + 1]) ==
            if actions[j].call == SetEvent then true
            else if actions[j].call == ResetEvent || (actions[j].reply == Object0 && !manual) then false
            else Lit(manual, initial, actions[..j])
  {
    assert actions[..j + 1][..j] == actions[..j];
  }

  /** In every run the event is signaled exactly when its history says so. */
  lemma {:induction false} SignalIsHistory(states: seq<State>, actions: seq<Action>, j: nat)
    requires Run(states, actions) && j < |states|
    ensures states[j].manualReset == states[0].manualReset
    ensures states[j].signaled == Lit(states[0].manualReset, states[0].signaled, actions[..j])
  {
    if j > 0 {
      SignalIsHistory(states, actions, j - 1);
      LitNext(states[0].manualReset, states[0].signaled, actions, j - 1);
      SignalStep(states[j - 1], actions[j - 1], states[j]);
      assert Step(states[j - 1], actions[j - 1], states[j]);
    }
  }

  lemma SignalStep(a: State, x: Action, b: State)
    requires Step(a, x, b)
    ensures b.manualReset == a.manualReset
    ensures b.signaled ==
            if x.call == SetEvent then true
            else if x.call == ResetEvent || (x.reply == Object0 && !a.manualReset) then false
            else a.signaled
  {
  }

  /** From a reset until the next set, the event of either kind is off and no wait passes. */
  lemma {:induction false} ResetHolds(states: seq<State>, actions: seq<Action>, i: nat, j: nat)
    requires Run(states, actions) && i < j < |states| && actions[i].call == ResetEvent
    requires forall k :: i < k < j ==> actions[k].call != SetEvent
    ensures !states[j].signaled
    ensures forall k :: i < k < j ==> actions[k].reply != Object0
    decreases j
  {
    if i < j - 1 { ResetHolds(states, actions, i, j - 1); }
    assert Step(states[j - 1], actions[j - 1], states[j]);
    SignalStep(states[j - 1], actions[j - 1], states[j]);
    PassNeedsSignal(states[j - 1], actions[j - 1], states[j]);
  }

  lemma PassNeedsSignal(a: State, x: Action, b: State)
    requires Step(a, x, b)
    ensures x.reply == Object0 ==> a.signaled
  {
  }

  // ── a thread's own wait ──────────────────────────────────────────────────

  predicate ActsFor(x: Action, t: Thread) { (x.call.Enter? || x.call.Resume?) && x.call.t == t }

  /** Whether the last wait `t` entered has a time limit. */
  function Limited(past: seq<Action>, t: Thread): bool {
    if past == [] then false
    else
      var last := past[|past| - 1];
      if last.call.Enter? && last.call.t == t then last.call.timed else Limited(past[..|past| - 1], t)
  }

  /** Whether the condition variable timed out for `t` since `t` last looked at the event. */
  function RanOut(past: seq<Action>, t: Thread): bool {
    if past == [] then false
    else
      var last := past[|past| - 1];
      if last.call == Expire(t) then true
      else if ActsFor(last, t) then false
      else RanOut(past[..|past| - 1], t)
  }

  predicate Recalls(w: Waiters, past: seq<Action>, t: Thread) {
    && (t in w.parked ==> w.parked[t] == Limited(past, t) && !RanOut(past, t))
    && (t in w.woken ==> w.woken[t].timed == Limited(past, t) && w.woken[t].timedOut == RanOut(past, t))
  }

  lemma OwnNext(actions: seq<Action>, j: nat, t: Thread)
    requires j < |actions|
    ensures Limited(actions[..j + 1], t) ==
            if actions[j].call.Enter? && actions[j].call.t == t then actions[j].call.timed else Limited(actions[..j], t)
    ensures RanOut(actions[..j + 1], t) ==
            if actions[j].call == Expire(t) then true else if ActsFor(actions[j], t) then false else RanOut(actions[..j], t)
  {
    assert actions[..j + 1][..j] == actions[..j];
  }

  /** How one step moves one thread. */
  lemma ThreadStep(a: State, x: Action, b: State, t: Thread)
    requires Inv(a) && Step(a, x, b)
    ensures t in b.waiters.parked ==>
              if ActsFor(x, t) then b.waiters.parked[t] == (if x.call.Enter? then x.call.timed else t in a.waiters.woken && a.waiters.woken[t].timed)
              else t in a.waiters.parked && b.waiters.parked[t] == a.waiters.parked[t] && x.call != Expire(t)
    ensures t in b.waiters.woken ==>
              && !ActsFor(x, t)
              && if t in a.waiters.parked then b.waiters.woken[t] == Wake(a.waiters.parked[t], x.call == Expire(t))
                 else t in a.waiters.woken && b.waiters.woken[t] == a.waiters.woken[t] && x.call != Expire(t)
    ensures x.call.Resume? && x.call.t == t ==> t in a.waiters.woken
  {
  }

  /** The state remembers each waiting thread's time limit and timeout as the history has them. */
  lemma {:induction false} WaitersRecall(states: seq<State>, actions: seq<Action>, j: nat, t: Thread)
    requires Run(states, actions) && j < |states|
    ensures Recalls(states[j].waiters, actions[..j], t)
  {
    if j > 0 {
      WaitersRecall(states, actions, j - 1, t);
      RunKeepsInv(states, actions, j - 1);
      OwnNext(actions, j - 1, t);
      assert Step(states[j - 1], actions[j - 1], states[j]);
      ThreadStep(states[j - 1], actions[j - 1], states[j], t);
    }
  }

  // ── the answers ──────────────────────────────────────────────────────────

  /** The answer to a wait, from the history before it. */
  function Answer(lit: bool, limited: bool, late: bool): Reply {
    if lit then Object0 else if limited && late then Timeout else Blocked
  }

  /** Every wait passes exactly on a signal, times out exactly when it has a limit that is over, and blocks otherwise. */
  lemma AnswersAreHistory(states: seq<State>, actions: seq<Action>, j: nat)
    requires Run(states, actions) && j < |actions|
    ensures var x, lit := actions[j], Lit(states[0].manualReset, states[0].signaled, actions[..j]);
            match x.call
            case Enter(_, timed, expired) => x.reply == Answer(lit, timed, expired)
            case Resume(t, expired) => x.reply == Answer(lit, Limited(actions[..j], t), expired || RanOut(actions[..j], t))
            case _ => x.reply == Done
  {
    SignalIsHistory(states, actions, j);
    assert Step(states[j], actions[j], states[j + 1]);
    if actions[j].call.Resume? {
      var t := actions[j].call.t;
      WaitersRecall(states, actions, j, t);
      OnlyLimitedRunOut(states, actions, j, t);
    }
  }

  /** The condition variable times out only for threads whose wait has a limit. */
  lemma {:induction false} OnlyLimitedRunOut(states: seq<State>, actions: seq<Action>, j: nat, t: Thread)
    requires Run(states, actions) && j < |states|
    ensures RanOut(actions[..j], t) ==> Limited(actions[..j], t)
  {
    if j > 0 {
      OnlyLimitedRunOut(states, actions, j - 1, t);
      OwnNext(actions, j - 1, t);
      WaitersRecall(states, actions, j - 1, t);
      assert Step(states[j - 1], actions[j - 1], states[j]);
    }
  }

  /** A wait without a time limit never times out. */
  lemma UnlimitedNeverTimesOut(states: seq<State>, actions: seq<Action>, j: nat)
    requires Run(states, actions) && j < |actions| && actions[j].reply == Timeout
    ensures match actions[j].call
            case Enter(_, timed, _) => timed
            case Resume(t, _) => Limited(actions[..j], t)
            case _ => false
  {
    AnswersAreHistory(states, actions, j);
  }

  // ── the wakeups ──────────────────────────────────────────────────────────

  /** Threads an action of an auto-reset event lets go. */
  function LetGo(a: State, x: Action): nat {
    match x.call
    case SetEvent => if a.waiters.parked.Keys == {} then 0 else 1
    case Spurious(_) => 1
    case Expire(_) => 1
    case _ => 0
  }

  function TotalLetGo(states: seq<State>, actions: seq<Action>): nat
    requires |states| >= |actions|
  {
    if actions == [] then 0
    else TotalLetGo(states[..|actions| - 1], actions[..|actions| - 1]) + LetGo(states[|actions| - 1], actions[|actions| - 1])
  }

  function Resumed(actions: seq<Action>): nat {
    if actions == [] then 0 else Resumed(actions[..|actions| - 1]) + if actions[|actions| - 1].call.Resume? then 1 else 0
  }

  lemma WokenCount(a: State, x: Action, b: State)
    requires Inv(a) && Step(a, x, b) && !a.manualReset
    ensures |b.waiters.woken| + (if x.call.Resume? then 1 else 0) == |a.waiters.woken| + LetGo(a, x)
  {
  }

  /**
   * Wakeups are conserved: on an auto-reset event each set lets exactly one blocked thread go, if
   * there is one, and each thread let go resumes once or is still on its way.
   */
  lemma {:induction false} WakeupsConserved(states: seq<State>, actions: seq<Action>, j: nat)
    requires Run(states, actions) && j < |states| && !states[0].manualReset
    ensures Resumed(actions[..j]) + |states[j].waiters.woken| == TotalLetGo(states[..j], actions[..j])
  {
    if j > 0 {
      WakeupsConserved(states, actions, j - 1);
      RunKeepsInv(states, actions, j - 1);
      assert Step(states[j - 1], actions[j - 1], states[j]);
      WokenCount(states[j - 1], actions[j - 1], states[j]);
      assert actions[..j][..j - 1] == actions[..j - 1] && states[..j][..j - 1] == states[..j - 1];
    }
  }

  /** A set of a manual-reset event lets every blocked thread go. */
  lemma SetWakesAll(states: seq<State>, actions: seq<Action>, j: nat)
    requires Run(states, actions) && j < |actions| && states[0].manualReset && actions[j].call == SetEvent
    ensures states[j + 1].waiters.parked.Keys == {}
    ensures states[j + 1].waiters.woken.Keys == states[j].waiters.parked.Keys + states[j].waiters.woken.Keys
  {
    RunKeepsInv(states, actions, j);
    assert Step(states[j], actions[j], states[j + 1]);
    WakeAllWakes(states[j].waiters);
  }
}

/** Mutexes likewise. */
module MutexHistory {
  import opened Waiting
  import opened Mutexes

  /** The last wait that got the mutex or call that released it decides. */
  function Taken(initial: bool, past: seq<Action>): bool {
    if past == [] then initial
    else
      var last := past[|past| - 1];
      if last.reply == Object0 then true
      else if last.call == ReleaseMutex then false
      else Taken(initial, past[..|past| - 1])
  }

  lemma {:induction false} LockIsHistory(states: seq<State>, actions: seq<Action>, j: nat)
    requires Run(states, actions) && j < |states|
    ensures states[j].locked == Taken(states[0].locked, actions[..j])
  {
    if j > 0 {
      LockIsHistory(states, actions, j - 1);
      assert Step(states[j - 1], actions[j - 1], states[j]);
      LockStep(states[j - 1], actions[j - 1], states[j]);
      assert actions[..j][..j - 1] == actions[..j - 1];
    }
  }

  lemma LockStep(a: State, x: Action, b: State)
    requires Step(a, x, b)
    ensures b.locked == if x.reply == Object0 then true else if x.call == ReleaseMutex then false else a.locked
  {
  }

  predicate ActsFor(x: Action, t: Thread) { (x.call.Enter? || x.call.Resume?) && x.call.t == t }

  function Limited(past: seq<Action>, t: Thread): bool {
    if past == [] then false
    else
      var last := past[|past| - 1];
      if last.call.Enter? && last.call.t == t then last.call.timed else Limited(past[..|past| - 1], t)
  }

  function RanOut(past: seq<Action>, t: Thread): bool {
    if past == [] then false
    else
      var last := past[|past| - 1];
      if last.call == Expire(t) then true
      else if ActsFor(last, t) then false
      else RanOut(past[..|past| - 1], t)
  }

  predicate Recalls(w: Waiters, past: seq<Action>, t: Thread) {
    && (t in w.parked ==> w.parked[t] == Limited(past, t) && !RanOut(past, t))
    && (t in w.woken ==> w.woken[t].timed == Limited(past, t) && w.woken[t].timedOut == RanOut(past, t))
  }

  lemma OwnNext(actions: seq<Action>, j: nat, t: Thread)
    requires j < |actions|
    ensures Limited(actions[..j + 1], t) ==
            if actions[j].call.Enter? && actions[j].call.t == t then actions[j].call.timed else Limited(actions[..j], t)
    ensures RanOut(actions[..j + 1], t) ==
            if actions[j].call == Expire(t) then true else if ActsFor(actions[j], t) then false else RanOut(actions[..j], t)
  {
    assert actions[..j + 1][..j] == actions[..j];
  }

  lemma ThreadStep(a: State, x: Action, b: State, t: Thread)
    requires Inv(a) && Step(a, x, b)
    ensures t in b.waiters.parked ==>
              if ActsFor(x, t) then b.waiters.parked[t] == (if x.call.Enter? then x.call.timed else t in a.waiters.woken && a.waiters.woken[t].timed)
              else t in a.waiters.parked && b.waiters.parked[t] == a.waiters.parked[t] && x.call != Expire(t)
    ensures t in b.waiters.woken ==>
              && !ActsFor(x, t)
              && if t in a.waiters.parked then b.waiters.woken[t] == Wake(a.waiters.parked[t], x.call == Expire(t))
                 else t in a.waiters.woken && b.waiters.woken[t] == a.waiters.woken[t] && x.call != Expire(t)
    ensures x.call.Resume? && x.call.t == t ==> t in a.waiters.woken
  {
  }

  lemma {:induction false} WaitersRecall(states: seq<State>, actions: seq<Action>, j: nat, t: Thread)
    requires Run(states, actions) && j < |states|
    ensures Recalls(states[j].waiters, actions[..j], t)
    ensures RanOut(actions[..j], t) ==> Limited(actions[..j], t)
  {
    if j > 0 {
      WaitersRecall(states, actions, j - 1, t);
      RunKeepsInv(states, actions, j - 1);
      OwnNext(actions, j - 1, t);
      assert Step(states[j - 1], actions[j - 1], states[j]);
      ThreadStep(states[j - 1], actions[j - 1], states[j], t);
    }
  }

  /**
   * Every answer, from the history before it: a release succeeds exactly on a held mutex, a wait gets
   * exactly a free one, and one that finds it held times out only after its own limit ran out.
   */
  lemma AnswersAreHistory(states: seq<State>, actions: seq<Action>, j: nat)
    requires Run(states, actions) && j < |actions|
    ensures var x, taken := actions[j], Taken(states[0].locked, actions[..j]);
            match x.call
            case ReleaseMutex => x.reply == if taken then Done else NotOwned
            case Enter(_, _) => x.reply == if taken then Blocked else Object0
            case Resume(t) =>
              && x.reply == (if !taken then Object0 else if RanOut(actions[..j], t) then Timeout else Blocked)
              && (x.reply == Timeout ==> Limited(actions[..j], t))
            case _ => x.reply == Done
  {
    LockIsHistory(states, actions, j);
    assert Step(states[j], actions[j], states[j + 1]);
    if actions[j].call.Resume? { WaitersRecall(states, actions, j, actions[j].call.t); }
  }

  function LetGo(a: State, x: Action): nat {
    match x.call
    case ReleaseMutex => if a.locked && a.waiters.parked.Keys != {} then 1 else 0
    case Spurious(_) => 1
    case Expire(_) => 1
    case _ => 0
  }

  function TotalLetGo(states: seq<State>, actions: seq<Action>): nat
    requires |states| >= |actions|
  {
    if actions == [] then 0
    else TotalLetGo(states[..|actions| - 1], actions[..|actions| - 1]) + LetGo(states[|actions| - 1], actions[|actions| - 1])
  }

  function Resumed(actions: seq<Action>): nat {
    if actions == [] then 0 else Resumed(actions[..|actions| - 1]) + if actions[|actions| - 1].call.Resume? then 1 else 0
  }

  lemma WokenCount(a: State, x: Action, b: State)
    requires Inv(a) && Step(a, x, b)
    ensures |b.waiters.woken| + (if x.call.Resume? then 1 else 0) == |a.waiters.woken| + LetGo(a, x)
  {
  }

  /** Each successful release lets exactly one blocked thread go, if there is one. */
  lemma {:induction false} WakeupsConserved(states: seq<State>, actions: seq<Action>, j: nat)
    requires Run(states, actions) && j < |states|
    ensures Resumed(actions[..j]) + |states[j].waiters.woken| == TotalLetGo(states[..j], actions[..j])
  {
    if j > 0 {
      WakeupsConserved(states, actions, j - 1);
      RunKeepsInv(states, actions, j - 1);
      assert Step(states[j - 1], actions[j - 1], states[j]);
      WokenCount(states[j - 1], actions[j - 1], states[j]);
      assert actions[..j][..j - 1] == actions[..j - 1] && states[..j][..j - 1] == states[..j - 1];
    }
  }
}
