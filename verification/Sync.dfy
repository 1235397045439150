/**
 * Events and mutexes of crates/perun-shims/src/sync.rs. Each call is one critical section of the
 * object's lock, so a blocking wait is an `Enter` and then a `Resume` each time the condition
 * variable lets the thread go: notified, timed out, or for no reason at all.
 */
module Waiting {
  type Thread = nat

  /** How a thread left the condition variable. */
  datatype Wake = Wake(timed: bool, timedOut: bool)

  /** Threads blocked in the condition variable, and threads let go that do not hold the lock yet. */
  datatype Waiters = Waiters(parked: map<Thread, bool>, woken: map<Thread, Wake>) {
    predicate Valid() { parked.Keys !! woken.Keys }

    predicate Idle(t: Thread) { t !in parked && t !in woken }

    /** `wait` or, when `timed`, `wait_timeout`. */
    function Park(t: Thread, timed: bool): Waiters { this.(parked := parked[t := timed]) }

    function Release(t: Thread, timedOut: bool): Waiters
      requires t in parked
    {
      Waiters(parked - {t}, woken[t := Wake(parked[t], timedOut)])
    }

    /** The thread has the lock again. */
    function Take(t: Thread): Waiters { this.(woken := woken - {t}) }

    function WakeAll(): Waiters {
      Waiters(map[], map t | t in parked.Keys + woken.Keys :: if t in parked then Wake(parked[t], false) else woken[t])
    }

    /** `notify_one` lets one blocked thread go, whichever it likes, if there is one. */
    predicate NotifyOne(after: Waiters) {
      if parked.Keys == {} then after == this
      else exists t :: t in parked && after == Release(t, false)
    }

    function Waiting(): set<Thread> { parked.Keys + woken.Keys }
  }

  datatype Reply = Done | NotOwned | Object0 | Timeout | Blocked

  /** A thread let go moves from one set to the other. */
  lemma ReleaseMoves(w: Waiters, t: Thread, timedOut: bool)
    requires w.Valid() && t in w.parked
    ensures w.Release(t, timedOut).Valid() && w.Release(t, timedOut).Waiting() == w.Waiting()
    ensures t in w.Release(t, timedOut).woken.Keys
  {
    assert w.Release(t, timedOut).parked.Keys == w.parked.Keys - {t};
    assert w.Release(t, timedOut).woken.Keys == w.woken.Keys + {t};
  }

  lemma NotifyOneWakes(w: Waiters, after: Waiters)
    requires w.Valid() && w.NotifyOne(after)
    ensures after.Valid() && after.Waiting() == w.Waiting()
    ensures w.parked.Keys != {} ==> after.woken.Keys != {}
  {
    if w.parked.Keys != {} {
      var t :| t in w.parked && after == w.Release(t, false);
      ReleaseMoves(w, t, false);
    }
  }

  lemma WakeAllWakes(w: Waiters)
    requires w.Valid()
    ensures w.WakeAll().Valid() && w.WakeAll().Waiting() == w.Waiting() && w.WakeAll().parked.Keys == {}
  {
  }
}

/** Auto-reset and manual-reset events. */
module Events {
  import opened Waiting

  datatype State = State(manualReset: bool, signaled: bool, waiters: Waiters)

  /** `expired` is what the clock would say: the deadline of a timed wait has passed. */
  datatype Call = SetEvent | ResetEvent
                | Enter(t: Thread, timed: bool, expired: bool)
                | Resume(t: Thread, expired: bool)
                | Spurious(t: Thread) | Expire(t: Thread)

  datatype Action = Action(call: Call, reply: Reply)

  datatype Outcome = Outcome(state: State, reply: Reply)

  /** The body of the wait loop once the lock is held. */
  function Try(s: State, t: Thread, timed: bool, expired: bool): Outcome {
    if s.signaled then Outcome(s.(signaled := s.manualReset), Object0)
    else if timed && expired then Outcome(s, Timeout)
    else Outcome(s.(waiters := s.waiters.Park(t, timed)), Blocked)
  }

  function TryAgain(s: State, t: Thread, expired: bool): Outcome
    requires t in s.waiters.woken
  {
    var wake, taken := s.waiters.woken[t], s.(waiters := s.waiters.Take(t));
    if wake.timedOut && !s.signaled then Outcome(taken, Timeout) else Try(taken, t, wake.timed, expired)
  }

  predicate Step(a: State, x: Action, b: State) {
    match x.call
    case SetEvent =>
      && x.reply == Done && b.manualReset == a.manualReset && b.signaled
      && (if a.manualReset then b.waiters == a.waiters.WakeAll() else a.waiters.NotifyOne(b.waiters))
    case ResetEvent => x.reply == Done && b == a.(signaled := false)
    case Enter(t, timed, expired) => a.waiters.Idle(t) && Outcome(b, x.reply) == Try(a, t, timed, expired)
    case Resume(t, expired) => t in a.waiters.woken && Outcome(b, x.reply) == TryAgain(a, t, expired)
    case Spurious(t) => x.reply == Done && t in a.waiters.parked && b == a.(waiters := a.waiters.Release(t, false))
    case Expire(t) => x.reply == Done && t in a.waiters.parked && a.waiters.parked[t] && b == a.(waiters := a.waiters.Release(t, true))
  }

  /** A signal never sits beside a blocked thread with nobody on the way to it. */
  predicate NoLostWakeup(s: State) {
    s.signaled && s.waiters.parked.Keys != {} ==> s.waiters.woken.Keys != {}
  }

  predicate Inv(s: State) {
    && s.waiters.Valid() && NoLostWakeup(s)
    && (s.manualReset && s.signaled ==> s.waiters.parked.Keys == {})
  }

  predicate Initial(s: State) { s.waiters == Waiters(map[], map[]) }

  lemma StepKeepsInv(a: State, x: Action, b: State)
    requires Inv(a) && Step(a, x, b)
    ensures Inv(b) && b.manualReset == a.manualReset
  {
    match x.call {
      case SetEvent =>
        if a.manualReset { WakeAllWakes(a.waiters); } else { NotifyOneWakes(a.waiters, b.waiters); }
      case Spurious(t) => assert t in b.waiters.woken;
      case Expire(t) => assert t in b.waiters.woken;
      case _ =>
    }
  }

  /** Any interleaving: one state before and after each action. */
  predicate Run(states: seq<State>, actions: seq<Action>) {
    && |states| == |actions| + 1
    && Initial(states[0])
    && forall i :: 0 <= i < |actions| ==> Step(states[i], actions[i], states[i + 1])
  }

  lemma RunFront(states: seq<State>, actions: seq<Action>)
    requires Run(states, actions) && actions != []
    ensures Run(states[..|actions|], actions[..|actions| - 1])
  {
  }

  /** Every reachable state satisfies the invariant: no wakeup is lost in any interleaving. */
  lemma {:induction false} RunKeepsInv(states: seq<State>, actions: seq<Action>, i: nat)
    requires Run(states, actions) && i < |states|
    ensures Inv(states[i]) && states[i].manualReset == states[0].manualReset
  {
    if i > 0 {
      RunKeepsInv(states, actions, i - 1);
      StepKeepsInv(states[i - 1], actions[i - 1], states[i]);
    }
  }

  function Sets(actions: seq<Action>): nat {
    if actions == [] then 0 else Sets(actions[..|actions| - 1]) + if actions[|actions| - 1].call.SetEvent? then 1 else 0
  }

  function Passes(actions: seq<Action>): nat {
    if actions == [] then 0 else Passes(actions[..|actions| - 1]) + if actions[|actions| - 1].reply.Object0? then 1 else 0
  }

  /** Signals that no wait will ever take: set while set already, or cleared by a reset. */
  function Wasted(states: seq<State>, actions: seq<Action>): nat
    requires |states| == |actions| + 1
  {
    if actions == [] then 0
    else
      var n := |actions| - 1;
      Wasted(states[..n + 1], actions[..n])
      + if states[n].signaled && (actions[n].call.SetEvent? || actions[n].call.ResetEvent?) then 1 else 0
  }

  function Pending(s: State): nat { if s.signaled then 1 else 0 }

  /** Signals are conserved: each one set was taken by exactly one wait, wasted, or is still there. */
  lemma {:induction false} SignalsConserved(states: seq<State>, actions: seq<Action>)
    requires Run(states, actions) && !states[0].manualReset
    ensures Passes(actions) + Wasted(states, actions) + Pending(states[|actions|]) == Sets(actions) + Pending(states[0])
    decreases |actions|
  {
    if actions != [] {
      var n := |actions| - 1;
      RunFront(states, actions);
      SignalsConserved(states[..n + 1], actions[..n]);
      RunKeepsInv(states, actions, n);
      assert Step(states[n], actions[n], states[n + 1]);
      PassMoves(states[n], actions[n], states[n + 1]);
    }
  }

  lemma PassMoves(a: State, x: Action, b: State)
    requires Step(a, x, b) && !a.manualReset
    ensures x.reply.Object0? <==> a.signaled && (x.call.Enter? || x.call.Resume?)
    ensures b.signaled == (x.call.SetEvent? || (a.signaled && !x.call.ResetEvent? && !x.call.Enter? && !x.call.Resume?))
  {
  }

  /** Successful waits on an auto-reset event never outnumber the signals. */
  lemma PassesBounded(states: seq<State>, actions: seq<Action>)
    requires Run(states, actions) && !states[0].manualReset
    ensures Passes(actions) <= Sets(actions) + Pending(states[0])
  {
    SignalsConserved(states, actions);
  }

  predicate Waits(x: Action) { x.call.Enter? || x.call.Resume? }

  /** What takes a signal away: a reset, or a wait that passes an auto-reset event. */
  predicate Takes(s: State, x: Action) { x.call.ResetEvent? || (!s.manualReset && x.reply == Object0) }

  /** Once set, the event stays signaled until something takes the signal. */
  lemma {:induction false} StaysSignaled(states: seq<State>, actions: seq<Action>, i: nat, j: nat)
    requires Run(states, actions) && i < j < |states| && actions[i].call.SetEvent?
    requires forall k :: i < k < j ==> !Takes(states[k], actions[k])
    ensures states[j].signaled
    decreases j
  {
    assert Step(states[j - 1], actions[j - 1], states[j]);
    if i < j - 1 { StaysSignaled(states, actions, i, j - 1); }
  }

  /** Any wait that looks at the event before something takes the signal passes, even if its time is up. */
  lemma SetReaches(states: seq<State>, actions: seq<Action>, i: nat, j: nat)
    requires Run(states, actions) && i < j < |actions| && actions[i].call.SetEvent? && Waits(actions[j])
    requires forall k :: i < k < j ==> !Takes(states[k], actions[k])
    ensures actions[j].reply == Object0
  {
    StaysSignaled(states, actions, i, j);
    assert Step(states[j], actions[j], states[j + 1]);
  }

  /** So a timeout after a set is always someone's doing: a reset, or a wait that took the signal first. */
  lemma TimeoutExplained(states: seq<State>, actions: seq<Action>, i: nat, j: nat)
    requires Run(states, actions) && i < j < |actions| && actions[i].call.SetEvent? && actions[j].reply == Timeout
    ensures exists k :: i < k < j && Takes(states[k], actions[k])
  {
    assert Step(states[j], actions[j], states[j + 1]);
    if forall k :: i < k < j ==> !Takes(states[k], actions[k]) { SetReaches(states, actions, i, j); }
  }

  /** A waiting thread stays in one of the two sets until its wait returns; nothing else moves it out. */
  lemma WaitersConserved(a: State, x: Action, b: State)
    requires Inv(a) && Step(a, x, b)
    ensures b.waiters.Waiting() ==
            if x.reply == Blocked then a.waiters.Waiting() + {x.call.t}
            else if x.call.Resume? then a.waiters.Waiting() - {x.call.t}
            else a.waiters.Waiting()
  {
    match x.call {
      case SetEvent =>
        if a.manualReset { WakeAllWakes(a.waiters); } else { NotifyOneWakes(a.waiters, b.waiters); }
      case _ =>
    }
  }

  /** When no thread is on its way and some are blocked, the event is not signaled. */
  lemma QuietMeansUnsignaled(states: seq<State>, actions: seq<Action>, i: nat)
    requires Run(states, actions) && i < |states|
    requires states[i].waiters.woken.Keys == {} && states[i].waiters.parked.Keys != {}
    ensures !states[i].signaled
  {
    RunKeepsInv(states, actions, i);
  }

  class Event {
    const manualReset: bool
    var signaled: bool
    var waiters: Waiters

    ghost function View(): State
      reads this
    {
      State(manualReset, signaled, waiters)
    }

    constructor (manual: bool, initial: bool)
      ensures View() == State(manual, initial, Waiters(map[], map[])) && Inv(View())
    {
      manualReset, signaled, waiters := manual, initial, Waiters(map[], map[]);
    }

    method Set()
      requires Inv(View())
      modifies this
      ensures Step(old(View()), Action(SetEvent, Done), View()) && Inv(View())
    {
      signaled := true;
      if manualReset {
        waiters := waiters.WakeAll();
      } else if waiters.parked.Keys != {} {
        var t :| t in waiters.parked;
        waiters := waiters.Release(t, false);
        assert t in waiters.woken;
      }
    }

    method Reset()
      requires Inv(View())
      modifies this
      ensures Step(old(View()), Action(ResetEvent, Done), View()) && Inv(View())
    {
      signaled := false;
    }

    /** `wait_on_event` from the lock to its first block or its return. */
    method WaitEnter(t: Thread, timed: bool, expired: bool) returns (reply: Reply)
      requires Inv(View()) && waiters.Idle(t)
      modifies this
      ensures Step(old(View()), Action(Enter(t, timed, expired), reply), View()) && Inv(View())
    {
      ghost var before := View();
      if !signaled {
        if timed && expired { return Timeout; }
        waiters := waiters.Park(t, timed);
        StepKeepsInv(before, Action(Enter(t, timed, expired), Blocked), View());
        return Blocked;
      }
      if !manualReset {
        signaled := false;
      }
      reply := Object0;
    }

    /** The rest of `wait_on_event`, from the return of `wait` or `wait_timeout`. */
    method WaitResume(t: Thread, expired: bool) returns (reply: Reply)
      requires Inv(View()) && t in waiters.woken
      modifies this
      ensures Step(old(View()), Action(Resume(t, expired), reply), View()) && Inv(View())
    {
      ghost var before := View();
      var wake := waiters.woken[t];
      waiters := waiters.Take(t);
      if wake.timedOut && !signaled {
        reply := Timeout;
      } else if signaled {
        if !manualReset {
          signaled := false;
        }
        reply := Object0;
      } else if wake.timed && expired {
        reply := Timeout;
      } else {
        waiters := waiters.Park(t, wake.timed);
        reply := Blocked;
      }
      StepKeepsInv(before, Action(Resume(t, expired), reply), View());
    }
  }
}

/** Mutexes: one flag, whoever holds it. */
module Mutexes {
  import opened Waiting

  datatype State = State(locked: bool, waiters: Waiters)

  datatype Call = ReleaseMutex | Enter(t: Thread, timed: bool) | Resume(t: Thread) | Spurious(t: Thread) | Expire(t: Thread)

  datatype Action = Action(call: Call, reply: Reply)

  datatype Outcome = Outcome(state: State, reply: Reply)

  /** The deadline is recomputed on every turn, so no clock is read before blocking. */
  function Try(s: State, t: Thread, timed: bool): Outcome {
    if s.locked then Outcome(s.(waiters := s.waiters.Park(t, timed)), Blocked)
    else Outcome(s.(locked := true), Object0)
  }

  function TryAgain(s: State, t: Thread): Outcome
    requires t in s.waiters.woken
  {
    var wake, taken := s.waiters.woken[t], s.(waiters := s.waiters.Take(t));
    if wake.timedOut && s.locked then Outcome(taken, Timeout) else Try(taken, t, wake.timed)
  }

  predicate Step(a: State, x: Action, b: State) {
    match x.call
    case ReleaseMutex =>
      if a.locked then x.reply == Done && !b.locked && a.waiters.NotifyOne(b.waiters)
      else x.reply == NotOwned && b == a
    case Enter(t, timed) => a.waiters.Idle(t) && Outcome(b, x.reply) == Try(a, t, timed)
    case Resume(t) => t in a.waiters.woken && Outcome(b, x.reply) == TryAgain(a, t)
    case Spurious(t) => x.reply == Done && t in a.waiters.parked && b == a.(waiters := a.waiters.Release(t, false))
    case Expire(t) => x.reply == Done && t in a.waiters.parked && a.waiters.parked[t] && b == a.(waiters := a.waiters.Release(t, true))
  }

  /** A free mutex never sits beside a blocked thread with nobody on the way to it. */
  predicate NoLostWakeup(s: State) {
    !s.locked && s.waiters.parked.Keys != {} ==> s.waiters.woken.Keys != {}
  }

  predicate Inv(s: State) { s.waiters.Valid() && NoLostWakeup(s) }

  predicate Initial(s: State) { s.waiters == Waiters(map[], map[]) }

  lemma StepKeepsInv(a: State, x: Action, b: State)
    requires Inv(a) && Step(a, x, b)
    ensures Inv(b)
  {
    match x.call {
      case ReleaseMutex => if a.locked { NotifyOneWakes(a.waiters, b.waiters); }
      case Spurious(t) => assert t in b.waiters.woken;
      case Expire(t) => assert t in b.waiters.woken;
      case _ =>
    }
  }

  predicate Run(states: seq<State>, actions: seq<Action>) {
    && |states| == |actions| + 1
    && Initial(states[0])
    && forall i :: 0 <= i < |actions| ==> Step(states[i], actions[i], states[i + 1])
  }

  lemma RunFront(states: seq<State>, actions: seq<Action>)
    requires Run(states, actions) && actions != []
    ensures Run(states[..|actions|], actions[..|actions| - 1])
  {
  }

  /** No wakeup is lost in any interleaving. */
  lemma {:induction false} RunKeepsInv(states: seq<State>, actions: seq<Action>, i: nat)
    requires Run(states, actions) && i < |states|
    ensures Inv(states[i])
  {
    if i > 0 {
      RunKeepsInv(states, actions, i - 1);
      StepKeepsInv(states[i - 1], actions[i - 1], states[i]);
    }
  }

  function Acquires(actions: seq<Action>): nat {
    if actions == [] then 0 else Acquires(actions[..|actions| - 1]) + if actions[|actions| - 1].reply.Object0? then 1 else 0
  }

  /** Releases that answered TRUE. */
  function Releases(actions: seq<Action>): nat {
    if actions == [] then 0
    else Releases(actions[..|actions| - 1]) + if actions[|actions| - 1] == Action(ReleaseMutex, Done) then 1 else 0
  }

  function Held(s: State): nat { if s.locked then 1 else 0 }

  /** Acquisitions and the initial owner, less the successful releases, are what is held now: none or one. */
  lemma {:induction false} OwnershipConserved(states: seq<State>, actions: seq<Action>)
    requires Run(states, actions)
    ensures Acquires(actions) + Held(states[0]) == Releases(actions) + Held(states[|actions|])
    decreases |actions|
  {
    if actions != [] {
      var n := |actions| - 1;
      RunFront(states, actions);
      OwnershipConserved(states[..n + 1], actions[..n]);
      assert Step(states[n], actions[n], states[n + 1]);
    }
  }

  predicate Waits(x: Action) { x.call.Enter? || x.call.Resume? }

  /** Once released, the mutex stays free until a wait gets it. */
  lemma {:induction false} StaysFree(states: seq<State>, actions: seq<Action>, i: nat, j: nat)
    requires Run(states, actions) && i < j < |states| && actions[i].call.ReleaseMutex?
    requires forall k :: i < k < j ==> actions[k].reply != Object0
    ensures !states[j].locked
    decreases j
  {
    assert Step(states[j - 1], actions[j - 1], states[j]);
    if i < j - 1 { StaysFree(states, actions, i, j - 1); }
  }

  /** The first wait to look at a released mutex gets it, even if its time is up. */
  lemma ReleaseReaches(states: seq<State>, actions: seq<Action>, i: nat, j: nat)
    requires Run(states, actions) && i < j < |actions| && actions[i].call.ReleaseMutex? && Waits(actions[j])
    requires forall k :: i < k < j ==> actions[k].reply != Object0
    ensures actions[j].reply == Object0
  {
    StaysFree(states, actions, i, j);
    assert Step(states[j], actions[j], states[j + 1]);
  }

  /** So a timeout after a release means that another wait got the mutex first. */
  lemma TimeoutExplained(states: seq<State>, actions: seq<Action>, i: nat, j: nat)
    requires Run(states, actions) && i < j < |actions| && actions[i].call.ReleaseMutex? && actions[j].reply == Timeout
    ensures exists k :: i < k < j && actions[k].reply == Object0
  {
    assert Step(states[j], actions[j], states[j + 1]);
    if forall k :: i < k < j ==> actions[k].reply != Object0 { ReleaseReaches(states, actions, i, j); }
  }

  lemma QuietMeansHeld(states: seq<State>, actions: seq<Action>, i: nat)
    requires Run(states, actions) && i < |states|
    requires states[i].waiters.woken.Keys == {} && states[i].waiters.parked.Keys != {}
    ensures states[i].locked
  {
    RunKeepsInv(states, actions, i);
  }

  class Mutex {
    var locked: bool
    var waiters: Waiters

    ghost function View(): State
      reads this
    {
      State(locked, waiters)
    }

    constructor (initialOwner: bool)
      ensures View() == State(initialOwner, Waiters(map[], map[])) && Inv(View())
    {
      locked, waiters := initialOwner, Waiters(map[], map[]);
    }

    method Release() returns (reply: Reply)
      requires Inv(View())
      modifies this
      ensures Step(old(View()), Action(ReleaseMutex, reply), View()) && Inv(View())
    {
      if !locked { return NotOwned; }
      locked := false;
      if waiters.parked.Keys != {} {
        var t :| t in waiters.parked;
        waiters := waiters.Release(t, false);
        assert t in waiters.woken;
      }
      reply := Done;
    }

    method WaitEnter(t: Thread, timed: bool) returns (reply: Reply)
      requires Inv(View()) && waiters.Idle(t)
      modifies this
      ensures Step(old(View()), Action(Enter(t, timed), reply), View()) && Inv(View())
    {
      if locked {
        waiters := waiters.Park(t, timed);
        return Blocked;
      }
      locked := true;
      reply := Object0;
    }

    method WaitResume(t: Thread) returns (reply: Reply)
      requires Inv(View()) && t in waiters.woken
      modifies this
      ensures Step(old(View()), Action(Resume(t), reply), View()) && Inv(View())
    {
      var wake := waiters.woken[t];
      waiters := waiters.Take(t);
      if wake.timedOut && locked {
        reply := Timeout;
      } else if locked {
        waiters := waiters.Park(t, wake.timed);
        reply := Blocked;
      } else {
        locked := true;
        reply := Object0;
      }
    }
  }
}
