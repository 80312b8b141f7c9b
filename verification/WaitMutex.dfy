/**
 The sleep/wake protocol of `wait_for` and `wait_channel_wake_one`, with the mutex as its
 client, as a state machine over interleaved steps.  Each region run under a spinlock is
 one step; any task may take the next step, and sleeping tasks may be woken for no reason.
 */
module WaitMutex {
  import opened Seqs
  import opened Wrappers

  type Task = nat

  /** Where a task stands in `mutex_lock`. */
  datatype Pc =
    | Outside      // not in a wait
    | FirstProbe   // about to probe, awake
    | GoToSleep    // probe failed; about to set the sleep state
    | SecondProbe  // sleep state set; about to probe again
    | Blocking     // second probe failed; about to block
    | Blocked      // off the CPU until its state is running again
    | Leaving      // probe succeeded; about to restore the running state
    | Cleaning     // running; about to take the wait entry off the channel

  /**
   `owner` is `mutex->owner`; `asleep` are the tasks in a sleep state; `channel` is the
   mutex's list of wait entries.  `taken` and `returned` count, per task, how often the
   owner field was set to it and how often a lock call has returned to it successfully.
   */
  datatype State = State(
    owner: Option<Task>, pc: map<Task, Pc>, asleep: set<Task>, channel: seq<Task>,
    taken: map<Task, nat>, returned: map<Task, nat>, released: map<Task, nat>)
  {
    function At(t: Task): Pc {
      if t in pc then pc[t] else Outside
    }

    function Move(t: Task, p: Pc): State {
      this.(pc := pc[t := p])
    }

    function Take(t: Task): State {
      this.(owner := Some(t), taken := Bump(taken, t))
    }
  }

  function Count(m: map<Task, nat>, t: Task): nat {
    if t in m then m[t] else 0
  }

  function Bump(m: map<Task, nat>, t: Task): map<Task, nat> {
    m[t := Count(m, t) + 1]
  }

  const INIT: State := State(None, map[], {}, [], map[], map[], map[])

  // ---- Waking ----

  /** Index of the first waiter from `i` on that is asleep, or the length of the channel. */
  function FirstAsleep(channel: seq<Task>, asleep: set<Task>, i: nat): (r: nat)
    requires i <= |channel|
    ensures i <= r <= |channel| && (r < |channel| ==> channel[r] in asleep)
    ensures forall j :: i <= j < r ==> channel[j] !in asleep
    decreases |channel| - i
  {
    if i == |channel| || channel[i] in asleep then i else FirstAsleep(channel, asleep, i + 1)
  }

  function DropAt(s: seq<Task>, i: nat): seq<Task>
    requires i < |s|
  {
    s[..i] + s[i + 1..]
  }

  /** `wait_channel_wake_one` scans past waiters that are already awake. */
  method WakeOne(channel: seq<Task>, asleep: set<Task>) returns (channel': seq<Task>, woken: Option<Task>)
    ensures woken.None? ==> channel' == channel && forall t :: t in channel ==> t !in asleep
    ensures woken.Some? ==>
              && FirstAsleep(channel, asleep, 0) < |channel|
              && woken.value == channel[FirstAsleep(channel, asleep, 0)]
              && channel' == DropAt(channel, FirstAsleep(channel, asleep, 0))
  {
    var i := 0;
    while i < |channel|
      invariant i <= |channel| && FirstAsleep(channel, asleep, i) == FirstAsleep(channel, asleep, 0)
    {
      if channel[i] in asleep {
        return DropAt(channel, i), Some(channel[i]);
      }
      i := i + 1;
    }
    return channel, None;
  }

  /** Waking as a step: the entry leaves the channel and its task becomes runnable. */
  function Wake(s: State): State {
    var i := FirstAsleep(s.channel, s.asleep, 0);
    if i == |s.channel| then s
    else s.(channel := DropAt(s.channel, i), asleep := s.asleep - {s.channel[i]})
  }

  /** `wait_session_watch`: put the entry on the channel unless it is there. */
  function Watch(s: State, t: Task): State {
    if t in s.channel then s else s.(channel := s.channel + [t])
  }

  // ---- Steps ----

  datatype Step =
    | Lock(t: Task)          // mutex_lock: trylock, and on failure enter the wait loop
    | TryLock(t: Task)       // mutex_trylock on its own
    | Probe(t: Task)         // mutex_lock_probe under the mutex's spinlock
    | SetSleep(t: Task)      // task_set_state(sleep)
    | Block(t: Task, idle: bool)  // wait_block_current; idle: nothing else runnable, wait for an interrupt
    | Resume(t: Task)        // a blocked task that is running again gets the CPU
    | Spurious(t: Task)      // a wake that is not wake_one
    | Restore(t: Task)       // wait_finish_current_state on the way out
    | Cleanup(t: Task)       // wait_session_cleanup
    | Unlock(t: Task)        // mutex_unlock

  /** May the step happen now? */
  predicate Enabled(s: State, step: Step) {
    match step
    case Lock(t) => s.At(t) == Outside
    case TryLock(t) => s.At(t) == Outside
    case Probe(t) => s.At(t) == FirstProbe || s.At(t) == SecondProbe
    case SetSleep(t) => s.At(t) == GoToSleep
    case Block(t, _) => s.At(t) == Blocking
    case Resume(t) => s.At(t) == Blocked && t !in s.asleep
    case Spurious(t) => t in s.asleep
    case Restore(t) => s.At(t) == Leaving
    case Cleanup(t) => s.At(t) == Cleaning
    case Unlock(t) => s.At(t) == Outside && s.owner == Some(t)
  }

  function Next(s: State, step: Step): State
    requires Enabled(s, step)
  {
    match step
    case Lock(t) =>
      if s.owner.None? then s.Take(t).(returned := Bump(s.returned, t)) else s.Move(t, FirstProbe)
    case TryLock(t) =>
      if s.owner.None? then s.Take(t).(returned := Bump(s.returned, t)) else s
    case Probe(t) =>
      if s.owner.None? then s.Take(t).Move(t, Leaving)
      else Watch(s, t).Move(t, if s.At(t) == FirstProbe then GoToSleep else Blocking)
    case SetSleep(t) => s.(asleep := s.asleep + {t}).Move(t, SecondProbe)
    case Block(t, idle) =>
      if t !in s.asleep then s.Move(t, FirstProbe)
      else if idle then s.(asleep := s.asleep - {t}).Move(t, FirstProbe)
      else s.Move(t, Blocked)
    case Resume(t) => s.Move(t, FirstProbe)
    case Spurious(t) => s.(asleep := s.asleep - {t})
    case Restore(t) => s.(asleep := s.asleep - {t}).Move(t, Cleaning)
    case Cleanup(t) =>
      s.(channel := Without(s.channel, t), returned := Bump(s.returned, t)).Move(t, Outside)
    case Unlock(t) => Wake(s.(owner := None, released := Bump(s.released, t)))
  }

  // ---- The invariant ----

  /** In the wait loop, not yet past a successful probe. */
  predicate Waiting(p: Pc) {
    p == FirstProbe || p == GoToSleep || p == SecondProbe || p == Blocking || p == Blocked
  }

  predicate Acquired(p: Pc) {
    p == Leaving || p == Cleaning
  }

  /** Asleep, or about to block, with nothing left to do but be woken. */
  predicate Stuck(s: State, t: Task) {
    t in s.asleep && (s.At(t) == Blocking || s.At(t) == Blocked)
  }

  /** Awake in its wait loop and bound to probe again. */
  predicate WillProbe(s: State, t: Task) {
    Waiting(s.At(t)) && !Stuck(s, t)
  }

  /** A lock call has returned to `t` and it has not unlocked since. */
  predicate Holding(s: State, t: Task) {
    Count(s.returned, t) > Count(s.released, t)
  }

  /** A waiter that has set the sleep state and is still asleep is on the channel. */
  ghost predicate Placed(s: State, t: Task) {
    && (t in s.asleep ==> s.At(t) == SecondProbe || s.At(t) == Blocking || s.At(t) == Blocked || s.At(t) == Leaving)
    && (t in s.asleep && Waiting(s.At(t)) ==> t in s.channel)
    && (s.At(t) == GoToSleep ==> t in s.channel)
    && (t in s.channel ==> s.At(t) != Outside)
  }

  /** The owner field is set exactly once per successful lock, and cleared once per unlock. */
  ghost predicate Accounted(s: State, t: Task) {
    && (Acquired(s.At(t)) ==> s.owner == Some(t))
    && Count(s.taken, t) == Count(s.returned, t) + (if Acquired(s.At(t)) then 1 else 0)
    && Count(s.taken, t) == Count(s.released, t) + (if s.owner == Some(t) then 1 else 0)
  }

  ghost predicate TaskOk(s: State, t: Task) {
    Placed(s, t) && Accounted(s, t)
  }

  /** A free mutex is never slept on unless someone is about to try it. */
  ghost predicate NoLostWake(s: State) {
    s.owner.None? && (exists t :: Stuck(s, t)) ==> exists u :: WillProbe(s, u)
  }

  ghost predicate Inv(s: State) {
    && NoRepeats(s.channel) && NoLostWake(s)
    && forall t {:trigger TaskOk(s, t)} :: TaskOk(s, t)
  }

  lemma WatchFacts(s: State, t: Task)
    requires NoRepeats(s.channel)
    ensures NoRepeats(Watch(s, t).channel)
    ensures forall u :: u in Watch(s, t).channel <==> u in s.channel || u == t
  {
  }

  lemma DropFacts(c: seq<Task>, i: nat)
    requires NoRepeats(c) && i < |c|
    ensures NoRepeats(DropAt(c, i))
    ensures forall t :: t in DropAt(c, i) <==> t in c && t != c[i]
  {
    var r := DropAt(c, i);
    forall t | t in c && t != c[i] ensures t in r {
      var j :| 0 <= j < |c| && c[j] == t;
      assert r[if j < i then j else j - 1] == t;
    }
    forall t | t in r ensures t in c && t != c[i] {
      var j :| 0 <= j < |r| && r[j] == t;
      assert c[if j < i then j else j + 1] == t;
    }
  }

  lemma WakeFacts(s: State)
    requires NoRepeats(s.channel)
    ensures NoRepeats(Wake(s).channel)
    ensures forall t :: t in Wake(s).asleep ==> t in s.asleep
    ensures forall t :: t in Wake(s).channel ==> t in s.channel
    ensures forall t :: t in s.channel && t in Wake(s).asleep ==> t in Wake(s).channel
    ensures (exists t :: t in s.channel && t in s.asleep) ==>
              exists t :: t in s.channel && t in s.asleep && t !in Wake(s).asleep
  {
    var i := FirstAsleep(s.channel, s.asleep, 0);
    if i < |s.channel| {
      DropFacts(s.channel, i);
      assert s.channel[i] in s.channel;
    }
  }

  lemma UnlockKeeps(s: State, t: Task)
    requires Inv(s) && Enabled(s, Unlock(t))
    ensures Inv(Next(s, Unlock(t)))
  {
    var m := s.(owner := None, released := Bump(s.released, t));
    var s' := Wake(m);
    WakeFacts(m);
    forall u ensures TaskOk(s', u) {
      assert TaskOk(s, u) && TaskOk(s, t);
    }
    if u :| Stuck(s', u) {
      assert TaskOk(s, u);
      var w :| w in m.channel && w in m.asleep && w !in s'.asleep;
      assert TaskOk(s, w);
      assert WillProbe(s', w);
    }
  }

  lemma CleanupKeeps(s: State, t: Task)
    requires Inv(s) && Enabled(s, Cleanup(t))
    ensures Inv(Next(s, Cleanup(t)))
  {
    var s' := Next(s, Cleanup(t));
    WithoutNoRepeats(s.channel, t);
    forall u ensures TaskOk(s', u) {
      assert TaskOk(s, u);
    }
    assert TaskOk(s, t);
  }

  /** What a probe does to the pc of each task and to the list of waiters. */
  lemma ProbeMoves(s: State, t: Task, u: Task)
    requires Enabled(s, Probe(t))
    ensures var s' := Next(s, Probe(t));
            && s'.asleep == s.asleep && (u != t ==> s'.At(u) == s.At(u))
            && (if s.owner.None? then s'.At(t) == Leaving && s'.channel == s.channel
                else s'.At(t) == (if s.At(t) == FirstProbe then GoToSleep else Blocking) && s'.channel == Watch(s, t).channel)
  {
  }

  lemma ProbePlaced(s: State, t: Task, u: Task)
    requires Placed(s, u) && Enabled(s, Probe(t))
    ensures Placed(Next(s, Probe(t)), u)
  {
    ProbeMoves(s, t, u);
    assert t in Watch(s, t).channel;
  }

  /** A probe that finds the mutex free takes it once; any other leaves the accounts alone. */
  lemma ProbeAccounted(s: State, t: Task, u: Task)
    requires Accounted(s, u) && Enabled(s, Probe(t))
    ensures Accounted(Next(s, Probe(t)), u)
  {
    ProbeMoves(s, t, u);
    if s.owner.Some? {
      var s' := Next(s, Probe(t));
      assert s'.taken == s.taken && s'.returned == s.returned && s'.released == s.released && s'.owner == s.owner;
    }
  }

  /** Nobody gets stuck by a probe while the mutex is free: it is taken then. */
  lemma ProbeKeeps(s: State, t: Task)
    requires Inv(s) && Enabled(s, Probe(t))
    ensures Inv(Next(s, Probe(t)))
  {
    WatchFacts(s, t);
    ProbeMoves(s, t, t);
    forall u ensures TaskOk(Next(s, Probe(t)), u) {
      assert TaskOk(s, u);
      ProbePlaced(s, t, u);
      ProbeAccounted(s, t, u);
    }
  }

  /** Steps that only move one task or change its sleep state. */
  predicate Local(step: Step) {
    !step.Unlock? && !step.Cleanup? && !step.Probe?
  }

  lemma LocalPlaced(s: State, step: Step, u: Task)
    requires Placed(s, u) && Enabled(s, step) && Local(step)
    ensures Placed(Next(s, step), u)
  {
    if u != step.t {
      assert Next(s, step).At(u) == s.At(u);
    }
  }

  lemma LockAccounted(s: State, step: Step, u: Task)
    requires TaskOk(s, u) && Enabled(s, step) && (step.Lock? || step.TryLock?)
    ensures Accounted(Next(s, step), u)
  {
    if s.owner.None? {
      assert Next(s, step).pc == s.pc;
    } else if u != step.t {
      assert Next(s, step).At(u) == s.At(u);
    }
  }

  lemma LocalAccounted(s: State, step: Step, u: Task)
    requires TaskOk(s, u) && Enabled(s, step) && Local(step)
    ensures Accounted(Next(s, step), u)
  {
    if step.Lock? || step.TryLock? {
      LockAccounted(s, step, u);
    } else {
      assert u != step.t ==> Next(s, step).At(u) == s.At(u);
    }
  }

  lemma LocalWaiters(s: State, step: Step, u: Task)
    requires TaskOk(s, step.t) && Enabled(s, step) && Local(step) && Next(s, step).owner.None?
    ensures Stuck(Next(s, step), u) ==> Stuck(s, u)
    ensures WillProbe(s, u) ==> WillProbe(Next(s, step), u)
  {
    if u != step.t {
      assert Next(s, step).At(u) == s.At(u);
    }
  }

  lemma LocalKeeps(s: State, step: Step)
    requires Inv(s) && Enabled(s, step) && Local(step)
    ensures Inv(Next(s, step))
  {
    var s' := Next(s, step);
    assert TaskOk(s, step.t);
    forall u ensures TaskOk(s', u) {
      assert TaskOk(s, u);
      LocalPlaced(s, step, u);
      LocalAccounted(s, step, u);
    }
    if s'.owner.None? {
      if v :| Stuck(s', v) {
        LocalWaiters(s, step, v);
        var u :| WillProbe(s, u);
        LocalWaiters(s, step, u);
      }
    }
  }

  lemma NextKeeps(s: State, step: Step)
    requires Inv(s) && Enabled(s, step)
    ensures Inv(Next(s, step))
  {
    match step
    case Unlock(t) => UnlockKeeps(s, t);
    case Cleanup(t) => CleanupKeeps(s, t);
    case Probe(t) => ProbeKeeps(s, t);
    case _ => LocalKeeps(s, step);
  }

  // ---- Runs ----

  /** The state after the steps, if each was possible in the state it was taken in. */
  ghost function Reach(steps: seq<Step>): Option<State> {
    if steps == [] then Some(INIT)
    else
      var r := Reach(Front(steps));
      if r.Some? && Enabled(r.value, Last(steps)) then Some(Next(r.value, Last(steps))) else None
  }

  ghost predicate Run(steps: seq<Step>) {
    Reach(steps).Some?
  }

  ghost function After(steps: seq<Step>): State
    requires Run(steps)
  {
    Reach(steps).value
  }

  ghost function Front(steps: seq<Step>): (f: seq<Step>)
    requires steps != []
    ensures |f| < |steps|
  {
    steps[..|steps| - 1]
  }

  ghost function Last(steps: seq<Step>): Step
    requires steps != []
  {
    steps[|steps| - 1]
  }

  lemma {:induction false} EveryRunKeeps(steps: seq<Step>)
    requires Run(steps)
    ensures Inv(After(steps))
  {
    if steps != [] {
      EveryRunKeeps(Front(steps));
      NextKeeps(After(Front(steps)), Last(steps));
    }
  }

  /** In every reachable state at most one task holds the mutex, and the owner field names it. */
  lemma MutualExclusion(steps: seq<Step>, t: Task, u: Task)
    requires Run(steps) && Holding(After(steps), t)
    ensures After(steps).owner == Some(t) && !Acquired(After(steps).At(t))
    ensures Holding(After(steps), u) ==> u == t
  {
    EveryRunKeeps(steps);
    assert TaskOk(After(steps), t) && TaskOk(After(steps), u);
  }

  /** Between two unlocks a lock call takes the mutex exactly once, however often it slept. */
  lemma AcquiredOnce(steps: seq<Step>, t: Task)
    requires Run(steps)
    ensures var s := After(steps);
            && Count(s.taken, t) - Count(s.returned, t) == (if Acquired(s.At(t)) then 1 else 0)
            && (Waiting(s.At(t)) ==> Count(s.taken, t) == Count(s.returned, t))
            && Count(s.taken, t) - Count(s.released, t) == (if s.owner == Some(t) then 1 else 0)
  {
    EveryRunKeeps(steps);
    assert TaskOk(After(steps), t);
  }

  /** In every reachable state a waiter that sleeps is on the channel, where `wake_one` finds it. */
  lemma SleepersAreOnChannel(steps: seq<Step>, t: Task)
    requires Run(steps) && t in After(steps).asleep && Waiting(After(steps).At(t))
    ensures t in After(steps).channel
  {
    EveryRunKeeps(steps);
    assert TaskOk(After(steps), t);
  }

  /** In every reachable state with the mutex free and a waiter stuck asleep, another waiter will probe. */
  lemma NobodySleepsOnAFreeMutex(steps: seq<Step>, t: Task) returns (u: Task)
    requires Run(steps) && After(steps).owner.None? && Stuck(After(steps), t)
    ensures u != t && WillProbe(After(steps), u)
  {
    EveryRunKeeps(steps);
    u :| WillProbe(After(steps), u);
  }

  /** Steps of its own that a waiter needs to probe, once it is awake. */
  function StepsToProbe(p: Pc): nat {
    if p == Blocked then 2 else if p == Blocking || p == GoToSleep then 1 else 0
  }

  /**
   "Will probe again" is meant literally: as long as nobody else takes the mutex and `u`
   itself moves, each of its steps is possible, brings it closer to a probe, and keeps it
   bound to probe, until the probe itself takes the mutex.
   */
  lemma ProbeComes(s: State, u: Task) returns (step: Step)
    requires Inv(s) && s.owner.None? && WillProbe(s, u)
    ensures Enabled(s, step) && step.t == u
    ensures if StepsToProbe(s.At(u)) == 0 then Next(s, step).owner == Some(u)
            else WillProbe(Next(s, step), u) && StepsToProbe(Next(s, step).At(u)) < StepsToProbe(s.At(u))
  {
    assert TaskOk(s, u);
    step := match s.At(u)
      case GoToSleep => SetSleep(u)
      case Blocking => Block(u, false)
      case Blocked => Resume(u)
      case _ => Probe(u);
  }
}
