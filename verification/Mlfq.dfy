/**
 The multi-level feedback queue: four queues with a bitmap of non-empty levels, a count of
 queued tasks and a level and time slice per task, with `schedule` and `sched_wake_task`
 on top.  The idle task is "no current task".
 */
module Mlfq {
  import opened Seqs
  import opened Wrappers

  const LEVELS: nat := 4
  const HZ: nat := 100

  type Task = nat
  type Queues = seq<seq<Task>>

  /** A task's level and the ticks left of its slice. */
  datatype Budget = Budget(level: nat, slice: nat)

  const TOP: Budget := Budget(0, 1)

  /** `1 << level` for the four levels. */
  function LevelSlice(level: nat): (r: nat)
    ensures r >= 1
  {
    match level
    case 0 => 1
    case 1 => 2
    case 2 => 4
    case _ => 8
  }

  function Of(sched: map<Task, Budget>, t: Task): Budget {
    if t in sched then sched[t] else TOP
  }

  /** `running` are the tasks in TASK_RUNNING. */
  datatype State = State(
    queues: Queues, marked: seq<bool>, count: nat, sched: map<Task, Budget>,
    current: Option<Task>, running: set<Task>)

  predicate Queued(q: Queues, t: Task)
    requires |q| == LEVELS
  {
    t in q[0] || t in q[1] || t in q[2] || t in q[3]
  }

  // ---- The invariant ----

  /** The bitmap marks exactly the non-empty levels. */
  ghost predicate MarksAgree(q: Queues, marked: seq<bool>) {
    && |q| == LEVELS && |marked| == LEVELS
    && forall l :: 0 <= l < LEVELS ==> (marked[l] <==> q[l] != [])
  }

  function Total(q: Queues): nat
    requires |q| == LEVELS
  {
    |q[0]| + |q[1]| + |q[2]| + |q[3]|
  }

  /** Every queued task carries the level of the queue it is on, and is on it once. */
  ghost predicate TagsAgree(q: Queues, sched: map<Task, Budget>)
    requires |q| == LEVELS
  {
    && (forall l, t :: 0 <= l < LEVELS && t in q[l] ==> Of(sched, t).level == l)
    && (forall l :: 0 <= l < LEVELS ==> NoRepeats(q[l]))
  }

  ghost predicate BudgetOk(b: Budget) {
    b.level < LEVELS && 1 <= b.slice <= LevelSlice(b.level)
  }

  ghost predicate BudgetsOk(sched: map<Task, Budget>) {
    forall t :: BudgetOk(Of(sched, t))
  }

  /** Queued are exactly the runnable tasks other than the current one: none is lost, none runs twice. */
  ghost predicate RunnableQueued(s: State)
    requires |s.queues| == LEVELS
  {
    forall t :: Queued(s.queues, t) <==> t in s.running && s.current != Some(t)
  }

  ghost predicate Ok(s: State) {
    && MarksAgree(s.queues, s.marked) && s.count == Total(s.queues)
    && TagsAgree(s.queues, s.sched) && BudgetsOk(s.sched) && RunnableQueued(s)
  }

  // ---- Operations, as functions of the state ----

  function IndexOf(q: seq<Task>, t: Task): (i: nat)
    requires t in q
    ensures i < |q| && q[i] == t && t !in q[..i]
  {
    if q[0] == t then 0 else 1 + IndexOf(q[1..], t)
  }

  function TakenOut(q: seq<Task>, t: Task): seq<Task>
    requires t in q
  {
    q[..IndexOf(q, t)] + q[IndexOf(q, t) + 1..]
  }

  /** `mlfq_enqueue` */
  function Enqueued(s: State, t: Task): State
    requires |s.queues| == LEVELS && |s.marked| == LEVELS && Of(s.sched, t).level < LEVELS
  {
    var l := Of(s.sched, t).level;
    s.(queues := s.queues[l := s.queues[l] + [t]], marked := s.marked[l := true], count := s.count + 1)
  }

  /** `mlfq_dequeue` of a queued task. */
  function Dequeued(s: State, t: Task): State
    requires Ok(s) && Queued(s.queues, t)
  {
    var l := Of(s.sched, t).level;
    var rest := TakenOut(s.queues[l], t);
    s.(queues := s.queues[l := rest], marked := s.marked[l := rest != []], count := s.count - 1)
  }

  /** The first level from `l` on that has a queued task. */
  function Lowest(q: Queues, l: nat): (r: nat)
    requires |q| == LEVELS && l <= LEVELS
    ensures l <= r <= LEVELS && (r < LEVELS ==> q[r] != []) && forall m :: l <= m < r ==> q[m] == []
    decreases LEVELS - l
  {
    if l == LEVELS || q[l] != [] then l else Lowest(q, l + 1)
  }

  /** Whom `schedule` must pick: the head of the lowest non-empty queue. */
  function Head(s: State): (t: Task)
    requires Ok(s) && Lowest(s.queues, 0) < LEVELS
    ensures Queued(s.queues, t)
  {
    s.queues[Lowest(s.queues, 0)][0]
  }

  function Reset(sched: map<Task, Budget>, t: Task): map<Task, Budget> {
    sched[t := Budget(Of(sched, t).level, LevelSlice(Of(sched, t).level))]
  }

  /** `sched_wake_task` */
  function Woken(s: State, t: Task): State
    requires Ok(s)
  {
    var r := s.(running := s.running + {t});
    if s.current == Some(t) then r
    else
      var b := r.(sched := Reset(r.sched, t));
      if Queued(s.queues, t) then b else Enqueued(b, t)
  }

  /** `schedule` */
  function Switched(s: State): State
    requires Ok(s)
  {
    if Lowest(s.queues, 0) == LEVELS then
      if s.current.None? || s.current.value in s.running then s else s.(current := None)
    else
      var d := Dequeued(s, Head(s));
      var e := if s.current.Some? && s.current.value in s.running then Enqueued(d, s.current.value) else d;
      e.(current := Some(Head(s)))
  }

  /** The first `n` queues, one after the other. */
  function Concat(q: Queues, n: nat): seq<Task>
    requires n <= |q|
  {
    if n == 0 then [] else Concat(q, n - 1) + q[n - 1]
  }

  function Raise(sched: map<Task, Budget>, ts: seq<Task>): map<Task, Budget> {
    if ts == [] then sched else Raise(sched, ts[..|ts| - 1])[ts[|ts| - 1] := TOP]
  }

  /** `mlfq_boost`: everything on the top queue in the order of the old levels, at top level with a fresh slice. */
  function Boosted(s: State): State
    requires |s.queues| == LEVELS && |s.marked| == LEVELS
  {
    var all := Concat(s.queues, LEVELS);
    var sched := Raise(s.sched, all);
    s.(queues := [all, [], [], []], marked := [all != [], false, false, false],
       sched := if s.current.Some? && s.current.value in s.running then sched[s.current.value := TOP] else sched)
  }

  /** The current task's slice runs down; at its end it drops a level and gets a fresh slice. */
  function Spend(b: Budget): Budget {
    if b.slice > 1 then b.(slice := b.slice - 1)
    else
      var l := if b.level + 1 < LEVELS then b.level + 1 else b.level;
      Budget(l, LevelSlice(l))
  }

  function Charged(s: State): State {
    if s.current.Some? && s.current.value in s.running then
      s.(sched := s.sched[s.current.value := Spend(Of(s.sched, s.current.value))])
    else s
  }

  /** `mlfq_tick` */
  function Ticked(s: State, jiffies: nat): State
    requires |s.queues| == LEVELS && |s.marked| == LEVELS
  {
    var c := Charged(s);
    if jiffies != 0 && jiffies % HZ == 0 then Boosted(c) else c
  }

  // ---- Every operation keeps the invariant ----

  lemma WithoutFacts(q: seq<Task>, t: Task)
    requires NoRepeats(q) && t in q
    ensures NoRepeats(TakenOut(q, t)) && |TakenOut(q, t)| == |q| - 1
    ensures forall u :: u in TakenOut(q, t) <==> u in q && u != t
  {
    var i := IndexOf(q, t);
    var r := TakenOut(q, t);
    forall u | u in q && u != t ensures u in r {
      var j :| 0 <= j < |q| && q[j] == u;
      assert r[if j < i then j else j - 1] == u;
    }
  }

  /** Everything but "queued are exactly the runnable tasks". */
  ghost predicate Consistent(s: State) {
    && MarksAgree(s.queues, s.marked) && s.count == Total(s.queues)
    && TagsAgree(s.queues, s.sched) && BudgetsOk(s.sched)
  }

  lemma EnqueueKeeps(s: State, t: Task)
    requires Consistent(s) && !Queued(s.queues, t)
    ensures Consistent(Enqueued(s, t))
    ensures forall u :: Queued(Enqueued(s, t).queues, u) <==> Queued(s.queues, u) || u == t
  {
    assert BudgetOk(Of(s.sched, t));
  }

  lemma DequeueKeeps(s: State, t: Task)
    requires Ok(s) && Queued(s.queues, t)
    ensures Consistent(Dequeued(s, t))
    ensures forall u :: Queued(Dequeued(s, t).queues, u) <==> Queued(s.queues, u) && u != t
  {
    assert BudgetOk(Of(s.sched, t));
    WithoutFacts(s.queues[Of(s.sched, t).level], t);
  }

  lemma WakeKeeps(s: State, t: Task)
    requires Ok(s)
    ensures Ok(Woken(s, t))
  {
    assert BudgetOk(Of(s.sched, t));
    var b := s.(running := s.running + {t}, sched := Reset(s.sched, t));
    assert forall u :: Of(b.sched, u).level == Of(s.sched, u).level;
    if s.current != Some(t) && !Queued(s.queues, t) {
      EnqueueKeeps(b, t);
    }
  }

  lemma SwitchKeeps(s: State)
    requires Ok(s)
    ensures Ok(Switched(s))
  {
    if Lowest(s.queues, 0) < LEVELS {
      DequeueKeeps(s, Head(s));
      var d := Dequeued(s, Head(s));
      if s.current.Some? && s.current.value in s.running {
        EnqueueKeeps(d, s.current.value);
      }
    } else {
      assert forall t :: !Queued(s.queues, t);
    }
  }

  lemma {:induction false} RaiseFacts(sched: map<Task, Budget>, ts: seq<Task>, t: Task)
    ensures Of(Raise(sched, ts), t) == if t in ts then TOP else Of(sched, t)
  {
    if ts != [] {
      var front := ts[..|ts| - 1];
      RaiseFacts(sched, front, t);
      assert ts == front + [ts[|ts| - 1]];
    }
  }

  lemma {:induction false} RaiseTwice(sched: map<Task, Budget>, a: seq<Task>, b: seq<Task>)
    ensures Raise(Raise(sched, a), b) == Raise(sched, a + b)
  {
    if b == [] {
      assert a + b == a;
    } else {
      var front := b[..|b| - 1];
      RaiseTwice(sched, a, front);
      assert (a + b)[..|a + b| - 1] == a + front;
    }
  }

  lemma {:induction false} ConcatFacts(q: Queues, sched: map<Task, Budget>, n: nat)
    requires |q| == LEVELS && TagsAgree(q, sched) && n <= LEVELS
    ensures NoRepeats(Concat(q, n))
    ensures forall t :: t in Concat(q, n) <==> exists l :: 0 <= l < n && t in q[l]
  {
    if n > 0 {
      ConcatFacts(q, sched, n - 1);
      var a, b := Concat(q, n - 1), q[n - 1];
      forall i, j | 0 <= i < |a| && 0 <= j < |b| ensures a[i] != b[j] {
        assert a[i] in a && b[j] in b;
        var l :| 0 <= l < n - 1 && a[i] in q[l];
        assert Of(sched, a[i]).level == l;
      }
    }
  }

  lemma ConcatAll(q: Queues)
    requires |q| == LEVELS
    ensures Concat(q, LEVELS) == q[0] + q[1] + q[2] + q[3]
  {
    assert Concat(q, 1) == q[0];
    assert Concat(q, 2) == q[0] + q[1];
    assert Concat(q, 3) == q[0] + q[1] + q[2];
  }

  lemma BoostKeeps(s: State)
    requires Ok(s)
    ensures Ok(Boosted(s))
    ensures forall t :: Queued(Boosted(s).queues, t) <==> Queued(s.queues, t)
  {
    var all := Concat(s.queues, LEVELS);
    ConcatFacts(s.queues, s.sched, LEVELS);
    ConcatAll(s.queues);
    forall t ensures Of(Boosted(s).sched, t) == TOP || Of(Boosted(s).sched, t) == Of(s.sched, t)
      ensures t in all ==> Of(Boosted(s).sched, t) == TOP
    {
      RaiseFacts(s.sched, all, t);
    }
  }

  lemma ChargeKeeps(s: State)
    requires Ok(s)
    ensures Ok(Charged(s))
  {
    if s.current.Some? && s.current.value in s.running {
      var c := s.current.value;
      assert !Queued(s.queues, c);
      assert BudgetOk(Spend(Of(s.sched, c))) by {
        assert BudgetOk(Of(s.sched, c));
      }
      forall t ensures BudgetOk(Of(Charged(s).sched, t)) {
        assert BudgetOk(Of(s.sched, t));
      }
      assert forall t :: t != c ==> Of(Charged(s).sched, t) == Of(s.sched, t);
    }
  }

  // ---- Runs ----

  datatype Op =
    | Start(t: Task)        // a new task is published and enqueued
    | Wake(t: Task)         // sched_wake_task
    | Sleep                 // the current task leaves TASK_RUNNING
    | Exit(t: Task)         // another task is torn down and leaves its queue
    | Tick(jiffies: nat)    // timer interrupt; boosts once a second
    | Switch                // schedule

  predicate Enabled(s: State, op: Op) {
    |s.queues| == LEVELS &&
    match op
    case Start(t) => !Queued(s.queues, t) && s.current != Some(t)
    case Sleep => s.current.Some?
    case Exit(t) => s.current != Some(t)
    case _ => true
  }

  function Next(s: State, op: Op): State
    requires Ok(s) && Enabled(s, op)
  {
    match op
    case Start(t) => Enqueued(s.(sched := s.sched[t := TOP], running := s.running + {t}), t)
    case Wake(t) => Woken(s, t)
    case Sleep => s.(running := s.running - {s.current.value})
    case Exit(t) =>
      (if Queued(s.queues, t) then Dequeued(s, t) else s).(running := s.running - {t})
    case Tick(j) => Ticked(s, j)
    case Switch => Switched(s)
  }

  lemma StartKeeps(s: State, t: Task)
    requires Ok(s) && !Queued(s.queues, t) && s.current != Some(t)
    ensures Ok(Next(s, Start(t)))
  {
    var b := s.(sched := s.sched[t := TOP], running := s.running + {t});
    forall u ensures Of(b.sched, u) == if u == t then TOP else Of(s.sched, u) {
    }
    assert BudgetOk(TOP);
    EnqueueKeeps(b, t);
  }

  lemma NextKeeps(s: State, op: Op)
    requires Ok(s) && Enabled(s, op)
    ensures Ok(Next(s, op))
  {
    match op
    case Start(t) => StartKeeps(s, t);
    case Wake(t) => WakeKeeps(s, t);
    case Sleep =>
    case Exit(t) =>
      if Queued(s.queues, t) {
        DequeueKeeps(s, t);
      }
    case Tick(j) =>
      ChargeKeeps(s);
      BoostKeeps(Charged(s));
    case Switch => SwitchKeeps(s);
  }

  /** The state after the operations, if each was possible when it was made. */
  ghost function After(s: State, ops: seq<Op>): Option<State>
    decreases |ops|
  {
    if ops == [] then Some(s)
    else if Ok(s) && Enabled(s, ops[0]) then After(Next(s, ops[0]), ops[1..])
    else None
  }

  lemma {:induction false} EveryRunKeeps(s: State, ops: seq<Op>)
    requires Ok(s) && After(s, ops).Some?
    ensures Ok(After(s, ops).value)
    decreases |ops|
  {
    if ops != [] {
      NextKeeps(s, ops[0]);
      EveryRunKeeps(Next(s, ops[0]), ops[1..]);
    }
  }

  const INIT: State := State([[], [], [], []], [false, false, false, false], 0, map[], None, {})

  /** Bitmap, counter, tags and queues agree in every state reached from `mlfq_init`. */
  lemma AlwaysConsistent(ops: seq<Op>)
    requires After(INIT, ops).Some?
    ensures Ok(After(INIT, ops).value)
  {
    assert Of(INIT.sched, 0) == TOP;
    assert BudgetOk(TOP);
    EveryRunKeeps(INIT, ops);
  }

  // ---- No starvation ----

  function Switches(ops: seq<Op>): nat {
    if ops == [] then 0 else (if ops[0].Switch? then 1 else 0) + Switches(ops[1..])
  }

  ghost predicate At(s: State, k: nat, t: Task)
    requires |s.queues| == LEVELS
  {
    k < |s.queues[0]| && s.queues[0][k] == t
  }

  lemma ExitAdvances(s: State, u: Task, t: Task, k: nat) returns (k': nat)
    requires Ok(s) && s.current != Some(u) && At(s, k, t) && u != t
    ensures k' <= k && At(Next(s, Exit(u)), k', t)
  {
    if Queued(s.queues, u) && Of(s.sched, u).level == 0 {
      k' := if k < IndexOf(s.queues[0], u) then k else k - 1;
    } else {
      k' := k;
    }
  }

  lemma SwitchAdvances(s: State, t: Task, k: nat)
    requires Ok(s) && At(s, k, t)
    ensures if k == 0 then Switched(s).current == Some(t) else At(Switched(s), k - 1, t)
  {
    assert Lowest(s.queues, 0) == 0;
    var h := s.queues[0][0];
    assert Of(s.sched, h).level == 0;
    assert TakenOut(s.queues[0], h) == s.queues[0][1..];
  }

  /** While `t` waits at position `k` of the top queue, no operation but its own exit moves it back. */
  lemma Advances(s: State, op: Op, t: Task, k: nat) returns (k': nat)
    requires Ok(s) && Enabled(s, op) && At(s, k, t) && op != Exit(t)
    requires op.Switch? ==> k > 0
    ensures k' <= k && At(Next(s, op), k', t)
    ensures op.Switch? ==> k' < k
  {
    k' := k;
    match op
    case Exit(u) => k' := ExitAdvances(s, u, t, k);
    case Switch =>
      SwitchAdvances(s, t, k);
      k' := k - 1;
    case Tick(j) => ConcatAll(s.queues);
    case _ =>
  }

  /**
   A task at position `k` of the top queue is running at the latest after `k + 1`
   calls of `schedule`, whatever is started, woken, ticked, boosted or torn down meanwhile.
   */
  lemma {:induction false} NoStarvation(s: State, ops: seq<Op>, k: nat) returns (n: nat)
    requires Ok(s) && k < |s.queues[0]| && After(s, ops).Some?
    requires Exit(s.queues[0][k]) !in ops && Switches(ops) > k
    ensures n <= |ops| && Switches(ops[..n]) <= k + 1
    ensures After(s, ops[..n]).Some? && After(s, ops[..n]).value.current == Some(s.queues[0][k])
    decreases |ops|
  {
    var t, op, s' := s.queues[0][k], ops[0], Next(s, ops[0]);
    NextKeeps(s, op);
    if op.Switch? && k == 0 {
      SwitchAdvances(s, t, k);
      n := 1;
      assert ops[..1][1..] == [];
    } else {
      var k' := Advances(s, op, t, k);
      var m := NoStarvation(s', ops[1..], k');
      n := m + 1;
      assert ops[..n][1..] == ops[1..][..m];
    }
  }

  /** After a boost every queued task has such a position: its place in the old queues laid end to end. */
  lemma BoostPlaces(s: State, t: Task)
    requires Ok(s) && Queued(s.queues, t)
    ensures Boosted(s).queues[0] == s.queues[0] + s.queues[1] + s.queues[2] + s.queues[3]
    ensures t in Boosted(s).queues[0] && Of(Boosted(s).sched, t) == TOP
  {
    ConcatAll(s.queues);
    BoostKeeps(s);
    RaiseFacts(s.sched, Concat(s.queues, LEVELS), t);
  }
}
