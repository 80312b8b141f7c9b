/**
 The scheduler's queues as they are updated in place: list insertion and removal, the
 bitmap, the counter, and the boost that walks all levels.
 */
module Scheduler {
  import opened Wrappers
  import opened Mlfq

  /** With only the top level filled, the queues and the bitmap are determined. */
  lemma OneQueue(q: Queues, marked: seq<bool>)
    requires MarksAgree(q, marked) && forall m :: 0 < m < LEVELS ==> q[m] == []
    ensures q == [q[0], [], [], []] && marked == [q[0] != [], false, false, false]
  {
  }

  class RunQueue {
    var queues: Queues
    var marked: seq<bool>
    var count: nat
    var sched: map<Task, Budget>
    var current: Option<Task>
    var running: set<Task>

    ghost function View(): State
      reads this
    {
      State(queues, marked, count, sched, current, running)
    }

    /** `mlfq_init` and the first current task, idle. */
    constructor ()
      ensures View() == INIT
    {
      queues, marked, count := [[], [], [], []], [false, false, false, false], 0;
      sched, current, running := map[], None, {};
    }

    method Enqueue(t: Task)
      requires |queues| == LEVELS && |marked| == LEVELS && Of(sched, t).level < LEVELS && !Queued(queues, t)
      modifies this
      ensures View() == Enqueued(old(View()), t)
    {
      var l := Of(sched, t).level;
      queues := queues[l := queues[l] + [t]];
      marked := marked[l := true];
      count := count + 1;
    }

    method Dequeue(t: Task)
      requires Ok(View())
      modifies this
      ensures View() == if old(Queued(queues, t)) then Dequeued(old(View()), t) else old(View())
    {
      if !Queued(queues, t) {
        return;
      }
      assert BudgetOk(Of(sched, t));
      var l := Of(sched, t).level;
      WithoutFacts(queues[l], t);
      queues := queues[l := TakenOut(queues[l], t)];
      if queues[l] == [] {
        marked := marked[l := false];
      }
      count := count - 1;
    }

    /** `sched_wake_task` and `mlfq_wakeup` */
    method WakeTask(t: Task)
      requires Ok(View())
      modifies this
      ensures View() == Woken(old(View()), t)
    {
      running := running + {t};
      if current != Some(t) {
        sched := Reset(sched, t);
        assert BudgetOk(old(Of(sched, t)));
        if !Queued(queues, t) {
          Enqueue(t);
        }
      }
    }

    /** `bitmap_find_first_set` on the bitmap of non-empty levels. */
    method FirstMarked() returns (l: nat)
      requires MarksAgree(queues, marked)
      ensures l == Lowest(queues, 0)
    {
      l := 0;
      while l < LEVELS && !marked[l]
        invariant l <= LEVELS && Lowest(queues, l) == Lowest(queues, 0)
      {
        l := l + 1;
      }
    }

    /** `schedule`; whoever is picked is never the current one, which is not queued. */
    method Schedule()
      requires Ok(View())
      modifies this
      ensures View() == Switched(old(View()))
    {
      var l := FirstMarked();
      if l == LEVELS {
        if current.Some? && current.value !in running {
          current := None;
        }
        return;
      }
      var next := queues[l][0];
      assert Queued(queues, next);
      var prev := current;
      DequeueKeeps(View(), next);
      Dequeue(next);
      if prev.Some? && prev.value in running && !Queued(queues, prev.value) {
        assert BudgetOk(Of(sched, prev.value));
        Enqueue(prev.value);
      }
      current := Some(next);
    }

    /** Level 0 of the boost: the tasks stay where they are and get a fresh slice. */
    method BoostFirst()
      requires |queues| == LEVELS
      modifies this`sched
      ensures sched == Raise(old(sched), queues[0])
    {
      var i := 0;
      while i < |queues[0]|
        invariant i <= |queues[0]| && sched == Raise(old(sched), queues[0][..i])
      {
        sched := sched[queues[0][i] := TOP];
        assert queues[0][..i + 1][..i] == queues[0][..i];
        i := i + 1;
      }
      assert queues[0][..i] == queues[0];
    }

    /** A lower level of the boost: its tasks move to the tail of level 0, one by one. */
    method BoostLevel(level: nat)
      requires 0 < level < LEVELS && MarksAgree(queues, marked)
      modifies this`queues, this`marked, this`sched
      ensures MarksAgree(queues, marked)
      ensures queues[0] == old(queues[0] + queues[level]) && queues[level] == []
      ensures forall m :: 0 < m < LEVELS && m != level ==> queues[m] == old(queues)[m]
      ensures sched == Raise(old(sched), old(queues[level]))
    {
      ghost var done: seq<Task> := [];
      while queues[level] != []
        invariant MarksAgree(queues, marked) && done + queues[level] == old(queues[level])
        invariant queues[0] == old(queues[0]) + done
        invariant forall m :: 0 < m < LEVELS && m != level ==> queues[m] == old(queues)[m]
        invariant sched == Raise(old(sched), done)
        decreases |queues[level]|
      {
        var t := queues[level][0];
        queues := queues[level := queues[level][1..]];
        if queues[level] == [] {
          marked := marked[level := false];
        }
        sched := sched[t := TOP];
        queues := queues[0 := queues[0] + [t]];
        marked := marked[0 := true];
        assert (done + [t])[..|done|] == done;
        done := done + [t];
      }
      assert done == old(queues[level]);
    }

    /** `mlfq_boost` */
    method Boost()
      requires MarksAgree(queues, marked)
      modifies this`queues, this`marked, this`sched
      ensures View() == Boosted(old(View()))
    {
      BoostFirst();
      var level := 1;
      while level < LEVELS
        invariant 1 <= level <= LEVELS && MarksAgree(queues, marked)
        invariant queues[0] == Concat(old(queues), level)
        invariant forall m :: 0 < m < level ==> queues[m] == []
        invariant forall m :: level <= m < LEVELS ==> queues[m] == old(queues)[m]
        invariant sched == Raise(old(sched), Concat(old(queues), level))
      {
        RaiseTwice(old(sched), Concat(old(queues), level), old(queues)[level]);
        BoostLevel(level);
        level := level + 1;
      }
      OneQueue(queues, marked);
      if current.Some? && current.value in running {
        sched := sched[current.value := TOP];
      }
    }

    /** `mlfq_tick`; answers whether the slice ran out and a reschedule is wanted. */
    method Tick(jiffies: nat) returns (resched: bool)
      requires Ok(View())
      modifies this`queues, this`marked, this`sched
      ensures View() == Ticked(old(View()), jiffies)
      ensures resched <==> current.Some? && current.value in running && old(Of(sched, current.value)).slice == 1
    {
      resched := false;
      if current.Some? && current.value in running {
        var t := current.value;
        var b := Of(sched, t);
        assert BudgetOk(b);
        b := b.(slice := b.slice - 1);
        if b.slice == 0 {
          if b.level + 1 < LEVELS {
            b := b.(level := b.level + 1);
          }
          b := b.(slice := LevelSlice(b.level));
          resched := true;
        }
        sched := sched[t := b];
      }
      if jiffies != 0 && jiffies % HZ == 0 {
        Boost();
      }
    }
  }
}
