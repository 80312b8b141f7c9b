/**
 The kernel timer queue: timers sorted by expiry, those armed earlier first among equals;
 running the expired ones fires them in that order and re-queues the periodic ones.
 */
module Timers {
  import opened Wrappers
  import opened Arith
  import opened Clock

  /** `struct ktimer`; an interval of 0 is a one-shot timer. */
  datatype Timer = Timer(id: nat, expires: nat, interval: nat)

  type Queue = seq<Timer>

  ghost predicate Sorted(q: Queue) {
    forall i, j :: 0 <= i < j < |q| ==> q[i].expires <= q[j].expires
  }

  ghost predicate Within(q: Queue) {
    forall t :: t in q ==> t.expires <= UINT64_MAX
  }

  ghost predicate AllAfter(q: Queue, now: nat) {
    forall t :: t in q ==> t.expires > now
  }

  /** No timer is queued twice. */
  ghost predicate Unique(q: Queue) {
    forall i, j :: 0 <= i < j < |q| ==> q[i].id != q[j].id
  }

  ghost predicate Holds(q: Queue, id: nat) {
    exists i :: 0 <= i < |q| && q[i].id == id
  }

  // ---- Insertion ----

  /** The first position from `i` on whose timer expires after `e`. */
  function Place(q: Queue, e: nat, i: nat): (p: nat)
    requires i <= |q|
    ensures i <= p <= |q|
    decreases |q| - i
  {
    if i == |q| || e < q[i].expires then i else Place(q, e, i + 1)
  }

  /** In a sorted queue the place divides the timers that expire by `e` from the later ones. */
  lemma {:induction false} PlaceDivides(q: Queue, e: nat, i: nat)
    requires Sorted(q) && i <= |q|
    ensures forall j :: i <= j < |q| ==> (j < Place(q, e, i) <==> q[j].expires <= e)
    decreases |q| - i
  {
    if i < |q| && e >= q[i].expires {
      PlaceDivides(q, e, i + 1);
    }
  }

  function Splice(q: Queue, p: nat, t: Timer): (r: Queue)
    requires p <= |q|
    ensures |r| == |q| + 1
  {
    q[..p] + [t] + q[p..]
  }

  /** `t` after every timer that expires no later, before every one that expires later. */
  function Inserted(q: Queue, t: Timer): Queue {
    Splice(q, Place(q, t.expires, 0), t)
  }

  lemma SpliceAt(q: Queue, p: nat, t: Timer, i: nat)
    requires p <= |q| && i <= |q|
    ensures Splice(q, p, t)[i] == if i < p then q[i] else if i == p then t else q[i - 1]
  {
  }

  lemma SpliceContents(q: Queue, p: nat, t: Timer)
    requires p <= |q|
    ensures multiset(Splice(q, p, t)) == multiset(q) + multiset{t}
  {
    assert q == q[..p] + q[p..];
  }

  lemma SpliceBehind(a: Queue, b: Queue, p: nat, t: Timer)
    requires p <= |b|
    ensures Splice(a + b, |a| + p, t) == a + Splice(b, p, t)
  {
    assert (a + b)[..|a| + p] == a + b[..p];
    assert (a + b)[|a| + p..] == b[p..];
  }

  lemma InsertMembers(q: Queue, t: Timer)
    ensures forall x :: x in Inserted(q, t) <==> x in q || x == t
  {
    var p := Place(q, t.expires, 0);
    assert q == q[..p] + q[p..];
  }

  lemma InsertSorts(q: Queue, t: Timer)
    requires Sorted(q)
    ensures Sorted(Inserted(q, t))
    ensures multiset(Inserted(q, t)) == multiset(q) + multiset{t}
  {
    var p := Place(q, t.expires, 0);
    var r := Inserted(q, t);
    PlaceDivides(q, t.expires, 0);
    SpliceContents(q, p, t);
    forall i, j | 0 <= i < j < |r| ensures r[i].expires <= r[j].expires {
      SpliceAt(q, p, t, i);
      SpliceAt(q, p, t, j);
    }
  }

  lemma InsertUnique(q: Queue, t: Timer)
    requires Unique(q) && !Holds(q, t.id)
    ensures Unique(Inserted(q, t))
    ensures forall id :: Holds(Inserted(q, t), id) ==> Holds(q, id) || id == t.id
  {
    var p := Place(q, t.expires, 0);
    forall i | 0 <= i <= |q|
      ensures Inserted(q, t)[i] == if i < p then q[i] else if i == p then t else q[i - 1]
    {
      SpliceAt(q, p, t, i);
    }
  }

  /** A timer later than all of `a` goes behind `a`. */
  lemma InsertBehind(a: Queue, b: Queue, t: Timer)
    requires forall i :: 0 <= i < |a| ==> a[i].expires <= t.expires
    ensures Inserted(a + b, t) == a + Inserted(b, t)
  {
    PlaceBehind(a, b, t.expires, 0);
    SpliceBehind(a, b, Place(b, t.expires, 0), t);
  }

  lemma {:induction false} PlaceBehind(a: Queue, b: Queue, e: nat, i: nat)
    requires i <= |a| + |b| && forall k :: 0 <= k < |a| ==> a[k].expires <= e
    ensures Place(a + b, e, i) == |a| + Place(b, e, if i < |a| then 0 else i - |a|)
    decreases |a| + |b| - i
  {
    if i < |a| + |b| {
      PlaceBehind(a, b, e, i + 1);
    }
  }

  function Cancelled(q: Queue, id: nat): Queue {
    if q == [] then [] else if q[0].id == id then Cancelled(q[1..], id) else [q[0]] + Cancelled(q[1..], id)
  }

  lemma HoldsSplit(t: Timer, tail: Queue, id: nat)
    ensures Holds([t] + tail, id) <==> t.id == id || Holds(tail, id)
  {
    var q := [t] + tail;
    if t.id == id {
      assert q[0].id == id;
    } else if Holds(tail, id) {
      var i :| 0 <= i < |tail| && tail[i].id == id;
      assert q[i + 1].id == id;
    } else {
      assert forall i :: 0 < i < |q| ==> q[i] == tail[i - 1];
    }
  }

  /** A timer in front of others that come later and have other ids. */
  lemma Prepended(t: Timer, tail: Queue, rest: Queue, id: nat)
    requires Sorted([t] + tail) && Unique([t] + tail) && t.id != id
    requires Sorted(rest) && Unique(rest) && !Holds(rest, id) && forall x :: x in rest ==> x in tail
    ensures Sorted([t] + rest) && Unique([t] + rest) && !Holds([t] + rest, id)
  {
    forall i | 0 <= i < |rest| ensures rest[i].id != t.id && t.expires <= rest[i].expires {
      assert rest[i] in tail;
      var j :| 0 <= j < |tail| && tail[j] == rest[i];
      assert ([t] + tail)[j + 1] == tail[j] && ([t] + tail)[0] == t;
    }
    HoldsSplit(t, rest, id);
  }

  /** The queue without that timer, still in order. */
  lemma {:induction false} CancelFacts(q: Queue, id: nat)
    requires Sorted(q) && Unique(q)
    ensures Sorted(Cancelled(q, id)) && Unique(Cancelled(q, id)) && !Holds(Cancelled(q, id), id)
    ensures forall t :: t in Cancelled(q, id) <==> t in q && t.id != id
    ensures |Cancelled(q, id)| == |q| - if Holds(q, id) then 1 else 0
  {
    if q != [] {
      var tail := q[1..];
      assert q == [q[0]] + tail && forall i :: 0 <= i < |tail| ==> tail[i] == q[i + 1];
      CancelFacts(tail, id);
      HoldsSplit(q[0], tail, id);
      if q[0].id != id {
        Prepended(q[0], tail, Cancelled(tail, id), id);
      } else {
        assert forall t :: t in tail ==> t.id != id;
      }
    }
  }

  // ---- Periods ----

  function DeadlineAfter(now: nat, delta: nat): nat
    requires now <= UINT64_MAX
  {
    if delta > UINT64_MAX - now then UINT64_MAX else now + delta
  }

  /** How many intervals to add to get past `now`. */
  function Periods(expires: nat, interval: nat, now: nat): (k: nat)
    requires interval > 0
    ensures k >= 1
  {
    if now < expires then 1 else (now - expires) / interval + 1
  }

  /** It is the least positive number of intervals that does. */
  lemma PeriodsIsLeast(expires: nat, interval: nat, now: nat, k: nat)
    requires interval > 0 && k >= 1
    ensures expires + k * interval > now <==> k >= Periods(expires, interval, now)
  {
    MulMono(1, k, interval);
    if now >= expires {
      var d := now - expires;
      DivBounds(d, interval);
      if k >= d / interval + 1 {
        MulMono(d / interval + 1, k, interval);
        assert (d / interval + 1) * interval == d / interval * interval + interval;
      } else {
        MulMono(k, d / interval, interval);
      }
    }
  }

  function Capped(x: nat): nat {
    if x > UINT64_MAX then UINT64_MAX else x
  }

  function NextExpiry(t: Timer, now: nat): (e: nat)
    requires t.interval > 0
    ensures e <= UINT64_MAX
  {
    Capped(t.expires + Periods(t.expires, t.interval, now) * t.interval)
  }

  function Requeued(t: Timer, now: nat): Timer
    requires t.interval > 0
  {
    t.(expires := NextExpiry(t, now))
  }

  /** A re-queued timer is due later than `now`, except at the very end of time. */
  lemma RequeuedIsLater(t: Timer, now: nat)
    requires t.interval > 0 && now <= UINT64_MAX
    ensures Requeued(t, now).expires > now <==> now < UINT64_MAX
  {
    PeriodsIsLeast(t.expires, t.interval, now, Periods(t.expires, t.interval, now));
  }

  /** `ktimer_next_interval_deadline` */
  method NextIntervalDeadline(t: Timer, now: nat) returns (next: nat)
    requires t.interval > 0 && t.expires <= UINT64_MAX
    ensures now < UINT64_MAX ==> next == NextExpiry(t, now)
    ensures now >= UINT64_MAX ==> next == UINT64_MAX
  {
    ghost var k := 1;
    next := DeadlineAfter(t.expires, t.interval);
    while next <= now && next != UINT64_MAX
      invariant 1 <= k && next == Capped(t.expires + k * t.interval)
      invariant k == 1 || t.expires + (k - 1) * t.interval <= now
      decreases UINT64_MAX - next
    {
      assert (k + 1) * t.interval == k * t.interval + t.interval;
      next := DeadlineAfter(next, t.interval);
      k := k + 1;
    }
    PeriodsIsLeast(t.expires, t.interval, now, k);
    if k > 1 {
      PeriodsIsLeast(t.expires, t.interval, now, k - 1);
    }
  }

  // ---- Running the expired timers ----

  /** No timer is periodic. */
  ghost predicate OneShot(q: Queue) {
    forall t :: t in q ==> t.interval == 0
  }

  /** A run that comes to an end: `RunEndsIff` shows there is no other. */
  ghost predicate Ends(q: Queue, now: nat) {
    now < UINT64_MAX || OneShot(q)
  }

  /** `rest` with the periodic timers among `fired` put back, in the order they fired. */
  function Rearmed(rest: Queue, fired: Queue, now: nat): Queue {
    if fired == [] then rest
    else
      var r, t := Rearmed(rest, fired[..|fired| - 1], now), fired[|fired| - 1];
      if t.interval == 0 then r else Inserted(r, Requeued(t, now))
  }

  function Periodic(fired: Queue, now: nat): Queue {
    if fired == [] then []
    else
      var r, t := Periodic(fired[..|fired| - 1], now), fired[|fired| - 1];
      if t.interval == 0 then r else r + [Requeued(t, now)]
  }

  /** What is left is sorted, later than `now`, and is the old rest plus each periodic timer that fired, once. */
  lemma {:induction false} RearmedFacts(rest: Queue, fired: Queue, now: nat)
    requires Sorted(rest) && now <= UINT64_MAX && Ends(fired, now) && Within(rest) && AllAfter(rest, now)
    ensures Sorted(Rearmed(rest, fired, now)) && Within(Rearmed(rest, fired, now))
    ensures AllAfter(Rearmed(rest, fired, now), now)
    ensures multiset(Rearmed(rest, fired, now)) == multiset(rest) + multiset(Periodic(fired, now))
  {
    if fired != [] {
      var front, t := fired[..|fired| - 1], fired[|fired| - 1];
      assert forall x :: x in front ==> x in fired;
      RearmedFacts(rest, front, now);
      if t.interval != 0 {
        assert t in fired;
        RequeuedIsLater(t, now);
        InsertSorts(Rearmed(rest, front, now), Requeued(t, now));
        InsertMembers(Rearmed(rest, front, now), Requeued(t, now));
      }
    }
  }

  lemma {:induction false} RearmedUnique(rest: Queue, fired: Queue, now: nat)
    requires Unique(rest) && Unique(fired) && forall id :: !(Holds(rest, id) && Holds(fired, id))
    ensures Unique(Rearmed(rest, fired, now))
    ensures forall id :: Holds(Rearmed(rest, fired, now), id) ==> Holds(rest, id) || Holds(fired, id)
  {
    if fired != [] {
      var front, t := fired[..|fired| - 1], fired[|fired| - 1];
      assert forall id :: Holds(front, id) ==> Holds(fired, id);
      assert Holds(fired, t.id) && !Holds(front, t.id);
      RearmedUnique(rest, front, now);
      if t.interval != 0 {
        InsertUnique(Rearmed(rest, front, now), Requeued(t, now));
      }
    }
  }

  lemma DueUnique(q: Queue, now: nat)
    requires Unique(q)
    ensures Unique(Rearmed(NotDue(q, now), Due(q, now), now))
  {
    RearmedUnique(NotDue(q, now), Due(q, now), now);
  }

  /** The timers due at `now`: in a sorted queue they are a prefix. */
  function Due(q: Queue, now: nat): Queue {
    q[..Place(q, now, 0)]
  }

  function NotDue(q: Queue, now: nat): Queue {
    q[Place(q, now, 0)..]
  }

  lemma DueFacts(q: Queue, now: nat)
    requires Sorted(q)
    ensures forall i :: 0 <= i < |q| ==> (i < |Due(q, now)| <==> q[i].expires <= now)
    ensures q == Due(q, now) + NotDue(q, now) && Sorted(NotDue(q, now)) && AllAfter(NotDue(q, now), now)
  {
    PlaceDivides(q, now, 0);
  }

  lemma TakeOneMore(due: Queue, n: nat, done: Queue)
    requires n < |due|
    ensures var q := due[n..] + done;
            q[0] == due[n] && q[1..] == due[n + 1..] + done && due[..n] + [q[0]] == due[..n + 1]
  {
  }

  lemma RearmOneMore(rest: Queue, fired: Queue, t: Timer, now: nat)
    ensures Rearmed(rest, fired + [t], now) ==
              var r := Rearmed(rest, fired, now);
              if t.interval == 0 then r else Inserted(r, Requeued(t, now))
  {
    assert (fired + [t])[..|fired|] == fired;
  }

  /** `fired` is the first part of the due timers; the rest is still at the head of the queue. */
  ghost predicate Firing(q: Queue, q0: Queue, fired: Queue, now: nat) {
    && Sorted(q0) && Within(q0) && |fired| <= |Due(q0, now)| && fired == Due(q0, now)[..|fired|]
    && q == Due(q0, now)[|fired|..] + Rearmed(NotDue(q0, now), fired, now)
  }

  lemma FiredEnds(q0: Queue, fired: Queue, now: nat)
    requires Ends(q0, now) && |fired| <= |Due(q0, now)| && fired == Due(q0, now)[..|fired|]
    ensures Ends(fired, now)
  {
    assert forall i :: 0 <= i < |fired| ==> fired[i] == q0[i];
  }

  lemma FiringHead(q: Queue, q0: Queue, fired: Queue, now: nat)
    requires Firing(q, q0, fired, now) && now <= UINT64_MAX && Ends(q0, now)
    ensures Place(q, now, 0) == |Due(q0, now)| - |fired|
    ensures |fired| < |Due(q0, now)| ==> q != [] && q[0].expires <= UINT64_MAX
  {
    var rest := Rearmed(NotDue(q0, now), fired, now);
    DueFacts(q0, now);
    FiredEnds(q0, fired, now);
    RearmedFacts(NotDue(q0, now), fired, now);
    PlaceBehind(Due(q0, now)[|fired|..], rest, now, 0);
    assert rest != [] ==> rest[0] in rest;
  }

  /** The next timer to fire is the next of the due ones; if it is periodic, time is not over. */
  lemma FiringNext(q: Queue, q0: Queue, fired: Queue, now: nat)
    requires Firing(q, q0, fired, now) && Ends(q0, now) && |fired| < |Due(q0, now)| && q != []
    ensures q[0] == Due(q0, now)[|fired|] && (q[0].interval != 0 ==> now < UINT64_MAX)
  {
    assert q[0] == q0[|fired|] && q0[|fired|] in q0;
  }

  /** A periodic timer goes behind all that are still due. */
  lemma RequeueBehind(q0: Queue, n: nat, done: Queue, t: Timer, now: nat)
    requires Sorted(q0) && n <= |Due(q0, now)| && t.interval > 0 && now < UINT64_MAX
    ensures Inserted(Due(q0, now)[n..] + done, Requeued(t, now)) == Due(q0, now)[n..] + Inserted(done, Requeued(t, now))
  {
    RequeuedIsLater(t, now);
    DueFacts(q0, now);
    InsertBehind(Due(q0, now)[n..], done, Requeued(t, now));
  }

  lemma FiringStep(q: Queue, q0: Queue, fired: Queue, now: nat)
    requires Firing(q, q0, fired, now) && now <= UINT64_MAX && Ends(q0, now) && |fired| < |Due(q0, now)| && q != []
    ensures Firing(if q[0].interval == 0 then q[1..] else Inserted(q[1..], Requeued(q[0], now)),
                   q0, fired + [q[0]], now)
  {
    var due, rest, n := Due(q0, now), NotDue(q0, now), |fired|;
    var done := Rearmed(rest, fired, now);
    FiringNext(q, q0, fired, now);
    TakeOneMore(due, n, done);
    RearmOneMore(rest, fired, q[0], now);
    if q[0].interval != 0 {
      RequeueBehind(q0, n + 1, done, q[0], now);
    }
  }

  lemma FiringDone(q: Queue, q0: Queue, fired: Queue, now: nat)
    requires Firing(q, q0, fired, now) && now <= UINT64_MAX && Ends(q0, now) && |fired| == |Due(q0, now)|
    ensures fired == Due(q0, now) && q == Rearmed(NotDue(q0, now), fired, now)
    ensures Sorted(q) && Within(q) && AllAfter(q, now)
  {
    DueFacts(q0, now);
    FiredEnds(q0, fired, now);
    RearmedFacts(NotDue(q0, now), fired, now);
  }

  lemma FiringStart(q: Queue, now: nat)
    requires Sorted(q) && Within(q)
    ensures Firing(q, q, [], now)
  {
    DueFacts(q, now);
  }

  // ---- Whether a run ends ----

  /** One round of the loop of `ktimer_run_expired`, or None if it is over. */
  function Round(q: Queue, now: nat): Option<Queue> {
    if q == [] || q[0].expires > now then None
    else Some(if q[0].interval == 0 then q[1..] else Inserted(q[1..], Requeued(q[0], now)))
  }

  /** The queue after `n` rounds, or None if the run was over before. */
  function AfterRounds(q: Queue, now: nat, n: nat): Option<Queue> {
    if n == 0 then Some(q)
    else
      var r := AfterRounds(q, now, n - 1);
      if r.None? then None else Round(r.value, now)
  }

  /** At the largest tick a due periodic timer is due again after any number of rounds. */
  lemma {:induction false} RunGoesOn(q: Queue, n: nat)
    requires Within(q) && !OneShot(q)
    ensures var r := AfterRounds(q, UINT64_MAX, n); r.Some? && Within(r.value) && !OneShot(r.value)
  {
    if n > 0 {
      RunGoesOn(q, n - 1);
      RoundGoesOn(AfterRounds(q, UINT64_MAX, n - 1).value);
    }
  }

  lemma RoundGoesOn(r: Queue)
    requires Within(r) && !OneShot(r)
    ensures var r' := Round(r, UINT64_MAX); r'.Some? && Within(r'.value) && !OneShot(r'.value)
  {
    var t :| t in r && t.interval != 0;
    var rest := r[1..];
    assert r == [r[0]] + rest && r[0] in r;
    assert Within(rest);
    if r[0].interval != 0 {
      var again := Requeued(r[0], UINT64_MAX);
      InsertMembers(rest, again);
      assert again in Inserted(rest, again);
    } else {
      assert t in rest;
    }
  }

  lemma {:induction false} RoundsFire(q: Queue, now: nat, n: nat)
    requires Sorted(q) && Within(q) && now <= UINT64_MAX && Ends(q, now) && n <= |Due(q, now)|
    ensures var r := AfterRounds(q, now, n); r.Some? && Firing(r.value, q, Due(q, now)[..n], now)
  {
    if n == 0 {
      FiringStart(q, now);
    } else {
      RoundsFire(q, now, n - 1);
      RoundFires(AfterRounds(q, now, n - 1).value, q, now, n - 1);
    }
  }

  /** One round fires the next of the due timers. */
  lemma RoundFires(r: Queue, q: Queue, now: nat, n: nat)
    requires now <= UINT64_MAX && Ends(q, now) && n < |Due(q, now)| && Firing(r, q, Due(q, now)[..n], now)
    ensures Round(r, now).Some? && Firing(Round(r, now).value, q, Due(q, now)[..n + 1], now)
  {
    var fired := Due(q, now)[..n];
    assert |fired| == n;
    FiringHead(r, q, fired, now);
    FiringNext(r, q, fired, now);
    FiringStep(r, q, fired, now);
    assert Due(q, now)[..n + 1] == fired + [r[0]];
  }

  lemma RunEnds(q: Queue, now: nat) returns (n: nat)
    requires Sorted(q) && Within(q) && now <= UINT64_MAX && Ends(q, now)
    ensures AfterRounds(q, now, n).None?
  {
    var due := |Due(q, now)|;
    RoundsFire(q, now, due);
    FiringHead(AfterRounds(q, now, due).value, q, Due(q, now)[..due], now);
    n := due + 1;
  }

  /** A run ends unless it is at the largest tick with a periodic timer queued. */
  lemma RunEndsIff(q: Queue, now: nat)
    requires Sorted(q) && Within(q) && now <= UINT64_MAX
    ensures (exists n: nat :: AfterRounds(q, now, n).None?) <==> Ends(q, now)
  {
    if Ends(q, now) {
      var n := RunEnds(q, now);
    } else {
      forall n: nat ensures AfterRounds(q, now, n).Some? {
        RunGoesOn(q, n);
      }
    }
  }

  class TimerQueue {
    var queue: Queue

    ghost predicate Valid()
      reads this
    {
      Sorted(queue) && Within(queue) && Unique(queue)
    }

    constructor ()
      ensures Valid() && queue == []
    {
      queue := [];
    }

    /** `ktimer_insert_locked` */
    method Insert(t: Timer)
      modifies this
      ensures queue == Inserted(old(queue), t)
    {
      var i := 0;
      while i < |queue|
        invariant i <= |queue| && queue == old(queue)
        invariant Place(queue, t.expires, i) == Place(queue, t.expires, 0)
      {
        if t.expires < queue[i].expires {
          queue := queue[..i] + [t] + queue[i..];
          return;
        }
        i := i + 1;
      }
      queue := queue + [t];
    }

    /** `ktimer_arm`: moves the timer to its new place if it is queued already. */
    method Arm(id: nat, expires: nat, interval: nat)
      requires Valid() && expires <= UINT64_MAX
      modifies this
      ensures Valid() && queue == Inserted(Cancelled(old(queue), id), Timer(id, expires, interval))
    {
      CancelFacts(queue, id);
      queue := Cancelled(queue, id);
      InsertSorts(queue, Timer(id, expires, interval));
      InsertMembers(queue, Timer(id, expires, interval));
      InsertUnique(queue, Timer(id, expires, interval));
      Insert(Timer(id, expires, interval));
    }

    /** `ktimer_cancel`; answers whether the timer was queued. */
    method Cancel(id: nat) returns (active: bool)
      requires Valid()
      modifies this
      ensures Valid() && queue == Cancelled(old(queue), id)
      ensures active <==> Holds(old(queue), id)
    {
      CancelFacts(queue, id);
      active := |Cancelled(queue, id)| < |queue|;
      queue := Cancelled(queue, id);
    }

    /** `ktimer_detach_first_expired_locked` */
    method DetachFirstExpired(now: nat) returns (t: Option<Timer>)
      modifies this
      ensures t.None? <==> Place(old(queue), now, 0) == 0
      ensures if t.None? then queue == old(queue)
              else |old(queue)| > 0 && t.value == old(queue)[0] && queue == old(queue)[1..]
    {
      if queue == [] || queue[0].expires > now {
        return None;
      }
      t := Some(queue[0]);
      queue := queue[1..];
    }

    /**
     `ktimer_run_expired`, for callbacks that arm and cancel nothing and a run that ends:
     `fired` are the timers in the order their callbacks run.
     */
    method RunExpired(now: nat) returns (fired: seq<Timer>)
      requires Valid() && now <= UINT64_MAX && Ends(queue, now)
      modifies this
      ensures Valid() && AllAfter(queue, now)
      ensures fired == Due(old(queue), now)
      ensures queue == Rearmed(NotDue(old(queue), now), fired, now)
    {
      fired := [];
      FiringStart(queue, now);
      while true
        invariant Firing(queue, old(queue), fired, now)
        decreases |Due(old(queue), now)| - |fired|
      {
        FiringHead(queue, old(queue), fired, now);
        ghost var q := queue;
        var t := DetachFirstExpired(now);
        if t.None? {
          break;
        }
        FiringStep(q, old(queue), fired, now);
        if t.value.interval != 0 {
          var next := NextIntervalDeadline(t.value, now);
          Insert(t.value.(expires := next));
        }
        fired := fired + [t.value];
      }
      FiringDone(queue, old(queue), fired, now);
      DueUnique(old(queue), now);
    }
  }
}
