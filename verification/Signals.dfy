/**
 Signal generation, masks and delivery in one thread group.  A 64-bit signal mask is the
 set of the signals whose bits are on.
 */
module Signals {
  import opened Seqs
  import opened Wrappers

  const NSIG: nat := 32
  const SIGKILL: nat := 9
  const SIGCONT: nat := 18
  const SIGSTOP: nat := 19
  const SIGTSTP: nat := 20
  const SIGTTIN: nat := 21
  const SIGTTOU: nat := 22

  type Sig = nat
  type Tid = nat

  const STOP_MASK: set<Sig> := {SIGSTOP, SIGTSTP, SIGTTIN, SIGTTOU}
  const UNBLOCKABLE: set<Sig> := {SIGKILL, SIGSTOP}

  predicate IsValid(sig: Sig) {
    0 < sig < NSIG
  }

  /** The `sigctx` of a task; `restore` is a mask to put back after sigsuspend. */
  datatype Thread = Thread(pending: set<Sig>, forced: set<Sig>, blocked: set<Sig>, restore: Option<set<Sig>>)

  /** A thread group: its leader, the other threads in the order of `thread_group`, and the shared pending set. */
  datatype Group = Group(leader: Tid, others: seq<Tid>, threads: map<Tid, Thread>, shared: set<Sig>)

  /** The leader and the listed threads are exactly the tasks of the group. */
  ghost predicate Listed(g: Group) {
    g.leader in g.threads && forall t :: t in g.threads <==> t == g.leader || t in g.others
  }

  // ---- Generation ----

  /** What generating `sig` discards: stop signals for SIGCONT, SIGCONT for a stop signal. */
  function Opposite(sig: Sig): set<Sig> {
    if sig == SIGCONT then STOP_MASK else if sig in STOP_MASK then {SIGCONT} else {}
  }

  function ClearPending(th: Thread, mask: set<Sig>): Thread {
    th.(pending := th.pending - mask, forced := th.forced - mask)
  }

  /** `send_signal_info_internal` */
  function SendThread(g: Group, t: Tid, sig: Sig, force: bool): Group
    requires t in g.threads
  {
    var th := ClearPending(g.threads[t], Opposite(sig));
    var th' := th.(pending := th.pending + {sig}, forced := if force then th.forced + {sig} else th.forced);
    g.(threads := g.threads[t := th'], shared := g.shared - Opposite(sig))
  }

  /** The threads `who` without the signals opposite to `sig`. */
  function Cleared(threads: map<Tid, Thread>, who: set<Tid>, sig: Sig): map<Tid, Thread> {
    map t | t in threads :: if t in who then ClearPending(threads[t], Opposite(sig)) else threads[t]
  }

  function Members(s: seq<Tid>): set<Tid> {
    set t | t in s
  }

  /** `send_group_signal_info` called on `target`: it goes through the list only if that is the leader. */
  function SendGroup(g: Group, target: Tid, sig: Sig): Group {
    var who := if target == g.leader then {target} + Members(g.others) else {target};
    g.(shared := g.shared - Opposite(sig) + {sig}, threads := Cleared(g.threads, who, sig))
  }

  lemma ClearOneMore(threads: map<Tid, Thread>, who: set<Tid>, t: Tid, sig: Sig)
    requires t in threads
    ensures var c := Cleared(threads, who, sig);
            c[t := ClearPending(c[t], Opposite(sig))] == Cleared(threads, who + {t}, sig)
  {
    var th := threads[t];
    assert ClearPending(ClearPending(th, Opposite(sig)), Opposite(sig)) == ClearPending(th, Opposite(sig));
  }

  // ---- The property ----

  /** SIGCONT and a stop signal are not both in the set. */
  predicate Compatible(s: set<Sig>) {
    SIGCONT !in s || s !! STOP_MASK
  }

  ghost predicate NoConflict(g: Group) {
    && Compatible(g.shared)
    && forall t {:trigger g.threads[t]} :: t in g.threads ==> Compatible(g.threads[t].pending + g.shared)
  }

  ghost predicate MaskOk(th: Thread) {
    th.blocked !! UNBLOCKABLE && (th.restore.Some? ==> th.restore.value !! UNBLOCKABLE)
  }

  ghost predicate MasksOk(g: Group) {
    forall t {:trigger g.threads[t]} :: t in g.threads ==> MaskOk(g.threads[t])
  }

  ghost predicate Ok(g: Group) {
    Listed(g) && NoConflict(g) && MasksOk(g)
  }

  /** Sending to one thread leaves it without the opposite signals, and no thread in conflict. */
  lemma SendThreadKeeps(g: Group, t: Tid, sig: Sig, force: bool)
    requires Ok(g) && t in g.threads
    ensures Ok(SendThread(g, t, sig, force))
    ensures sig in SendThread(g, t, sig, force).threads[t].pending
    ensures (SendThread(g, t, sig, force).threads[t].pending + SendThread(g, t, sig, force).shared) !! Opposite(sig)
  {
    var g' := SendThread(g, t, sig, force);
    forall u | u in g'.threads ensures Compatible(g'.threads[u].pending + g'.shared) {
      assert Compatible(g.threads[u].pending + g.shared);
    }
  }

  /** Sending to the group, through its leader, leaves no thread with the opposite signals. */
  lemma SendGroupKeeps(g: Group, sig: Sig)
    requires Ok(g)
    ensures Ok(SendGroup(g, g.leader, sig)) && sig in SendGroup(g, g.leader, sig).shared
    ensures forall t :: t in g.threads ==>
              (SendGroup(g, g.leader, sig).threads[t].pending + SendGroup(g, g.leader, sig).shared) !! Opposite(sig)
  {
    var g' := SendGroup(g, g.leader, sig);
    forall u | u in g'.threads ensures Compatible(g'.threads[u].pending + g'.shared) {
      assert Compatible(g.threads[u].pending + g.shared);
    }
  }

  /**
   The leader matters: through another task the group is left without conflict exactly if
   no task but the target had an opposite signal pending of its own.
   */
  lemma SendGroupKeepsIff(g: Group, target: Tid, sig: Sig)
    requires Ok(g) && target in g.threads && target != g.leader
    ensures NoConflict(SendGroup(g, target, sig)) <==>
            forall t :: t in g.threads && t != target ==> g.threads[t].pending !! Opposite(sig)
  {
    var g' := SendGroup(g, target, sig);
    if NoConflict(g') {
      forall t | t in g.threads && t != target ensures g.threads[t].pending !! Opposite(sig) {
        assert Compatible(g'.threads[t].pending + g'.shared);
        assert sig in g'.shared;
      }
    } else {
      assert Compatible(g'.shared);
      var u :| u in g'.threads && !Compatible(g'.threads[u].pending + g'.shared);
      assert Compatible(g.threads[u].pending + g.shared);
    }
  }

  /** Such a case: the leader has SIGTSTP pending and SIGCONT is sent to the group through another thread. */
  lemma SendGroupCanConflict()
    ensures var g := Group(1, [2], map[1 := Thread({SIGTSTP}, {}, {}, None), 2 := Thread({}, {}, {}, None)], {});
            Ok(g) && !NoConflict(SendGroup(g, 2, SIGCONT))
  {
    var g := Group(1, [2], map[1 := Thread({SIGTSTP}, {}, {}, None), 2 := Thread({}, {}, {}, None)], {});
    assert 1 in g.threads && SIGTSTP in g.threads[1].pending && SIGTSTP in Opposite(SIGCONT);
    SendGroupKeepsIff(g, 2, SIGCONT);
  }

  // ---- Masks ----

  function Update(g: Group, t: Tid, th: Thread): Group {
    g.(threads := g.threads[t := th])
  }

  /** `signal_set_blocked_mask`, also at sigreturn with a mask from user memory. */
  function SetBlocked(th: Thread, mask: set<Sig>): Thread {
    th.(blocked := mask - UNBLOCKABLE)
  }

  function Block(th: Thread, mask: set<Sig>): Thread {
    th.(blocked := th.blocked + mask - UNBLOCKABLE)
  }

  function Unblock(th: Thread, mask: set<Sig>): Thread {
    th.(blocked := th.blocked - mask - UNBLOCKABLE)
  }

  /** `signal_defer_mask_restore` */
  function Defer(th: Thread, mask: set<Sig>): Thread {
    th.(restore := Some(mask - UNBLOCKABLE))
  }

  function RestoreDeferred(th: Thread): Thread {
    if th.restore.None? then th else SetBlocked(th.(restore := None), th.restore.value)
  }

  /** `setup_signal_frame`: the interrupted mask goes to the frame, the handler's mask is added. */
  function EnterHandler(th: Thread, sig: Sig, mask: set<Sig>, noDefer: bool): Thread {
    var r := th.(restore := None);
    Block(if noDefer then r else Block(r, {sig}), mask)
  }

  /** The mask `setup_signal_frame` stores for sigreturn to put back. */
  function SavedMask(th: Thread): set<Sig> {
    if th.restore.Some? then th.restore.value else th.blocked
  }

  /** A sigsuspend that a signal ended: the temporary mask, with the old one left to be put back. */
  function Suspended(th: Thread, mask: set<Sig>): Thread {
    Defer(SetBlocked(th, mask), th.blocked)
  }

  /**
   sigsuspend gives the old mask back exactly: at once when its wait fails, on the way to
   user mode when no handler runs, and by sigreturn when one does. While a handler runs its
   own mask is blocked, and so is its signal unless SA_NODEFER is set.
   */
  lemma SuspendGivesMaskBack(th: Thread, mask: set<Sig>, sig: Sig, handlerMask: set<Sig>, noDefer: bool)
    requires MaskOk(th)
    ensures SetBlocked(SetBlocked(th, mask), th.blocked) == th
    ensures RestoreDeferred(Suspended(th, mask)).blocked == th.blocked
    ensures var during := EnterHandler(Suspended(th, mask), sig, handlerMask, noDefer);
            var after := SetBlocked(during, SavedMask(Suspended(th, mask)));
            && after.blocked == th.blocked
            && after.restore == None
            && handlerMask - UNBLOCKABLE <= during.blocked
            && (!noDefer && sig !in UNBLOCKABLE ==> sig in during.blocked)
  {
    assert th.blocked - UNBLOCKABLE == th.blocked;
  }

  // ---- Delivery ----

  /** Signals the thread could take now. */
  function Deliverable(g: Group, t: Tid): set<Sig>
    requires t in g.threads
  {
    set sig | sig in g.threads[t].pending + g.shared && IsValid(sig)
              && sig !in g.threads[t].blocked - UNBLOCKABLE
  }

  /** The lowest number of the set from `i` on, or NSIG. */
  function Lowest(s: set<Sig>, i: nat): (r: nat)
    requires i <= NSIG
    ensures i <= r <= NSIG && (r < NSIG ==> r in s)
    ensures forall k :: i <= k < r ==> k !in s
    decreases NSIG - i
  {
    if i == NSIG || i in s then i else Lowest(s, i + 1)
  }

  /** Taking one signal: from the thread's own set if it is there, otherwise from the shared one. */
  function Take(g: Group, t: Tid, sig: Sig): Group
    requires t in g.threads
  {
    if sig in g.threads[t].pending then Update(g, t, ClearPending(g.threads[t], {sig}))
    else g.(shared := g.shared - {sig})
  }

  /** An unblockable signal that is pending is always deliverable, whatever mask was ever set. */
  lemma KillIsDeliverable(g: Group, t: Tid, sig: Sig)
    requires Ok(g) && t in g.threads && sig in UNBLOCKABLE
    ensures sig in Deliverable(g, t) <==> sig in g.threads[t].pending + g.shared
    ensures Deliverable(g, t) ==
            set s | s in g.threads[t].pending + g.shared && IsValid(s) && s !in g.threads[t].blocked
  {
  }

  // ---- Runs ----

  datatype Step =
    | ToThread(t: Tid, sig: Sig)          // tkill, tgkill, timers, SIGCHLD
    | Force(t: Tid, sig: Sig)             // a fault: unblocked and forced
    | ToGroup(sig: Sig)                   // kill, kill(-1), process groups: always through leaders
    | Mask(t: Tid, set': set<Sig>)        // sigprocmask SETMASK, sigreturn, ppoll
    | Add(t: Tid, set': set<Sig>)         // sigprocmask BLOCK
    | Drop(t: Tid, set': set<Sig>)        // sigprocmask UNBLOCK
    | Suspend(t: Tid, set': set<Sig>)     // sigsuspend: defer the old mask
    | Restore(t: Tid)                     // do_signal with nothing to deliver
    | Handle(t: Tid, sig: Sig, set': set<Sig>, noDefer: bool)
    | Deliver(t: Tid, sig: Sig)           // do_signal, sigtimedwait
    | Clone(t: Tid, parent: Tid)          // a new thread of the group
    | Leave(t: Tid)                       // a thread other than the leader exits

  predicate Enabled(g: Group, step: Step) {
    match step
    case ToGroup(sig) => true
    case Clone(t, parent) => t !in g.threads && parent in g.threads
    case Leave(t) => t in g.threads && t != g.leader
    case _ => step.t in g.threads
  }

  function Next(g: Group, step: Step): Group
    requires Enabled(g, step)
  {
    match step
    case ToThread(t, sig) => SendThread(g, t, sig, false)
    case Force(t, sig) => SendThread(Update(g, t, Unblock(g.threads[t], {sig})), t, sig, true)
    case ToGroup(sig) => SendGroup(g, g.leader, sig)
    case Mask(t, m) => Update(g, t, SetBlocked(g.threads[t], m))
    case Add(t, m) => Update(g, t, Block(g.threads[t], m))
    case Drop(t, m) => Update(g, t, Unblock(g.threads[t], m))
    case Suspend(t, m) => Update(g, t, Suspended(g.threads[t], m))
    case Restore(t) => Update(g, t, RestoreDeferred(g.threads[t]))
    case Handle(t, sig, m, noDefer) => Update(g, t, EnterHandler(g.threads[t], sig, m, noDefer))
    case Deliver(t, sig) => Take(g, t, sig)
    case Clone(t, parent) =>
      g.(others := g.others + [t], threads := g.threads[t := Thread({}, {}, g.threads[parent].blocked - UNBLOCKABLE, None)])
    case Leave(t) => g.(others := Without(g.others, t), threads := g.threads - {t})
  }

  /** A change of masks only. */
  lemma UpdateKeeps(g: Group, t: Tid, th: Thread)
    requires Ok(g) && t in g.threads && th.pending <= g.threads[t].pending && MaskOk(th)
    ensures Ok(Update(g, t, th))
  {
    assert Compatible(g.threads[t].pending + g.shared);
  }

  lemma DeliverKeeps(g: Group, t: Tid, sig: Sig)
    requires Ok(g) && t in g.threads
    ensures Ok(Take(g, t, sig))
  {
    if sig in g.threads[t].pending {
      UpdateKeeps(g, t, ClearPending(g.threads[t], {sig}));
    } else {
      forall u | u in g.threads ensures Compatible(g.threads[u].pending + (g.shared - {sig})) {
        assert Compatible(g.threads[u].pending + g.shared);
      }
    }
  }

  lemma CloneKeeps(g: Group, t: Tid, parent: Tid)
    requires Ok(g) && t !in g.threads && parent in g.threads
    ensures Ok(Next(g, Clone(t, parent)))
  {
    var g' := Next(g, Clone(t, parent));
    assert {} + g.shared == g.shared;
    forall u | u in g'.threads ensures Compatible(g'.threads[u].pending + g'.shared) && MaskOk(g'.threads[u]) {
    }
  }

  lemma NextKeeps(g: Group, step: Step)
    requires Ok(g) && Enabled(g, step)
    ensures Ok(Next(g, step))
  {
    match step
    case ToThread(t, sig) => SendThreadKeeps(g, t, sig, false);
    case Force(t, sig) =>
      UpdateKeeps(g, t, Unblock(g.threads[t], {sig}));
      SendThreadKeeps(Update(g, t, Unblock(g.threads[t], {sig})), t, sig, true);
    case ToGroup(sig) => SendGroupKeeps(g, sig);
    case Deliver(t, sig) => DeliverKeeps(g, t, sig);
    case Clone(t, parent) => CloneKeeps(g, t, parent);
    case Leave(t) =>
    case _ => UpdateKeeps(g, step.t, Next(g, step).threads[step.t]);
  }

  ghost predicate Reaches(g: Group, steps: seq<Step>, g': Group)
    decreases |steps|
  {
    if steps == [] then g' == g else Enabled(g, steps[0]) && Reaches(Next(g, steps[0]), steps[1..], g')
  }

  /** A new process: one thread, nothing pending, a mask inherited through `signal_set_blocked_mask`. */
  function Initial(leader: Tid, mask: set<Sig>): Group {
    Group(leader, [], map[leader := SetBlocked(Thread({}, {}, {}, None), mask)], {})
  }

  lemma {:induction false} EveryRunKeeps(g: Group, steps: seq<Step>, g': Group)
    requires Ok(g) && Reaches(g, steps, g')
    ensures Ok(g')
    decreases |steps|
  {
    if steps != [] {
      NextKeeps(g, steps[0]);
      EveryRunKeeps(Next(g, steps[0]), steps[1..], g');
    }
  }

  /** Over every run no thread sees SIGCONT and a stop signal at once, and no mask blocks SIGKILL or SIGSTOP. */
  lemma NeverInConflict(leader: Tid, mask: set<Sig>, steps: seq<Step>, g: Group, t: Tid)
    requires Reaches(Initial(leader, mask), steps, g) && t in g.threads
    ensures var seen := g.threads[t].pending + g.shared;
            SIGCONT in seen ==> SIGSTOP !in seen && SIGTSTP !in seen && SIGTTIN !in seen && SIGTTOU !in seen
    ensures SIGKILL !in g.threads[t].blocked && SIGSTOP !in g.threads[t].blocked
  {
    EveryRunKeeps(Initial(leader, mask), steps, g);
    var seen := g.threads[t].pending + g.shared;
    assert Compatible(seen) && MaskOk(g.threads[t]);
    assert SIGSTOP in STOP_MASK && SIGTSTP in STOP_MASK && SIGTTIN in STOP_MASK && SIGTTOU in STOP_MASK;
    assert SIGKILL in UNBLOCKABLE && SIGSTOP in UNBLOCKABLE;
  }
}
