/** The signal state of a thread group as `signal.c` updates it in place. */
module SignalDelivery {
  import opened Wrappers
  import opened Signals

  datatype Errno = Ok | EINVAL | ESRCH

  class ThreadGroup {
    const leader: Tid
    var others: seq<Tid>
    var threads: map<Tid, Thread>
    var shared: set<Sig>
    /** Tasks that are dead or zombies: no signal reaches them. */
    var dead: set<Tid>

    ghost function View(): Group
      reads this
    {
      Group(leader, others, threads, shared)
    }

    constructor (t: Tid, mask: set<Sig>)
      ensures View() == Initial(t, mask) && dead == {}
    {
      leader, others, shared, dead := t, [], {}, {};
      threads := map[t := SetBlocked(Thread({}, {}, {}, None), mask)];
    }

    method ClearOpposite(t: Tid, sig: Sig)
      requires t in threads
      modifies this`threads
      ensures threads == old(threads)[t := ClearPending(old(threads)[t], Opposite(sig))]
    {
      if sig == SIGCONT {
        threads := threads[t := ClearPending(threads[t], STOP_MASK)];
      } else if sig in STOP_MASK {
        threads := threads[t := ClearPending(threads[t], {SIGCONT})];
      } else {
        assert ClearPending(threads[t], {}) == threads[t];
        assert threads == threads[t := threads[t]];
      }
    }

    /** `send_signal_info_internal` */
    method SendSignal(t: Tid, sig: Sig, force: bool) returns (r: Errno)
      requires t in threads
      modifies this`threads, this`shared
      ensures r == if !IsValid(sig) then EINVAL else if t in dead then ESRCH else Ok
      ensures View() == if r == Ok then SendThread(old(View()), t, sig, force) else old(View())
    {
      if !IsValid(sig) {
        return EINVAL;
      }
      if t in dead {
        return ESRCH;
      }
      ClearOpposite(t, sig);
      shared := shared - Opposite(sig);
      if sig !in threads[t].pending {
        threads := threads[t := threads[t].(pending := threads[t].pending + {sig})];
      }
      assert threads[t].pending == old(threads)[t].pending - Opposite(sig) + {sig};
      if force {
        threads := threads[t := threads[t].(forced := threads[t].forced + {sig})];
      }
      return Ok;
    }

    /** `send_group_signal_info`: clears the opposite signals of every thread on the leader's list. */
    method SendGroupSignal(target: Tid, sig: Sig) returns (r: Errno)
      requires Listed(View()) && target in threads
      modifies this`threads, this`shared
      ensures r == if !IsValid(sig) then EINVAL else if target in dead then ESRCH else Ok
      ensures View() == if r == Ok then SendGroup(old(View()), target, sig) else old(View())
    {
      if !IsValid(sig) {
        return EINVAL;
      }
      if target in dead {
        return ESRCH;
      }
      shared := shared - Opposite(sig);
      if sig !in shared {
        shared := shared + {sig};
      }
      assert shared == old(shared) - Opposite(sig) + {sig};
      ClearTargets(target, sig);
      return Ok;
    }

    /** The target and, if it is the leader, the threads on its list. */
    method ClearTargets(target: Tid, sig: Sig)
      requires target in threads && forall t :: t in others ==> t in threads
      modifies this`threads
      ensures threads == Cleared(old(threads), if target == leader then {target} + Members(others) else {target}, sig)
    {
      assert Cleared(threads, {}, sig) == threads;
      ClearOneMore(threads, {}, target, sig);
      assert {} + {target} == {target};
      ClearOpposite(target, sig);
      if target == leader {
        ClearListed(sig);
        ClearMany(old(threads), {target}, Members(others), sig);
      }
    }

    /** The loop over the leader's thread list. */
    method ClearListed(sig: Sig)
      requires forall t :: t in others ==> t in threads
      modifies this`threads
      ensures threads == Cleared(old(threads), Members(others), sig)
    {
      var i := 0;
      assert Cleared(threads, {}, sig) == threads;
      while i < |others|
        invariant i <= |others| && threads == Cleared(old(threads), Members(others[..i]), sig)
      {
        ClearOneMore(old(threads), Members(others[..i]), others[i], sig);
        ClearOpposite(others[i], sig);
        assert Members(others[..i + 1]) == Members(others[..i]) + {others[i]};
        i := i + 1;
      }
      assert others[..i] == others;
    }

    /** `next_signal`: the lowest deliverable signal, and whether only the shared set has it. */
    method NextSignal(t: Tid) returns (sig: nat, fromShared: bool)
      requires t in threads
      ensures sig == (if Lowest(Deliverable(View(), t), 0) == NSIG then 0 else Lowest(Deliverable(View(), t), 0))
      ensures fromShared <==> sig != 0 && sig !in threads[t].pending
    {
      var pending := threads[t].pending + shared;
      var blocked := threads[t].blocked - UNBLOCKABLE;
      sig := 1;
      while sig < NSIG
        invariant 1 <= sig <= NSIG && Lowest(Deliverable(View(), t), sig) == Lowest(Deliverable(View(), t), 0)
      {
        if sig in pending && sig !in blocked {
          fromShared := sig !in threads[t].pending && sig in shared;
          return;
        }
        sig := sig + 1;
      }
      return 0, false;
    }

    /** `take_pending_from_set`: the lowest of the thread's own signals in the set, else the lowest shared one. */
    method TakeFromSet(t: Tid, wanted: set<Sig>) returns (sig: nat)
      requires t in threads
      modifies this`threads, this`shared
      ensures sig == FirstOf(old(threads)[t].pending * wanted, old(shared) * wanted)
      ensures View() == if sig == 0 then old(View()) else Take(old(View()), t, sig)
    {
      sig := 1;
      while sig < NSIG
        invariant 1 <= sig <= NSIG
        invariant Lowest(threads[t].pending * wanted, sig) == Lowest(threads[t].pending * wanted, 1)
      {
        if sig in threads[t].pending * wanted {
          threads := threads[t := ClearPending(threads[t], {sig})];
          return;
        }
        sig := sig + 1;
      }
      sig := 1;
      while sig < NSIG
        invariant 1 <= sig <= NSIG && Lowest(threads[t].pending * wanted, 1) == NSIG
        invariant Lowest(shared * wanted, sig) == Lowest(shared * wanted, 1)
      {
        if sig in shared * wanted {
          assert sig !in threads[t].pending * wanted;
          shared := shared - {sig};
          return;
        }
        sig := sig + 1;
      }
      return 0;
    }
  }

  lemma ClearMany(threads: map<Tid, Thread>, a: set<Tid>, b: set<Tid>, sig: Sig)
    ensures Cleared(Cleared(threads, a, sig), b, sig) == Cleared(threads, a + b, sig)
  {
    forall t | t in threads
      ensures ClearPending(ClearPending(threads[t], Opposite(sig)), Opposite(sig)) == ClearPending(threads[t], Opposite(sig))
    {
    }
  }

  /** The lowest valid signal of `own`, else of `common`, else 0. */
  function FirstOf(own: set<Sig>, common: set<Sig>): nat {
    if Lowest(own, 1) < NSIG then Lowest(own, 1)
    else if Lowest(common, 1) < NSIG then Lowest(common, 1)
    else 0
  }
}
