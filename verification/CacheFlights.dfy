/** When a bounded or expiring cache computes a key twice at once or loses it: exactly after a step that
    evicts or renews the entry of a key some call is still busy with. */
module CacheFlights {
  import opened CliValues
  import opened OrderedDict
  import opened AsyncCache

  // Every step of the run that happens is harmless.
  ghost predicate HarmlessRun<K, V>(c: Settings, events: seq<Event<K, V>>) {
    events == [] ||
    var front, e := events[..|events| - 1], events[|events| - 1];
    HarmlessRun(c, front) && (Enabled(After(c, front), e) ==> Harmless(c, After(c, front).s, e))
  }

  // Two wrapped calls of one key are in flight, or a call has met a KeyError.
  ghost predicate Fails<K, V>(s: Cache<K, V>) {
    !OneFlightPerKey(s) || !NoKeyLost(s)
  }

  lemma {:induction false} HarmlessAgrees<K(!new), V(!new)>(c: Settings, events: seq<Event<K, V>>)
    requires HarmlessRun(c, events)
    ensures LocksAgree(After(c, events).s)
  {
    hide LocksAgree, Harmless, Next;
    if events == [] {
      FreshAgrees<K, V>();
    } else {
      var front, e := events[..|events| - 1], events[|events| - 1];
      HarmlessAgrees(c, front);
      if Enabled(After(c, front), e) {
        StepKeepsLocksExactly(c, After(c, front), e);
      }
    }
  }

  lemma FreshAgrees<K(!new), V(!new)>()
    ensures LocksAgree<K, V>(Fresh())
  {
  }

  // Main result: with any maxsize and any ttl, a run of harmless steps never has two wrapped calls of
  // one key in flight, and no call meets a KeyError.
  lemma HarmlessNeverFails<K(!new), V(!new)>(c: Settings, events: seq<Event<K, V>>)
    requires HarmlessRun(c, events)
    ensures !Fails(After(c, events).s)
  {
    HarmlessAgrees(c, events);
  }

  // ---------------------------------------------------------------- locks and keys, in any run

  predicate Active<K, V>(p: Phase<K, V>) {
    p.Waiting? || p.Running?
  }

  // A lock belongs to one key for good, and the next one is unused.
  ghost predicate LocksOwned<K(!new), V(!new)>(s: Cache<K, V>) {
    && (forall t :: t in s.tasks && Active(s.tasks[t]) ==> s.tasks[t].lock < s.nextLock)
    && (forall k :: k in s.entries.vals && s.entries.vals[k].Pending? ==> s.entries.vals[k].lock < s.nextLock)
    && (forall t, u :: t in s.tasks && u in s.tasks && Active(s.tasks[t]) && Active(s.tasks[u]) && s.tasks[t].lock == s.tasks[u].lock ==>
          s.tasks[t].key == s.tasks[u].key)
    && (forall t, k :: t in s.tasks && Active(s.tasks[t]) && k in s.entries.vals && s.entries.vals[k] == Pending(s.tasks[t].lock) ==>
          s.tasks[t].key == k)
    && (forall k, l :: k in s.entries.vals && l in s.entries.vals && s.entries.vals[k].Pending? && s.entries.vals[k] == s.entries.vals[l] ==>
          k == l)
  }

  lemma PlaceholderOwned<K(!new), V(!new)>(s: Cache<K, V>, t: nat, k: K)
    requires LocksOwned(s) && t !in s.tasks
    ensures LocksOwned(NewPlaceholder(s, t, k))
  {
  }

  lemma JoinOwned<K(!new), V(!new)>(s: Cache<K, V>, t: nat, k: K)
    requires LocksOwned(s) && t !in s.tasks && k in s.entries.vals && s.entries.vals[k].Pending?
    ensures LocksOwned(Enter(s, t, Waiting(k, s.entries.vals[k].lock)))
  {
  }

  // Settling a call that is not waiting any more, with no new placeholder.
  lemma SettledOwned<K(!new), V(!new)>(s: Cache<K, V>, n: Cache<K, V>, t: nat, p: Phase<K, V>)
    requires LocksOwned(s) && n.tasks == s.tasks[t := p] && n.nextLock == s.nextLock
    requires Active(p) ==> t in s.tasks && Active(s.tasks[t]) && p.key == s.tasks[t].key && p.lock == s.tasks[t].lock
    requires forall k :: k in n.entries.vals && n.entries.vals[k].Pending? ==> k in s.entries.vals && s.entries.vals[k] == n.entries.vals[k]
    ensures LocksOwned(n)
  {
    forall u | u in n.tasks && Active(n.tasks[u])
      ensures u in s.tasks && Active(s.tasks[u]) && n.tasks[u].key == s.tasks[u].key && n.tasks[u].lock == s.tasks[u].lock
    {
    }
  }

  lemma BeginOwned<K(!new), V(!new)>(c: Settings, s: Cache<K, V>, t: nat, k: K, now: real)
    requires LocksOwned(s) && t !in s.tasks
    ensures LocksOwned(Begin(c, s, t, k, now))
  {
    hide LocksOwned, NewPlaceholder;
    var n := Begin(c, s, t, k, now);
    if c.maxsize == Some(0) {
      SettledOwned(s, n, t, Direct(k));
    } else if k !in s.entries.vals {
      PlaceholderOwned(s, t, k);
    } else if s.entries.vals[k].Pending? {
      JoinOwned(s, t, k);
    } else if Expired(s.entries.vals[k], now) {
      CountOwned(s, s.currsize - 1);
      PlaceholderOwned(s.(currsize := s.currsize - 1), t, k);
    } else {
      SettledOwned(s, n, t, n.tasks[t]);
    }
  }

  lemma CountOwned<K(!new), V(!new)>(s: Cache<K, V>, n: int)
    requires LocksOwned(s)
    ensures LocksOwned(s.(currsize := n))
  {
  }

  lemma AcquireOwned<K(!new), V(!new)>(c: Settings, s: Cache<K, V>, t: nat)
    requires LocksOwned(s) && t in s.tasks && s.tasks[t].Waiting?
    ensures LocksOwned(Acquire(c, s, t))
  {
    hide LocksOwned;
    var n := Acquire(c, s, t);
    SettledOwned(s, n, t, n.tasks[t]);
  }

  lemma FinishOwned<K(!new), V(!new)>(c: Settings, s: Cache<K, V>, t: nat, v: V, now: real)
    requires LocksOwned(s) && t in s.tasks && (s.tasks[t].Running? || s.tasks[t].Direct?)
    ensures LocksOwned(Complete(c, s, t, v, now))
  {
    hide LocksOwned;
    SettledOwned(s, Complete(c, s, t, v, now), t, Returned(s.tasks[t].key, v));
  }

  lemma AbandonOwned<K(!new), V(!new)>(s: Cache<K, V>, t: nat)
    requires LocksOwned(s) && t in s.tasks
    ensures LocksOwned(Abandon(s, t))
  {
    hide LocksOwned;
    SettledOwned(s, Abandon(s, t), t, Raised(s.tasks[t].key));
  }

  // With maxsize 0 nothing is stored and no call waits.
  ghost predicate NothingStored<K, V>(s: Cache<K, V>) {
    s.entries == Empty() && forall t :: t in s.tasks ==> !Active(s.tasks[t])
  }

  lemma StoresNothing<K, V>(c: Settings, r: Run<K, V>, e: Event<K, V>)
    requires Enabled(r, e)
    ensures c.maxsize == Some(0) && NothingStored(r.s) ==> NothingStored(Next(c, r, e).s)
  {
  }

  lemma {:induction false} AlwaysOwned<K(!new), V(!new)>(c: Settings, events: seq<Event<K, V>>)
    ensures LocksOwned(After(c, events).s)
    ensures c.maxsize == Some(0) ==> NothingStored(After(c, events).s)
  {
    if events != [] {
      var r, e := After(c, events[..|events| - 1]), events[|events| - 1];
      AlwaysOwned(c, events[..|events| - 1]);
      if Enabled(r, e) {
        hide LocksOwned, NothingStored;
        StoresNothing(c, r, e);
        match e
        case BeginCall(t, k, now) => BeginOwned(c, r.s, t, k, now);
        case LockAcquired(t) => AcquireOwned(c, r.s, t);
        case WrappedReturned(t, v, now) => FinishOwned(c, r.s, t, v, now);
        case WrappedRaised(t) => AbandonOwned(r.s, t);
        case WaitCancelled(t) => AbandonOwned(r.s, t);
      }
    }
  }

  // ---------------------------------------------------------------- after a harmful step

  lemma {:induction false} FreshTask<V>(tasks: map<nat, V>) returns (w: nat)
    ensures w !in tasks
  {
    var s := tasks.Keys;
    w := Above(s);
  }

  lemma {:induction false} Above(s: set<nat>) returns (w: nat)
    ensures forall t :: t in s ==> t < w
    decreases s
  {
    w := 0;
    if s != {} {
      var t :| t in s;
      w := Above(s - {t});
      assert forall x :: x in s ==> x == t || x in s - {t};
      w := if t < w then w else t + 1;
    }
  }

  // A running call of a key that has no entry: a new call starts a second flight.
  lemma SecondFlight<K(!new), V(!new)>(c: Settings, events: seq<Event<K, V>>, u: nat, k: K)
    returns (more: seq<Event<K, V>>)
    requires var s := After(c, events).s;
             c.maxsize != Some(0) && LocksOwned(s) && OrderedDict.Valid(s.entries) && k !in s.entries.vals
             && u in s.tasks && s.tasks[u].Running? && s.tasks[u].key == k
    ensures Fails(After(c, events + more).s)
  {
    var s := After(c, events).s;
    var w := FreshTask(s.tasks);
    var e1, e2 := BeginCall(w, k, 0.0), LockAcquired(w);
    AfterStep(c, events, e1);
    var b := After(c, events + [e1]).s;
    assert b.tasks[w] == Waiting(k, s.nextLock) && b.entries.vals[k] == Pending(s.nextLock);
    assert LockFree(b, s.nextLock);
    AfterStep(c, events + [e1], e2);
    var a := After(c, events + [e1] + [e2]).s;
    assert a.tasks[w].Running? && a.tasks[u] == s.tasks[u];
    more := [e1] + [e2];
    assert events + more == events + [e1] + [e2];
  }

  // A waiting call of a key that has no entry meets a KeyError.
  lemma LosesKey<K(!new), V(!new)>(c: Settings, events: seq<Event<K, V>>, u: nat)
    returns (more: seq<Event<K, V>>)
    requires var s := After(c, events).s;
             u in s.tasks && s.tasks[u].Waiting? && LockFree(s, s.tasks[u].lock) && s.tasks[u].key !in s.entries.vals
    ensures Fails(After(c, events + more).s)
  {
    AfterStep(c, events, LockAcquired(u));
    more := [LockAcquired(u)];
    assert After(c, events + more).s.tasks[u].KeyLost?;
  }

  lemma EvictionFails<K(!new), V(!new)>(c: Settings, events: seq<Event<K, V>>, t: nat)
    returns (more: seq<Event<K, V>>)
    requires c.maxsize != Some(0) && LocksAgree(After(c, events).s) && LocksOwned(After(c, events).s)
    requires Enabled(After(c, events), LockAcquired(t)) && !Harmless(c, After(c, events).s, LockAcquired(t))
    ensures Fails(After(c, events + [LockAcquired(t)] + more).s)
  {
    var s := After(c, events).s;
    AfterStep(c, events, LockAcquired(t));
    var n := After(c, events + [LockAcquired(t)]).s;
    hide After;
    assert n == Acquire(c, s, t);
    AcquireOwned(c, s, t);
    var victim, u := Evicted(c, s, t);
    hide Acquire, LocksAgree, Fails, Harmless;
    if v :| v in n.tasks && n.tasks[v].Running? && n.tasks[v].key == victim {
      more := SecondFlight(c, events + [LockAcquired(t)], v, victim);
    } else {
      assert n.tasks[u].Waiting? && LockFree(n, n.tasks[u].lock);
      more := LosesKey(c, events + [LockAcquired(t)], u);
    }
  }

  // What the harmful eviction leaves: a busy key without entry, and a call of it.
  lemma Evicted<K(!new), V(!new)>(c: Settings, s: Cache<K, V>, t: nat) returns (victim: K, u: nat)
    requires LocksAgree(s) && t in s.tasks && s.tasks[t].Waiting? && !Harmless(c, s, LockAcquired(t))
    ensures var n := Acquire(c, s, t);
            && OrderedDict.Valid(n.entries) && victim !in n.entries.vals
            && u in n.tasks && Active(n.tasks[u]) && n.tasks[u].key == victim
  {
    victim := s.entries.order[0];
    PopFirstValid(s.entries);
    u :| u in s.tasks && Active(s.tasks[u]) && s.tasks[u].key == victim;
  }

  // A call waits at an old lock of k, another at the lock of k's placeholder: both can go on, unless
  // the entry is evicted in between.
  lemma TwoLocks<K(!new), V(!new)>(c: Settings, events: seq<Event<K, V>>, t: nat, u: nat, k: K)
    returns (more: seq<Event<K, V>>)
    requires var s := After(c, events).s;
             && t in s.tasks && u in s.tasks && t != u && s.tasks[t].Waiting? && s.tasks[u].Waiting?
             && s.tasks[t].key == k == s.tasks[u].key && s.tasks[t].lock != s.tasks[u].lock
             && k in s.entries.vals && s.entries.vals[k].Pending?
             && LockFree(s, s.tasks[t].lock) && LockFree(s, s.tasks[u].lock)
    ensures Fails(After(c, events + more).s)
  {
    var b := After(c, events).s;
    var e1, e2 := LockAcquired(u), LockAcquired(t);
    AfterStep(c, events, e1);
    var a := After(c, events + [e1]).s;
    assert a.tasks == b.tasks[u := Running(k, b.tasks[u].lock)];
    assert k in a.entries.vals ==> a.entries.vals[k].Pending?;
    AfterStep(c, events + [e1], e2);
    more := [e1] + [e2];
    assert events + more == events + [e1] + [e2];
    var f := After(c, events + more).s;
    assert f == Acquire(c, a, t);
    assert f.tasks[t].KeyLost? || (f.tasks[t].Running? && f.tasks[u].Running?);
  }

  lemma RenewalFails<K(!new), V(!new)>(c: Settings, events: seq<Event<K, V>>, t: nat, k: K, now: real)
    returns (more: seq<Event<K, V>>)
    requires c.maxsize != Some(0) && LocksAgree(After(c, events).s) && LocksOwned(After(c, events).s)
    requires Enabled(After(c, events), BeginCall(t, k, now)) && !Harmless(c, After(c, events).s, BeginCall(t, k, now))
    ensures Fails(After(c, events + [BeginCall(t, k, now)] + more).s)
  {
    var s := After(c, events).s;
    AfterStep(c, events, BeginCall(t, k, now));
    var b := After(c, events + [BeginCall(t, k, now)]).s;
    hide After;
    var u :| u in s.tasks && Active(s.tasks[u]) && s.tasks[u].key == k;
    assert s.tasks[u].Waiting?;
    assert b.tasks == s.tasks[t := Waiting(k, s.nextLock)] && b.entries.vals[k] == Pending(s.nextLock);
    assert LockFree(b, s.tasks[u].lock) && LockFree(b, s.nextLock);
    hide LocksAgree, LocksOwned, LockFree, Fails;
    more := TwoLocks(c, events + [BeginCall(t, k, now)], t, u, k);
  }

  // Main result: the other half.  Whatever harmless run comes before, an enabled step that is not
  // harmless can be followed by steps that put two wrapped calls of one key in flight, or lose the key.
  lemma HarmfulCanFail<K(!new), V(!new)>(c: Settings, events: seq<Event<K, V>>, e: Event<K, V>)
    returns (more: seq<Event<K, V>>)
    requires HarmlessRun(c, events) && Enabled(After(c, events), e) && !Harmless(c, After(c, events).s, e)
    ensures Fails(After(c, events + [e] + more).s)
  {
    HarmlessAgrees(c, events);
    AlwaysOwned(c, events);
    assert c.maxsize != Some(0);
    hide LocksAgree, LocksOwned, After, Harmless;
    more := [];
    match e
    case BeginCall(t, k, now) => more := RenewalFails(c, events, t, k, now);
    case LockAcquired(t) => more := EvictionFails(c, events, t);
    case _ =>
  }

  // ---------------------------------------------------------------- the bound

  // With any interleaving and any failures currsize never exceeds maxsize.
  lemma {:induction false} CurrsizeBounded<K(!new), V(!new)>(c: Settings, events: seq<Event<K, V>>)
    requires c.maxsize.Some?
    ensures After(c, events).s.currsize <= c.maxsize.value
  {
    if events != [] {
      CurrsizeBounded(c, events[..|events| - 1]);
    }
  }
}
