/** `AsyncLRUCacheWrapper` as an object: each method is one stretch of `__call__` between two awaits. */
module CacheObject {
  import opened CliValues
  import opened OrderedDict
  import opened AsyncCache
  import opened CacheRecency

  class AsyncLRUCacheWrapper<K(==), V> {
    var hits: nat
    var misses: nat
    var currsize: int
    var entries: OD<K, Entry<V>>
    var nextLock: nat
    var tasks: map<nat, Phase<K, V>>
    const maxsize: Option<nat>
    const ttl: Option<real>

    ghost function View(): Cache<K, V>
      reads this
    {
      Cache(entries, hits, misses, currsize, nextLock, tasks)
    }

    ghost function Set(): Settings {
      Settings(maxsize, ttl)
    }

    // A negative maxsize counts as 0.
    constructor (maxsize: Option<int>, ttl: Option<real>)
      ensures View() == Fresh() && Set().ttl == ttl
      ensures Set().maxsize == if maxsize.None? then None else Some(if maxsize.value < 0 then 0 else maxsize.value)
    {
      hits, misses, currsize, nextLock := 0, 0, 0, 0;
      entries, tasks := Empty(), map[];
      this.maxsize := if maxsize.None? then None else Some(if maxsize.value < 0 then 0 else maxsize.value);
      this.ttl := ttl;
    }

    method BeginCall(t: nat, k: K, now: real)
      modifies this
      ensures View() == Begin(Set(), old(View()), t, k, now)
    {
      if maxsize == Some(0) {
        tasks := tasks[t := Direct(k)];
        return;
      }
      if k !in entries.vals {
        entries := Put(entries, k, Pending(nextLock));
        nextLock := nextLock + 1;
      }
      var entry := entries.vals[k];
      if entry.Cached? {
        if entry.expires.Some? && now >= entry.expires.value {
          currsize := currsize - 1;
          entry := Pending(nextLock);
          entries := Put(entries, k, entry);
          nextLock := nextLock + 1;
        } else {
          hits := hits + 1;
          entries := MoveToEnd(entries, k);
          tasks := tasks[t := Returned(k, entry.value)];
          return;
        }
      }
      tasks := tasks[t := Waiting(k, entry.lock)];
    }

    method LockAcquired(t: nat)
      requires t in tasks && tasks[t].Waiting? && LockFree(View(), tasks[t].lock)
      modifies this
      ensures View() == Acquire(Set(), old(View()), t)
    {
      var k, lock := tasks[t].key, tasks[t].lock;
      if k !in entries.vals {
        tasks := tasks[t := KeyLost(k)];
      } else if entries.vals[k].Pending? {
        misses := misses + 1;
        if maxsize.Some? && currsize >= maxsize.value {
          if entries.order != [] {
            entries := PopFirst(entries);
          }
        } else {
          currsize := currsize + 1;
        }
        tasks := tasks[t := Running(k, lock)];
      } else {
        hits := hits + 1;
        var value := entries.vals[k].value;
        entries := MoveToEnd(entries, k);
        tasks := tasks[t := Returned(k, value)];
      }
    }

    method WrappedReturned(t: nat, v: V, now: real)
      requires t in tasks && (tasks[t].Running? || tasks[t].Direct?)
      modifies this
      ensures View() == Complete(Set(), old(View()), t, v, now)
    {
      var k := tasks[t].key;
      if tasks[t].Direct? {
        misses := misses + 1;
      } else {
        entries := Put(entries, k, Cached(v, if ttl.Some? then Some(now + ttl.value) else None));
      }
      tasks := tasks[t := Returned(k, v)];
    }

    method Abandoned(t: nat)
      requires t in tasks
      modifies this
      ensures View() == Abandon(old(View()), t)
    {
      tasks := tasks[t := Raised(tasks[t].key)];
    }

    // A whole call with no other task in between, for a pure wrapped function f.
    method CallAlone(t: nat, k: K, f: K -> V, now: real, done: real) returns (v: V)
      requires Settled(Set(), View()) && forall u :: u in tasks ==> !tasks[u].Running?
      modifies this
      ensures Shows(Set(), old(View()), View(), t, k, Look(Set(), old(Records(View().entries)), k, f(k), now, done))
      ensures v == Look(Set(), old(Records(View().entries)), k, f(k), now, done).value
      ensures old(Honest(f, Records(View().entries))) ==> v == f(k)
    {
      ghost var before := View();
      CallRefines(Set(), before, t, k, f(k), now, done);
      if Honest(f, Records(before.entries)) {
        LookHonest(Set(), f, Records(before.entries), k, now, done);
      }
      BeginCall(t, k, now);
      if tasks[t].Waiting? {
        assert forall u :: u in tasks && u != t ==> u in before.tasks && tasks[u] == before.tasks[u];
        LockAcquired(t);
      }
      if tasks[t].Running? || tasks[t].Direct? {
        WrappedReturned(t, f(k), done);
      }
      v := tasks[t].value;
    }

    method CacheInfo() returns (info: (nat, nat, Option<nat>, int, Option<real>))
      ensures info == (hits, misses, maxsize, currsize, ttl)
      ensures Settled(Set(), View()) ==> info.3 == |Records(View().entries)|
    {
      info := (hits, misses, maxsize, currsize, ttl);
    }
  }
}
