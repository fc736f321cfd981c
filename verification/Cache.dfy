/** The asynchronous LRU/TTL cache: `AsyncLRUCacheWrapper.__call__`, cut at its awaits into atomic
    steps taken by any number of tasks.  A lock is held exactly while some task that acquired it has
    its wrapped call in flight. */
module AsyncCache {
  import opened CliValues
  import opened OrderedDict

  /** A cache entry: the placeholder with its lock, or a value with its expiry time. */
  datatype Entry<V> = Pending(lock: nat) | Cached(value: V, expires: Option<real>)

  /** Where a call stands between two awaits. */
  datatype Phase<K, V> =
    | Direct(key: K)                   // maxsize 0: the wrapped call is in flight, nothing is cached
    | Waiting(key: K, lock: nat)       // at `async with lock`
    | Running(key: K, lock: nat)       // holds the lock, the wrapped call is in flight
    | Returned(key: K, value: V)
    | Raised(key: K)                   // the wrapped call failed, or the wait was cancelled
    | KeyLost(key: K)                  // KeyError at the lookup under the lock

  datatype Settings = Settings(maxsize: Option<nat>, ttl: Option<real>)

  datatype Cache<K, V> = Cache(
    entries: OD<K, Entry<V>>,
    hits: nat,
    misses: nat,
    currsize: int,
    nextLock: nat,
    tasks: map<nat, Phase<K, V>>)

  function Fresh<K, V>(): Cache<K, V> {
    Cache(Empty(), 0, 0, 0, 0, map[])
  }

  function Enter<K, V>(s: Cache<K, V>, t: nat, p: Phase<K, V>): Cache<K, V> {
    s.(tasks := s.tasks[t := p])
  }

  predicate Expired<V>(e: Entry<V>, now: real) {
    e.Cached? && e.expires.Some? && now >= e.expires.value
  }

  // From the call up to its first await.
  function Begin<K(==), V>(c: Settings, s: Cache<K, V>, t: nat, k: K, now: real): Cache<K, V> {
    if c.maxsize == Some(0) then Enter(s, t, Direct(k))
    else if k !in s.entries.vals then NewPlaceholder(s, t, k)
    else
      match s.entries.vals[k]
      case Pending(lock) => Enter(s, t, Waiting(k, lock))
      case Cached(v, expires) =>
        if Expired(s.entries.vals[k], now) then NewPlaceholder(s.(currsize := s.currsize - 1), t, k)
        else Enter(s.(hits := s.hits + 1, entries := MoveToEnd(s.entries, k)), t, Returned(k, v))
  }

  function NewPlaceholder<K(==), V>(s: Cache<K, V>, t: nat, k: K): Cache<K, V> {
    Enter(s.(entries := Put(s.entries, k, Pending(s.nextLock)), nextLock := s.nextLock + 1), t, Waiting(k, s.nextLock))
  }

  predicate Full<K, V>(c: Settings, s: Cache<K, V>) {
    c.maxsize.Some? && s.currsize >= c.maxsize.value
  }

  ghost predicate LockFree<K, V>(s: Cache<K, V>, lock: nat) {
    forall t :: t in s.tasks && s.tasks[t].Running? ==> s.tasks[t].lock != lock
  }

  // The lock has been acquired: up to the wrapped call, or to the end.
  function Acquire<K(==), V>(c: Settings, s: Cache<K, V>, t: nat): Cache<K, V>
    requires t in s.tasks && s.tasks[t].Waiting?
  {
    var k, lock := s.tasks[t].key, s.tasks[t].lock;
    if k !in s.entries.vals then Enter(s, t, KeyLost(k))
    else
      match s.entries.vals[k]
      case Cached(v, _) => Enter(s.(hits := s.hits + 1, entries := MoveToEnd(s.entries, k)), t, Returned(k, v))
      case Pending(_) =>
        var counted := s.(misses := s.misses + 1);
        Enter(if !Full(c, s) then counted.(currsize := s.currsize + 1)
              else if s.entries.order == [] then counted
              else counted.(entries := PopFirst(s.entries)), t, Running(k, lock))
  }

  // The wrapped call has returned v.
  function Complete<K(==), V>(c: Settings, s: Cache<K, V>, t: nat, v: V, now: real): Cache<K, V>
    requires t in s.tasks && (s.tasks[t].Running? || s.tasks[t].Direct?)
  {
    var k := s.tasks[t].key;
    if s.tasks[t].Direct? then Enter(s.(misses := s.misses + 1), t, Returned(k, v))
    else
      var expires := if c.ttl.Some? then Some(now + c.ttl.value) else None;
      Enter(s.(entries := Put(s.entries, k, Cached(v, expires))), t, Returned(k, v))
  }

  // The wrapped call has raised, or its task was cancelled while waiting.
  function Abandon<K, V>(s: Cache<K, V>, t: nat): Cache<K, V>
    requires t in s.tasks
  {
    Enter(s, t, Raised(s.tasks[t].key))
  }

  // ---------------------------------------------------------------- any number of tasks

  datatype Event<K, V> =
    | BeginCall(t: nat, k: K, now: real)
    | LockAcquired(t: nat)
    | WrappedReturned(t: nat, v: V, now: real)
    | WrappedRaised(t: nat)
    | WaitCancelled(t: nat)

  /** The cache with the history of the wrapped calls: how many were started, and which succeeded with what. */
  datatype Run<K, V> = Run(s: Cache<K, V>, started: nat, wins: seq<(K, V)>)

  ghost predicate Enabled<K, V>(r: Run<K, V>, e: Event<K, V>) {
    match e
    case BeginCall(t, _, _) => t !in r.s.tasks
    case LockAcquired(t) => t in r.s.tasks && r.s.tasks[t].Waiting? && LockFree(r.s, r.s.tasks[t].lock)
    case WrappedReturned(t, _, _) => t in r.s.tasks && (r.s.tasks[t].Running? || r.s.tasks[t].Direct?)
    case WrappedRaised(t) => t in r.s.tasks && (r.s.tasks[t].Running? || r.s.tasks[t].Direct?)
    case WaitCancelled(t) => t in r.s.tasks && r.s.tasks[t].Waiting?
  }

  ghost function Next<K, V>(c: Settings, r: Run<K, V>, e: Event<K, V>): Run<K, V>
    requires Enabled(r, e)
  {
    match e
    case BeginCall(t, k, now) =>
      var s := Begin(c, r.s, t, k, now);
      Run(s, if s.tasks[t].Direct? then r.started + 1 else r.started, r.wins)
    case LockAcquired(t) =>
      var s := Acquire(c, r.s, t);
      Run(s, if s.tasks[t].Running? then r.started + 1 else r.started, r.wins)
    case WrappedReturned(t, v, now) =>
      Run(Complete(c, r.s, t, v, now), r.started, r.wins + [(r.s.tasks[t].key, v)])
    case WrappedRaised(t) => r.(s := Abandon(r.s, t))
    case WaitCancelled(t) => r.(s := Abandon(r.s, t))
  }

  // The state after a sequence of events; events that are not enabled cannot happen and are skipped.
  ghost function After<K, V>(c: Settings, events: seq<Event<K, V>>): Run<K, V> {
    if events == [] then Run(Fresh(), 0, [])
    else
      var r, e := After(c, events[..|events| - 1]), events[|events| - 1];
      if Enabled(r, e) then Next(c, r, e) else r
  }

  // What holds of an unbounded cache without expiry: every task of a key with a placeholder is at
  // that placeholder's lock, no two calls of a key are in flight, and none has met a KeyError, ...
  ghost predicate LocksAgree<K(!new), V(!new)>(s: Cache<K, V>) {
    && OrderedDict.Valid(s.entries)
    && (forall k :: k in s.entries.vals && s.entries.vals[k].Pending? ==> s.entries.vals[k].lock < s.nextLock)
    && NoKeyLost(s)
    && (forall t :: t in s.tasks && s.tasks[t].Waiting? ==> s.tasks[t].lock < s.nextLock)
    && (forall t :: t in s.tasks && s.tasks[t].Waiting? ==> s.tasks[t].key in s.entries.vals)
    && (forall t :: t in s.tasks && s.tasks[t].Running? ==>
          s.tasks[t].key in s.entries.vals && s.entries.vals[s.tasks[t].key] == Pending(s.tasks[t].lock))
    && (forall t :: t in s.tasks && s.tasks[t].Waiting? && s.entries.vals[s.tasks[t].key].Pending? ==>
          s.entries.vals[s.tasks[t].key].lock == s.tasks[t].lock)
    && OneFlightPerKey(s)
  }

  // ... and the entries, the history of successes and the results returned tell the same story.
  ghost predicate HistoryAgrees<K(!new), V(!new)>(s: Cache<K, V>, wins: seq<(K, V)>) {
    && (forall w :: w in wins ==> w.0 in s.entries.vals && s.entries.vals[w.0] == Cached(w.1, None))
    && (forall k :: k in s.entries.vals && s.entries.vals[k].Cached? ==> (k, s.entries.vals[k].value) in wins && s.entries.vals[k].expires.None?)
    && OneWinPerKey(wins)
    && (forall t :: t in s.tasks && s.tasks[t].Returned? ==> (s.tasks[t].key, s.tasks[t].value) in wins)
  }

  ghost predicate Coherent<K(!new), V(!new)>(r: Run<K, V>) {
    && r.s.misses == r.started && r.s.currsize == r.started
    && |Completed(r.s)| == r.s.hits + |r.wins|
    && LocksAgree(r.s) && HistoryAgrees(r.s, r.wins)
    && (forall t :: t in r.s.tasks ==> !r.s.tasks[t].Direct?)
  }

  ghost predicate NoKeyLost<K, V>(s: Cache<K, V>) {
    forall t :: t in s.tasks ==> !s.tasks[t].KeyLost?
  }

  ghost predicate OneFlightPerKey<K, V>(s: Cache<K, V>) {
    forall t, u :: t in s.tasks && u in s.tasks && s.tasks[t].Running? && s.tasks[u].Running? && s.tasks[t].key == s.tasks[u].key ==> t == u
  }

  ghost predicate OneWinPerKey<K, V>(wins: seq<(K, V)>) {
    forall i, j :: 0 <= i < j < |wins| ==> wins[i].0 != wins[j].0
  }

  // The calls that have returned a value.
  ghost function Completed<K, V>(s: Cache<K, V>): (c: set<nat>)
    ensures forall t :: t in c ==> t in s.tasks && s.tasks[t].Returned?
  {
    set t | t in s.tasks && s.tasks[t].Returned?
  }

  lemma CompletedStep<K, V>(s: Cache<K, V>, n: Cache<K, V>, t: nat, p: Phase<K, V>)
    requires n.tasks == s.tasks[t := p] && t !in Completed(s)
    ensures |Completed(n)| == |Completed(s)| + if p.Returned? then 1 else 0
  {
    assert Completed(n) == Completed(s) + if p.Returned? then {t} else {};
  }

  const UNBOUNDED := Settings(None, None)

  lemma BeginKeepsLocks<K(!new), V(!new)>(s: Cache<K, V>, t: nat, k: K, now: real)
    requires LocksAgree(s) && t !in s.tasks
    requires k in s.entries.vals && s.entries.vals[k].Cached? ==> s.entries.vals[k].expires.None?
    ensures LocksAgree(Begin(UNBOUNDED, s, t, k, now))
  {
    if k !in s.entries.vals {
      PutValid(s.entries, k, Pending(s.nextLock));
    } else if s.entries.vals[k].Cached? {
      MoveToEndValid(s.entries, k);
    }
  }

  lemma BeginKeepsHistory<K(!new), V(!new)>(s: Cache<K, V>, wins: seq<(K, V)>, t: nat, k: K, now: real)
    requires HistoryAgrees(s, wins) && t !in s.tasks
    ensures HistoryAgrees(Begin(UNBOUNDED, s, t, k, now), wins)
  {
  }

  lemma BeginCounts<K(!new), V(!new)>(s: Cache<K, V>, t: nat, k: K, now: real)
    requires t !in s.tasks
    requires k in s.entries.vals && s.entries.vals[k].Cached? ==> s.entries.vals[k].expires.None?
    ensures var n := Begin(UNBOUNDED, s, t, k, now);
            && |Completed(n)| + s.hits == |Completed(s)| + n.hits && !n.tasks[t].Direct?
            && n.misses == s.misses && n.currsize == s.currsize
  {
    hide Completed;
    var n := Begin(UNBOUNDED, s, t, k, now);
    CompletedStep(s, n, t, n.tasks[t]);
  }

  lemma BeginKeeps<K(!new), V(!new)>(r: Run<K, V>, t: nat, k: K, now: real)
    requires Coherent(r) && t !in r.s.tasks
    ensures Coherent(Next(UNBOUNDED, r, BeginCall(t, k, now)))
  {
    BeginKeepsLocks(r.s, t, k, now);
    BeginKeepsHistory(r.s, r.wins, t, k, now);
    BeginCounts(r.s, t, k, now);
    hide LocksAgree, HistoryAgrees, Completed, Begin;
  }

  lemma AcquireKeepsLocks<K(!new), V(!new)>(s: Cache<K, V>, t: nat)
    requires LocksAgree(s) && t in s.tasks && s.tasks[t].Waiting? && LockFree(s, s.tasks[t].lock)
    ensures LocksAgree(Acquire(UNBOUNDED, s, t))
  {
    var k := s.tasks[t].key;
    if s.entries.vals[k].Cached? {
      MoveToEndValid(s.entries, k);
    }
  }

  lemma AcquireKeepsHistory<K(!new), V(!new)>(s: Cache<K, V>, wins: seq<(K, V)>, t: nat)
    requires HistoryAgrees(s, wins) && t in s.tasks && s.tasks[t].Waiting?
    ensures HistoryAgrees(Acquire(UNBOUNDED, s, t), wins)
  {
  }

  lemma AcquireCounts<K(!new), V(!new)>(s: Cache<K, V>, t: nat)
    requires t in s.tasks && s.tasks[t].Waiting? && s.tasks[t].key in s.entries.vals
    ensures var n := Acquire(UNBOUNDED, s, t);
            && |Completed(n)| + s.hits == |Completed(s)| + n.hits
            && n.misses - s.misses == n.currsize - s.currsize == if n.tasks[t].Running? then 1 else 0
  {
    hide Completed;
    var n := Acquire(UNBOUNDED, s, t);
    CompletedStep(s, n, t, n.tasks[t]);
  }

  lemma AcquireKeeps<K(!new), V(!new)>(r: Run<K, V>, t: nat)
    requires Coherent(r) && Enabled(r, LockAcquired(t))
    ensures Coherent(Next(UNBOUNDED, r, LockAcquired(t)))
  {
    AcquireKeepsLocks(r.s, t);
    AcquireKeepsHistory(r.s, r.wins, t);
    assert r.s.tasks[t].key in r.s.entries.vals;
    AcquireCounts(r.s, t);
    hide LocksAgree, HistoryAgrees, Completed, Acquire;
  }

  lemma ReturnKeepsLocks<K(!new), V(!new)>(c: Settings, s: Cache<K, V>, t: nat, v: V, now: real)
    requires LocksAgree(s) && t in s.tasks && (s.tasks[t].Running? || s.tasks[t].Direct?)
    ensures LocksAgree(Complete(c, s, t, v, now))
  {
    PutValid(s.entries, s.tasks[t].key, Cached(v, if c.ttl.Some? then Some(now + c.ttl.value) else None));
  }

  lemma ReturnKeepsHistory<K(!new), V(!new)>(s: Cache<K, V>, wins: seq<(K, V)>, t: nat, v: V, now: real)
    requires HistoryAgrees(s, wins) && t in s.tasks && s.tasks[t].Running?
    requires s.tasks[t].key in s.entries.vals && s.entries.vals[s.tasks[t].key].Pending?
    ensures HistoryAgrees(Complete(UNBOUNDED, s, t, v, now), wins + [(s.tasks[t].key, v)])
  {
    var k := s.tasks[t].key;
    var more := wins + [(k, v)];
    assert more[|wins|] == (k, v);
    assert forall w :: w in wins ==> w in more;
    assert forall i :: 0 <= i < |wins| ==> wins[i] in wins;
  }

  lemma ReturnKeeps<K(!new), V(!new)>(r: Run<K, V>, t: nat, v: V, now: real)
    requires Coherent(r) && Enabled(r, WrappedReturned(t, v, now))
    ensures Coherent(Next(UNBOUNDED, r, WrappedReturned(t, v, now)))
  {
    assert r.s.tasks[t].Running?;
    ReturnKeepsLocks(UNBOUNDED, r.s, t, v, now);
    ReturnKeepsHistory(r.s, r.wins, t, v, now);
    hide LocksAgree, HistoryAgrees, Completed;
    CompletedStep(r.s, Complete(UNBOUNDED, r.s, t, v, now), t, Returned(r.s.tasks[t].key, v));
  }

  lemma AbandonKeepsLocks<K(!new), V(!new)>(s: Cache<K, V>, t: nat)
    requires LocksAgree(s) && t in s.tasks
    ensures LocksAgree(Abandon(s, t))
  {
  }

  lemma AbandonKeepsHistory<K(!new), V(!new)>(s: Cache<K, V>, wins: seq<(K, V)>, t: nat)
    requires HistoryAgrees(s, wins) && t in s.tasks
    ensures HistoryAgrees(Abandon(s, t), wins)
  {
  }

  lemma AbandonKeeps<K(!new), V(!new)>(r: Run<K, V>, t: nat)
    requires Coherent(r) && t in r.s.tasks && !r.s.tasks[t].Returned?
    ensures Coherent(r.(s := Abandon(r.s, t)))
  {
    AbandonKeepsLocks(r.s, t);
    AbandonKeepsHistory(r.s, r.wins, t);
    CompletedStep(r.s, Abandon(r.s, t), t, Raised(r.s.tasks[t].key));
    hide LocksAgree, HistoryAgrees, Completed;
  }

  lemma NothingYet<K(!new), V(!new)>()
    ensures Coherent<K, V>(Run(Fresh(), 0, []))
  {
    assert Completed<K, V>(Fresh()) == {};
  }

  // Main result: with maxsize None and no ttl, under every interleaving of any number of tasks, any
  // failures and any cancellations, at most one wrapped call per key is in flight, at most one per
  // key ever succeeds, every completed call returned that value, misses counts the calls
  // started, and hits the completed calls that did not compute their value themselves.
  lemma {:induction false} UnboundedCoherent<K(!new), V(!new)>(events: seq<Event<K, V>>)
    ensures Coherent(After(UNBOUNDED, events))
  {
    hide Coherent, Begin, Acquire, Complete;
    if events == [] {
      NothingYet<K, V>();
    } else {
      var r, e := After(UNBOUNDED, events[..|events| - 1]), events[|events| - 1];
      UnboundedCoherent(events[..|events| - 1]);
      if Enabled(r, e) {
        match e
        case BeginCall(t, k, now) => BeginKeeps(r, t, k, now);
        case LockAcquired(t) => AcquireKeeps(r, t);
        case WrappedReturned(t, v, now) => ReturnKeeps(r, t, v, now);
        case WrappedRaised(t) => AbandonKeeps(r, t);
        case WaitCancelled(t) => AbandonKeeps(r, t);
      }
    }
  }

  // ---------------------------------------------------------------- eviction and expiry under concurrency

  // Some call of this key has not finished.
  ghost predicate Busy<K, V>(s: Cache<K, V>, k: K) {
    exists t :: t in s.tasks && (s.tasks[t].Waiting? || s.tasks[t].Running?) && s.tasks[t].key == k
  }

  // Acquiring its lock, task t evicts the first entry.
  ghost predicate Evicts<K, V>(c: Settings, s: Cache<K, V>, t: nat) {
    && t in s.tasks && s.tasks[t].Waiting? && s.tasks[t].key in s.entries.vals
    && s.entries.vals[s.tasks[t].key].Pending? && Full(c, s) && s.entries.order != []
  }

  // The step does not pop the entry of a busy key, nor renew the expired entry of one.
  ghost predicate Harmless<K, V>(c: Settings, s: Cache<K, V>, e: Event<K, V>) {
    match e
    case BeginCall(_, k, now) => c.maxsize != Some(0) && k in s.entries.vals && Expired(s.entries.vals[k], now) ==> !Busy(s, k)
    case LockAcquired(t) => Evicts(c, s, t) ==> !Busy(s, s.entries.order[0])
    case _ => true
  }

  lemma PlaceholderKeeps<K(!new), V(!new)>(s: Cache<K, V>, t: nat, k: K)
    requires LocksAgree(s) && t !in s.tasks && !Busy(s, k)
    ensures LocksAgree(NewPlaceholder(s, t, k))
  {
    PutValid(s.entries, k, Pending(s.nextLock));
  }

  lemma PlaceholderBreaks<K(!new), V(!new)>(s: Cache<K, V>, t: nat, k: K)
    requires LocksAgree(s) && t !in s.tasks && Busy(s, k) && k in s.entries.vals && s.entries.vals[k].Cached?
    ensures !LocksAgree(NewPlaceholder(s, t, k))
  {
    var n := NewPlaceholder(s, t, k);
    var u :| u in s.tasks && (s.tasks[u].Waiting? || s.tasks[u].Running?) && s.tasks[u].key == k;
    assert n.tasks[u] == s.tasks[u] && n.entries.vals[k].lock != n.tasks[u].lock;
  }

  lemma TouchKeeps<K(!new), V(!new)>(s: Cache<K, V>, t: nat, k: K, v: V)
    requires LocksAgree(s) && k in s.entries.vals
    ensures LocksAgree(Enter(s.(hits := s.hits + 1, entries := MoveToEnd(s.entries, k)), t, Returned(k, v)))
  {
    MoveToEndValid(s.entries, k);
    assert MoveToEnd(s.entries, k).vals == s.entries.vals;
    hide MoveToEnd, OrderedDict.Valid;
  }

  lemma JoinKeeps<K(!new), V(!new)>(s: Cache<K, V>, t: nat, k: K)
    requires LocksAgree(s) && t !in s.tasks && k in s.entries.vals && s.entries.vals[k].Pending?
    ensures LocksAgree(Enter(s, t, Waiting(k, s.entries.vals[k].lock)))
  {
  }

  lemma CounterFrame<K(!new), V(!new)>(s: Cache<K, V>, n: int, m: nat)
    requires LocksAgree(s)
    ensures LocksAgree(s.(currsize := n, misses := m))
  {
  }

  lemma AbsentIsIdle<K(!new), V(!new)>(s: Cache<K, V>, k: K)
    requires LocksAgree(s)
    ensures k !in s.entries.vals ==> !Busy(s, k)
  {
  }

  lemma RenewExactly<K(!new), V(!new)>(s: Cache<K, V>, t: nat, k: K)
    requires LocksAgree(s) && t !in s.tasks && k in s.entries.vals && s.entries.vals[k].Cached?
    ensures LocksAgree(NewPlaceholder(s.(currsize := s.currsize - 1), t, k)) <==> !Busy(s, k)
  {
    hide LocksAgree, Busy, NewPlaceholder;
    var less := s.(currsize := s.currsize - 1);
    CounterFrame(s, s.currsize - 1, s.misses);
    BusyFrame(s, less, k);
    if Busy(s, k) {
      PlaceholderBreaks(less, t, k);
    } else {
      PlaceholderKeeps(less, t, k);
    }
  }

  lemma BeginStoringExactly<K(!new), V(!new)>(c: Settings, s: Cache<K, V>, t: nat, k: K, now: real)
    requires LocksAgree(s) && t !in s.tasks && c.maxsize != Some(0)
    ensures LocksAgree(Begin(c, s, t, k, now)) <==> Harmless(c, s, BeginCall(t, k, now))
  {
    AbsentIsIdle(s, k);
    hide LocksAgree, Busy, NewPlaceholder, MoveToEnd;
    if k !in s.entries.vals {
      PlaceholderKeeps(s, t, k);
    } else if s.entries.vals[k].Pending? {
      JoinKeeps(s, t, k);
    } else if Expired(s.entries.vals[k], now) {
      RenewExactly(s, t, k);
    } else {
      TouchKeeps(s, t, k, s.entries.vals[k].value);
    }
  }

  lemma DirectKeeps<K(!new), V(!new)>(s: Cache<K, V>, t: nat, k: K)
    requires LocksAgree(s) && t !in s.tasks
    ensures LocksAgree(Enter(s, t, Direct(k)))
  {
  }

  lemma BeginExactly<K(!new), V(!new)>(c: Settings, s: Cache<K, V>, t: nat, k: K, now: real)
    requires LocksAgree(s) && t !in s.tasks
    ensures LocksAgree(Begin(c, s, t, k, now)) <==> Harmless(c, s, BeginCall(t, k, now))
  {
    hide LocksAgree;
    if c.maxsize == Some(0) {
      DirectKeeps(s, t, k);
    } else {
      hide Begin, Harmless;
      BeginStoringExactly(c, s, t, k, now);
    }
  }

  lemma BusyFrame<K, V>(s: Cache<K, V>, n: Cache<K, V>, k: K)
    requires n.tasks == s.tasks
    ensures Busy(n, k) <==> Busy(s, k)
  {
  }

  lemma RunKeeps<K(!new), V(!new)>(s: Cache<K, V>, t: nat)
    requires LocksAgree(s) && t in s.tasks && s.tasks[t].Waiting? && LockFree(s, s.tasks[t].lock)
    requires s.entries.vals[s.tasks[t].key].Pending?
    ensures LocksAgree(Enter(s, t, Running(s.tasks[t].key, s.tasks[t].lock)))
  {
  }

  lemma EvictionKeeps<K(!new), V(!new)>(s: Cache<K, V>)
    requires LocksAgree(s) && s.entries.order != [] && !Busy(s, s.entries.order[0])
    ensures LocksAgree(s.(entries := PopFirst(s.entries)))
  {
    PopFirstValid(s.entries);
  }

  lemma EvictionBreaks<K(!new), V(!new)>(s: Cache<K, V>, n: Cache<K, V>, t: nat)
    requires s.entries.order != [] && Busy(s, s.entries.order[0]) && n.entries == PopFirst(s.entries)
    requires t in s.tasks && s.tasks[t].Waiting? && n.tasks == s.tasks[t := Running(s.tasks[t].key, s.tasks[t].lock)]
    ensures !LocksAgree(n)
  {
    var victim := s.entries.order[0];
    var u :| u in s.tasks && (s.tasks[u].Waiting? || s.tasks[u].Running?) && s.tasks[u].key == victim;
    assert n.tasks[u].key == victim && victim !in n.entries.vals;
  }

  lemma EvictingExactly<K(!new), V(!new)>(c: Settings, s: Cache<K, V>, t: nat)
    requires LocksAgree(s) && Evicts(c, s, t) && LockFree(s, s.tasks[t].lock)
    ensures LocksAgree(Acquire(c, s, t)) <==> !Busy(s, s.entries.order[0])
  {
    var victim := s.entries.order[0];
    if Busy(s, victim) {
      hide LocksAgree, Busy;
      EvictionBreaks(s, Acquire(c, s, t), t);
    } else {
      assert victim != s.tasks[t].key;
      hide LocksAgree, Busy;
      CounterFrame(s, s.currsize, s.misses + 1);
      var counted := s.(misses := s.misses + 1);
      BusyFrame(s, counted, victim);
      EvictionKeeps(counted);
      var popped := counted.(entries := PopFirst(s.entries));
      LockFrame(s, popped, s.tasks[t].lock);
      RunKeeps(popped, t);
    }
  }

  lemma LockFrame<K, V>(s: Cache<K, V>, n: Cache<K, V>, lock: nat)
    requires n.tasks == s.tasks && LockFree(s, lock)
    ensures LockFree(n, lock)
  {
  }

  lemma AcquireExactly<K(!new), V(!new)>(c: Settings, s: Cache<K, V>, t: nat)
    requires LocksAgree(s) && t in s.tasks && s.tasks[t].Waiting? && LockFree(s, s.tasks[t].lock)
    ensures LocksAgree(Acquire(c, s, t)) <==> Harmless(c, s, LockAcquired(t))
  {
    var k := s.tasks[t].key;
    assert k in s.entries.vals && k in s.entries.order;
    hide LocksAgree, Busy, LockFree;
    if s.entries.vals[k].Cached? {
      TouchKeeps(s, t, k, s.entries.vals[k].value);
    } else if !Full(c, s) {
      var counted := s.(currsize := s.currsize + 1, misses := s.misses + 1);
      CounterFrame(s, s.currsize + 1, s.misses + 1);
      LockFrame(s, counted, s.tasks[t].lock);
      RunKeeps(counted, t);
    } else {
      EvictingExactly(c, s, t);
    }
  }

  // With any maxsize and any ttl, a step keeps tasks and placeholders in agreement if and only if it
  // touches no busy key's entry in these two ways.  CacheFlights says what that means for runs.
  lemma StepKeepsLocksExactly<K(!new), V(!new)>(c: Settings, r: Run<K, V>, e: Event<K, V>)
    requires LocksAgree(r.s) && Enabled(r, e)
    ensures LocksAgree(Next(c, r, e).s) <==> Harmless(c, r.s, e)
  {
    hide Begin, Acquire, Busy;
    match e
    case BeginCall(t, k, now) => BeginExactly(c, r.s, t, k, now);
    case LockAcquired(t) => AcquireExactly(c, r.s, t);
    case WrappedReturned(t, v, now) => ReturnKeepsLocks(c, r.s, t, v, now);
    case WrappedRaised(t) => AbandonKeepsLocks(r.s, t);
    case WaitCancelled(t) => AbandonKeepsLocks(r.s, t);
  }

  lemma AfterStep<K, V>(c: Settings, events: seq<Event<K, V>>, e: Event<K, V>)
    requires Enabled(After(c, events), e)
    ensures After(c, events + [e]) == Next(c, After(c, events), e)
  {
    assert (events + [e])[..|events|] == events;
  }

  // A bounded cache can compute one key twice at once: key 2's call evicts the placeholder that key
  // 1's call is still working for.
  lemma EvictionSetup(c: Settings) returns (events: seq<Event<int, int>>)
    requires c == Settings(Some(1), None)
    ensures var s := After(c, events).s;
            && s.tasks == map[1 := Running(1, 0), 2 := Waiting(2, 1)] && s.currsize == 1 && s.nextLock == 2
            && s.entries == OD([1, 2], map[1 := Pending(0), 2 := Pending(1)])
  {
    var e1, e2, e3 := BeginCall(1, 1, 0.0), LockAcquired(1), BeginCall(2, 2, 0.0);
    AfterStep(c, [], e1);
    assert [] + [e1] == [e1];
    AfterStep(c, [e1], e2);
    AfterStep(c, [e1] + [e2], e3);
    events := [e1] + [e2] + [e3];
  }

  lemma EvictionRunsTwice() returns (events: seq<Event<int, int>>)
    ensures !OneFlightPerKey(After(Settings(Some(1), None), events).s)
  {
    var c := Settings(Some(1), None);
    var s3 := EvictionSetup(c);
    hide After;
    var e4, e5, e6 := LockAcquired(2), BeginCall(3, 1, 0.0), LockAcquired(3);
    AfterStep(c, s3, e4);
    AfterStep(c, s3 + [e4], e5);
    AfterStep(c, s3 + [e4] + [e5], e6);
    events := s3 + [e4] + [e5] + [e6];
    var r := After(c, events).s;
    assert r.tasks[1] == Running(1, 0) && r.tasks[3].Running? && r.tasks[3].key == 1;
  }

  // And when the working call then fails, one that waited for it meets a KeyError.
  lemma EvictionLosesKey() returns (events: seq<Event<int, int>>)
    ensures var s := After(Settings(Some(1), None), events).s; 3 in s.tasks && s.tasks[3] == KeyLost(1)
  {
    var c := Settings(Some(1), None);
    var s3 := EvictionSetup(c);
    hide After;
    var e4, e5, e6, e7 := BeginCall(3, 1, 0.0), LockAcquired(2), WrappedRaised(1), LockAcquired(3);
    AfterStep(c, s3, e4);
    AfterStep(c, s3 + [e4], e5);
    AfterStep(c, s3 + [e4] + [e5], e6);
    AfterStep(c, s3 + [e4] + [e5] + [e6], e7);
    events := s3 + [e4] + [e5] + [e6] + [e7];
  }

  // So can one with a ttl: a waiter on the old lock and the holder of a renewed one.
  lemma ExpirySetup(c: Settings) returns (events: seq<Event<int, int>>)
    requires c == Settings(None, Some(1.0))
    ensures var s := After(c, events).s;
            && s.tasks == map[1 := Returned(1, 7), 2 := Waiting(1, 0)] && s.nextLock == 1
            && s.entries == OD([1], map[1 := Cached(7, Some(1.0))])
  {
    var e1, e2, e3, e4 := BeginCall(1, 1, 0.0), LockAcquired(1), BeginCall(2, 1, 0.0), WrappedReturned(1, 7, 0.0);
    AfterStep(c, [], e1);
    assert [] + [e1] == [e1];
    AfterStep(c, [e1], e2);
    AfterStep(c, [e1] + [e2], e3);
    AfterStep(c, [e1] + [e2] + [e3], e4);
    events := [e1] + [e2] + [e3] + [e4];
  }

  lemma ExpiryRunsTwice() returns (events: seq<Event<int, int>>)
    ensures !OneFlightPerKey(After(Settings(None, Some(1.0)), events).s)
  {
    var c := Settings(None, Some(1.0));
    var s4 := ExpirySetup(c);
    hide After;
    var e5, e6, e7 := BeginCall(3, 1, 5.0), LockAcquired(3), LockAcquired(2);
    AfterStep(c, s4, e5);
    AfterStep(c, s4 + [e5], e6);
    AfterStep(c, s4 + [e5] + [e6], e7);
    events := s4 + [e5] + [e6] + [e7];
    var r := After(c, events).s;
    assert r.tasks[2].Running? && r.tasks[3].Running?;
  }
}
