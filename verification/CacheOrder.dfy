/** Which entry a bounded cache evicts while any number of calls are under way: the one touched longest
    ago, counting hits under the lock as well as hits before it. */
module CacheOrder {
  import opened CliValues
  import opened Subsequences
  import opened OrderedDict
  import opened AsyncCache

  // The key whose entry a step touches: it is made, or a value is served from it, before the lock or
  // under it.  Renewing an expired entry and storing a value where one is awaited are no touches.
  ghost function Touched<K, V>(c: Settings, s: Cache<K, V>, e: Event<K, V>): Option<K> {
    match e
    case BeginCall(t, k, now) =>
      if c.maxsize == Some(0) then None
      else if k !in s.entries.vals then Some(k)
      else if s.entries.vals[k].Cached? && !Expired(s.entries.vals[k], now) then Some(k)
      else None
    case LockAcquired(t) =>
      if t in s.tasks && s.tasks[t].Waiting? && s.tasks[t].key in s.entries.vals && s.entries.vals[s.tasks[t].key].Cached?
      then Some(s.tasks[t].key) else None
    case WrappedReturned(t, v, now) =>
      if t in s.tasks && s.tasks[t].Running? && s.tasks[t].key !in s.entries.vals then Some(s.tasks[t].key) else None
    case _ => None
  }

  // The keys touched in a run, in order.
  ghost function Touches<K, V>(c: Settings, events: seq<Event<K, V>>): seq<K> {
    if events == [] then []
    else
      var front, e := events[..|events| - 1], events[|events| - 1];
      var r := After(c, front);
      Touches(c, front) + if Enabled(r, e) && Touched(c, r.s, e).Some? then [Touched(c, r.s, e).value] else []
  }

  // When a key was touched last; -1 if never.
  function LastTouch<K(==)>(touches: seq<K>, k: K): (n: int)
    ensures -1 <= n < |touches|
    ensures n >= 0 ==> touches[n] == k
    ensures forall i :: n < i < |touches| ==> touches[i] != k
    decreases |touches|
  {
    if touches == [] then -1
    else if touches[|touches| - 1] == k then |touches| - 1
    else LastTouch(touches[..|touches| - 1], k)
  }

  // The keys stand in the order of their last touches.
  ghost predicate InOrder<K(!new)>(order: seq<K>, touches: seq<K>) {
    && (forall k :: k in order ==> LastTouch(touches, k) >= 0)
    && (forall i, j :: 0 <= i < j < |order| ==> LastTouch(touches, order[i]) < LastTouch(touches, order[j]))
  }

  ghost predicate Ordered<K(!new), V(!new)>(d: OD<K, V>, touches: seq<K>) {
    OrderedDict.Valid(d) && InOrder(d.order, touches)
  }

  lemma TouchAgain<K>(touches: seq<K>, k: K, x: K)
    ensures LastTouch(touches + [k], x) == if x == k then |touches| else LastTouch(touches, x)
  {
    assert (touches + [k])[..|touches|] == touches;
  }

  // |rest| without k, and then k.
  lemma GoesLast<K(!new)>(rest: seq<K>, k: K, touches: seq<K>)
    requires InOrder(rest, touches) && k !in rest
    ensures InOrder(rest + [k], touches + [k])
  {
    forall x ensures LastTouch(touches + [k], x) == if x == k then |touches| else LastTouch(touches, x) {
      TouchAgain(touches, k, x);
    }
  }

  lemma PutOrdered<K(!new), V(!new)>(d: OD<K, V>, k: K, v: V, touches: seq<K>)
    requires Ordered(d, touches)
    ensures Ordered(Put(d, k, v), if k in d.vals then touches else touches + [k])
  {
    PutValid(d, k, v);
    if k !in d.vals {
      GoesLast(d.order, k, touches);
    }
  }

  lemma WithoutInOrder<K(!new)>(order: seq<K>, i: nat, touches: seq<K>)
    requires NoDup(order) && InOrder(order, touches) && i < |order|
    ensures InOrder(Without(order, order[i]), touches)
  {
    hide LastTouch, NoDup, InOrder;
    WithoutAt(order, i);
    PartInOrder(order, i, touches);
  }

  lemma PartInOrder<K(!new)>(order: seq<K>, i: nat, touches: seq<K>)
    requires InOrder(order, touches) && i < |order|
    ensures InOrder(order[..i] + order[i + 1..], touches)
  {
    hide LastTouch;
    var rest := order[..i] + order[i + 1..];
    forall k | k in rest ensures LastTouch(touches, k) >= 0 {
      assert k in order;
    }
    forall a, b | 0 <= a < b < |rest| ensures LastTouch(touches, rest[a]) < LastTouch(touches, rest[b]) {
      var x, y := if a < i then a else a + 1, if b < i then b else b + 1;
      assert rest[a] == order[x] && rest[b] == order[y];
    }
  }

  lemma MoveOrdered<K(!new), V(!new)>(d: OD<K, V>, k: K, touches: seq<K>)
    requires Ordered(d, touches) && k in d.vals
    ensures Ordered(MoveToEnd(d, k), touches + [k])
  {
    MoveToEndValid(d, k);
    var i :| 0 <= i < |d.order| && d.order[i] == k;
    WithoutInOrder(d.order, i, touches);
    GoesLast(Without(d.order, k), k, touches);
  }

  lemma PopOrdered<K(!new), V(!new)>(d: OD<K, V>, touches: seq<K>)
    requires Ordered(d, touches) && d.order != []
    ensures Ordered(PopFirst(d), touches)
  {
    PopFirstValid(d);
  }

  lemma StepOrdered<K(!new), V(!new)>(c: Settings, r: Run<K, V>, e: Event<K, V>, touches: seq<K>)
    requires Enabled(r, e) && Ordered(r.s.entries, touches)
    ensures Ordered(Next(c, r, e).s.entries, touches + if Touched(c, r.s, e).Some? then [Touched(c, r.s, e).value] else [])
  {
    hide Ordered, Put, PopFirst, MoveToEnd, LockFree;
    var d := r.s.entries;
    assert touches + [] == touches;
    match e
    case BeginCall(t, k, now) =>
      if c.maxsize != Some(0) {
        if k !in d.vals || Expired(d.vals[k], now) {
          PutOrdered(d, k, Pending(r.s.nextLock), touches);
        } else if d.vals[k].Cached? {
          MoveOrdered(d, k, touches);
        }
      }
    case LockAcquired(t) =>
      var k := r.s.tasks[t].key;
      if k in d.vals {
        if d.vals[k].Cached? {
          MoveOrdered(d, k, touches);
        } else if Full(c, r.s) && d.order != [] {
          PopOrdered(d, touches);
        }
      }
    case WrappedReturned(t, v, now) =>
      if r.s.tasks[t].Running? {
        PutOrdered(d, r.s.tasks[t].key, Cached(v, if c.ttl.Some? then Some(now + c.ttl.value) else None), touches);
      }
    case _ =>
  }

  // Main result: in every run, whatever its interleaving, failures and cancellations, and for any
  // maxsize and any ttl, the entries stand in the order in which they were last touched.
  lemma {:induction false} EntriesInOrder<K(!new), V(!new)>(c: Settings, events: seq<Event<K, V>>)
    ensures Ordered(After(c, events).s.entries, Touches(c, events))
  {
    if events == [] {
      FreshOrdered<K, V>();
    } else {
      var front, e := events[..|events| - 1], events[|events| - 1];
      EntriesInOrder(c, front);
      hide Ordered, Next, Touched;
      assert Touches(c, front) + [] == Touches(c, front);
      if Enabled(After(c, front), e) {
        StepOrdered(c, After(c, front), e, Touches(c, front));
      }
    }
  }

  lemma FreshOrdered<K(!new), V(!new)>()
    ensures Ordered(Fresh<K, V>().entries, [])
  {
  }

  // Main result: so an eviction, in any run, removes the one entry that was touched longest ago, and
  // no other step removes any.
  lemma EvictsOldest<K(!new), V(!new)>(c: Settings, events: seq<Event<K, V>>, e: Event<K, V>)
    requires Enabled(After(c, events), e)
    ensures var s, n, touches := After(c, events).s, Next(c, After(c, events), e).s, Touches(c, events);
            if e.LockAcquired? && Evicts(c, s, e.t) then
              exists victim :: victim in s.entries.vals
                && n.entries.vals == s.entries.vals - {victim}
                && forall k :: k in s.entries.vals && k != victim ==> LastTouch(touches, victim) < LastTouch(touches, k)
            else forall k :: k in s.entries.vals ==> k in n.entries.vals
  {
    EntriesInOrder(c, events);
    var s := After(c, events).s;
    hide After, Touches;
    if e.LockAcquired? && Evicts(c, s, e.t) {
      OldestFirst(s.entries, Touches(c, events));
    } else {
      KeepsEntries(c, After(c, events), e);
    }
  }

  lemma OldestFirst<K(!new), V(!new)>(d: OD<K, V>, touches: seq<K>)
    requires Ordered(d, touches) && d.order != []
    ensures d.order[0] in d.vals
    ensures forall k :: k in d.vals && k != d.order[0] ==> LastTouch(touches, d.order[0]) < LastTouch(touches, k)
  {
    forall k | k in d.vals && k != d.order[0] ensures LastTouch(touches, d.order[0]) < LastTouch(touches, k) {
      var i :| 0 <= i < |d.order| && d.order[i] == k;
    }
  }

  lemma KeepsEntries<K, V>(c: Settings, r: Run<K, V>, e: Event<K, V>)
    requires Enabled(r, e) && !(e.LockAcquired? && Evicts(c, r.s, e.t))
    ensures forall k :: k in r.s.entries.vals ==> k in Next(c, r, e).s.entries.vals
  {
    hide Without;
  }
}
