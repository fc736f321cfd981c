/** One call after the other: the bounded, expiring cache is a recency list, and agrees with the
    function it caches. */
module CacheRecency {
  import opened CliValues
  import opened Subsequences
  import opened OrderedDict
  import opened AsyncCache

  // ---------------------------------------------------------------- the recency list

  datatype Rec<K, V> = Rec(key: K, value: V, expires: Option<real>)

  function IndexOf<K(==), V>(list: seq<Rec<K, V>>, k: K): (i: nat)
    ensures i <= |list|
    ensures i < |list| ==> list[i].key == k
  {
    if list == [] || list[0].key == k then 0 else 1 + IndexOf(list[1..], k)
  }

  // Nothing before the index found has the key.
  lemma {:induction false} FirstIndex<K, V>(list: seq<Rec<K, V>>, k: K, j: nat)
    requires j < IndexOf(list, k)
    ensures list[j].key != k
  {
    if j > 0 {
      FirstIndex(list[1..], k, j - 1);
    }
  }

  predicate Stale<K, V>(r: Rec<K, V>, now: real) {
    r.expires.Some? && now >= r.expires.value
  }

  datatype Answer<K, V> = Answer(list: seq<Rec<K, V>>, hit: bool, value: V)

  // A call at `now` for key k, whose value is v if it has to be computed, which is done at `done`:
  // a live record moves to the end, a stale one is renewed in its place, and a new one is appended,
  // at the cost of the first if there are too many.
  function Look<K(==), V>(c: Settings, list: seq<Rec<K, V>>, k: K, v: V, now: real, done: real): Answer<K, V> {
    var i, latest := IndexOf(list, k), Rec(k, v, if c.ttl.Some? then Some(done + c.ttl.value) else None);
    if i == |list| then
      Answer(if c.maxsize.Some? && |list| >= c.maxsize.value then (list + [latest])[1..] else list + [latest], false, v)
    else if Stale(list[i], now) then Answer(list[i := latest], false, v)
    else Answer(list[..i] + list[i + 1..] + [list[i]], true, list[i].value)
  }

  // ---------------------------------------------------------------- a call without interruption

  // The steps of one call with nothing in between; the wrapped call's outcome is None if it raises.
  function Call<K(==), V>(c: Settings, s: Cache<K, V>, t: nat, k: K, outcome: Option<V>, now: real, done: real): Cache<K, V> {
    var b := Begin(c, s, t, k, now);
    if b.tasks[t].Waiting? then
      var a := Acquire(c, b, t);
      if a.tasks[t].Running? then Finish(c, a, t, outcome, done) else a
    else if b.tasks[t].Direct? then Finish(c, b, t, outcome, done)
    else b
  }

  function Finish<K(==), V>(c: Settings, s: Cache<K, V>, t: nat, outcome: Option<V>, done: real): Cache<K, V>
    requires t in s.tasks && (s.tasks[t].Running? || s.tasks[t].Direct?)
  {
    if outcome.Some? then Complete(c, s, t, outcome.value, done) else Abandon(s, t)
  }

  // Only values are stored.
  ghost predicate AllCached<K, V>(d: OD<K, Entry<V>>) {
    OrderedDict.Valid(d) && forall k :: k in d.order ==> d.vals[k].Cached?
  }

  // Between calls of which none has failed: only values are stored, and currsize counts them.
  ghost predicate Settled<K, V>(c: Settings, s: Cache<K, V>) {
    && AllCached(s.entries)
    && s.currsize == |s.entries.order|
    && (c.maxsize.Some? ==> s.currsize <= c.maxsize.value)
  }

  ghost predicate HasValues<K, V>(keys: seq<K>, vals: map<K, Entry<V>>) {
    forall k :: k in keys ==> k in vals && vals[k].Cached?
  }

  ghost function ToRecs<K, V>(keys: seq<K>, vals: map<K, Entry<V>>): (list: seq<Rec<K, V>>)
    requires HasValues(keys, vals)
    ensures |list| == |keys|
    ensures forall i :: 0 <= i < |list| ==> list[i] == Rec(keys[i], vals[keys[i]].value, vals[keys[i]].expires)
  {
    seq(|keys|, i requires 0 <= i < |keys| => Rec(keys[i], vals[keys[i]].value, vals[keys[i]].expires))
  }

  ghost function Records<K, V>(d: OD<K, Entry<V>>): (list: seq<Rec<K, V>>)
    requires AllCached(d)
    ensures |list| == |d.order|
  {
    ToRecs(d.order, d.vals)
  }

  lemma FoundAt<K, V>(d: OD<K, Entry<V>>, k: K)
    requires AllCached(d)
    ensures var i := IndexOf(Records(d), k);
            if k in d.vals then i < |d.order| && d.order[i] == k else i == |d.order|
  {
    if k in d.vals {
      var j :| 0 <= j < |d.order| && d.order[j] == k;
      if j < IndexOf(Records(d), k) {
        FirstIndex(Records(d), k, j);
      }
    }
  }

  function ToRec<K, V>(k: K, e: Entry<V>): Rec<K, V>
    requires e.Cached?
  {
    Rec(k, e.value, e.expires)
  }

  lemma RecordsPutNew<K, V>(d: OD<K, Entry<V>>, k: K, e: Entry<V>)
    requires AllCached(d) && k !in d.vals && e.Cached?
    ensures AllCached(Put(d, k, e)) && Records(Put(d, k, e)) == Records(d) + [ToRec(k, e)]
  {
    PutValid(d, k, e);
  }

  lemma RecordsPop<K, V>(d: OD<K, Entry<V>>)
    requires AllCached(d) && d.order != []
    ensures AllCached(PopFirst(d)) && Records(PopFirst(d)) == Records(d)[1..]
  {
    PopFirstValid(d);
  }

  lemma RecordsMove<K, V>(d: OD<K, Entry<V>>, i: nat)
    requires AllCached(d) && i < |d.order|
    ensures var list, n := Records(d), MoveToEnd(d, d.order[i]);
            AllCached(n) && Records(n) == list[..i] + list[i + 1..] + [list[i]] && |n.order| == |d.order|
  {
    MoveToEndValid(d, d.order[i]);
    WithoutAt(d.order, i);
    MoveRecs(d.order, d.vals, i);
  }

  lemma MoveRecs<K, V>(keys: seq<K>, vals: map<K, Entry<V>>, i: nat)
    requires HasValues(keys, vals) && i < |keys|
    ensures HasValues(keys[..i] + keys[i + 1..] + [keys[i]], vals)
    ensures var list := ToRecs(keys, vals);
            ToRecs(keys[..i] + keys[i + 1..] + [keys[i]], vals) == list[..i] + list[i + 1..] + [list[i]]
  {
    var n, list := |keys|, ToRecs(keys, vals);
    assert keys[0..i] == keys[..i] && keys[i + 1..n] == keys[i + 1..] && keys[i..i + 1] == [keys[i]];
    assert list[0..i] == list[..i] && list[i + 1..n] == list[i + 1..] && list[i..i + 1] == [list[i]];
    hide ToRecs, HasValues;
  }

  lemma PutTwice<K, V>(d: OD<K, Entry<V>>, k: K, p: Entry<V>, e: Entry<V>)
    ensures Put(Put(d, k, p), k, e) == Put(d, k, e)
    ensures d.order != [] && d.order[0] != k ==> Put(PopFirst(Put(d, k, p)), k, e) == PopFirst(Put(d, k, e))
  {
    if d.order != [] && d.order[0] != k {
      var a, b := Put(PopFirst(Put(d, k, p)), k, e), PopFirst(Put(d, k, e));
      assert a.vals == b.vals;
    }
  }

  function EntryAt<V>(c: Settings, v: V, done: real): (e: Entry<V>)
    ensures e == Cached(v, if c.ttl.Some? then Some(done + c.ttl.value) else None)
  {
    Cached(v, if c.ttl.Some? then Some(done + c.ttl.value) else None)
  }

  // What the steps of a lone call add up to when the value is computed: the placeholder has left no trace.
  lemma ComputeAlone<K, V>(c: Settings, s: Cache<K, V>, t: nat, k: K, v: V, now: real, done: real)
    requires Settled(c, s) && c.maxsize != Some(0) && (k !in s.entries.vals || Expired(s.entries.vals[k], now))
    ensures var n, placed := Call(c, s, t, k, Some(v), now, done), Put(s.entries, k, EntryAt(c, v, done));
            var evicts := k !in s.entries.vals && Full(c, s);
            && placed.order != []
            && n.entries == (if evicts then PopFirst(placed) else placed)
            && n.currsize == |n.entries.order|
            && n.tasks == s.tasks[t := Returned(k, v)] && n.hits == s.hits && n.misses == s.misses + 1
  {
    var p := Pending(s.nextLock);
    PutTwice(s.entries, k, p, EntryAt(c, v, done));
    assert k in s.entries.vals ==> s.entries.order != [] by { if k in s.entries.vals { assert k in s.entries.order; } }
    var b := Begin(c, s, t, k, now);
    assert b.tasks[t] == Waiting(k, s.nextLock) && b.entries == Put(s.entries, k, p);
    assert Full(c, b) <==> Full(c, s) && k !in s.entries.vals;
    var a := Acquire(c, b, t);
    assert a.tasks[t] == Running(k, s.nextLock);
    if Full(c, b) {
      assert s.entries.order[0] in s.entries.order;
    }
    var n := Complete(c, a, t, v, done);
    assert n.tasks == s.tasks[t := Returned(k, v)];
  }

  // The call leaves state n, which is settled and shows the given answer.
  ghost predicate Shows<K, V>(c: Settings, s: Cache<K, V>, n: Cache<K, V>, t: nat, k: K, answer: Answer<K, V>) {
    && Settled(c, n) && Records(n.entries) == answer.list
    && n.tasks == s.tasks[t := Returned(k, answer.value)]
    && n.hits == s.hits + (if answer.hit then 1 else 0)
    && n.misses == s.misses + (if answer.hit then 0 else 1)
  }

  // A new key, at the cost of the first one in a full cache.
  lemma InsertRefines<K, V>(c: Settings, s: Cache<K, V>, t: nat, k: K, v: V, now: real, done: real)
    requires Settled(c, s) && k !in s.entries.vals && c.maxsize != Some(0)
    ensures Shows(c, s, Call(c, s, t, k, Some(v), now, done), t, k, Look(c, Records(s.entries), k, v, now, done))
  {
    ComputeAlone(c, s, t, k, v, now, done);
    var e := EntryAt(c, v, done);
    RecordsPutNew(s.entries, k, e);
    if Full(c, s) {
      RecordsPop(Put(s.entries, k, e));
    }
    hide Call, Look, Put, PopFirst, AllCached, Records, EntryAt, IndexOf;
  }

  // An expired key: same place, new value.
  lemma RenewRefines<K, V>(c: Settings, s: Cache<K, V>, t: nat, k: K, v: V, now: real, done: real)
    requires Settled(c, s) && k in s.entries.vals && Expired(s.entries.vals[k], now) && c.maxsize != Some(0)
    ensures Shows(c, s, Call(c, s, t, k, Some(v), now, done), t, k, Look(c, Records(s.entries), k, v, now, done))
  {
    ComputeAlone(c, s, t, k, v, now, done);
    FoundAt(s.entries, k);
    assert k in s.entries.order;
    hide Call, AllCached;
  }

  lemma HitAlone<K, V>(c: Settings, s: Cache<K, V>, t: nat, k: K, v: V, now: real, done: real)
    requires c.maxsize != Some(0) && k in s.entries.vals && s.entries.vals[k].Cached? && !Expired(s.entries.vals[k], now)
    ensures Call(c, s, t, k, Some(v), now, done) ==
              s.(hits := s.hits + 1, entries := MoveToEnd(s.entries, k), tasks := s.tasks[t := Returned(k, s.entries.vals[k].value)])
  {
  }

  // A live key: moved to the end.
  lemma HitRefines<K, V>(c: Settings, s: Cache<K, V>, t: nat, k: K, v: V, now: real, done: real)
    requires Settled(c, s) && k in s.entries.vals && !Expired(s.entries.vals[k], now) && c.maxsize != Some(0)
    ensures Shows(c, s, Call(c, s, t, k, Some(v), now, done), t, k, Look(c, Records(s.entries), k, v, now, done))
  {
    hide MoveToEnd, AllCached, Call, Look, IndexOf, Records, Expired;
    FoundAt(s.entries, k);
    LookLive(c, s.entries, k, v, now, done);
    RecordsMove(s.entries, IndexOf(Records(s.entries), k));
    HitAlone(c, s, t, k, v, now, done);
  }

  lemma LookLive<K, V>(c: Settings, d: OD<K, Entry<V>>, k: K, v: V, now: real, done: real)
    requires AllCached(d) && k in d.vals && !Expired(d.vals[k], now)
    ensures var list, i := Records(d), IndexOf(Records(d), k);
            && i < |list| && d.vals[k].Cached?
            && Look(c, list, k, v, now, done) == Answer(list[..i] + list[i + 1..] + [list[i]], true, d.vals[k].value)
  {
    FoundAt(d, k);
    assert k in d.order;
  }

  // Main result: a call that runs alone and does not fail does to the entries exactly what the
  // recency list prescribes, returns its answer, and counts one hit or one miss.
  lemma CallRefines<K, V>(c: Settings, s: Cache<K, V>, t: nat, k: K, v: V, now: real, done: real)
    requires Settled(c, s)
    ensures Shows(c, s, Call(c, s, t, k, Some(v), now, done), t, k, Look(c, Records(s.entries), k, v, now, done))
  {
    if c.maxsize == Some(0) {
      assert Records(s.entries) == [];
    } else if k !in s.entries.vals {
      InsertRefines(c, s, t, k, v, now, done);
    } else if Expired(s.entries.vals[k], now) {
      RenewRefines(c, s, t, k, v, now, done);
    } else {
      HitRefines(c, s, t, k, v, now, done);
    }
  }

  // ---------------------------------------------------------------- whole runs, with a pure function

  datatype Request<K> = Request(k: K, now: real, done: real)

  /** The cache after some requests, and when each key was last touched: inserted, or hit. */
  datatype History<K, V> = History(s: Cache<K, V>, touched: map<K, nat>)

  // Request number i is made by task i; f is the wrapped function.
  function Serve<K(==), V>(c: Settings, f: K -> V, requests: seq<Request<K>>): History<K, V> {
    if requests == [] then History(Fresh(), map[])
    else
      var n := |requests| - 1;
      var h, q := Serve(c, f, requests[..n]), requests[n];
      var renewal := q.k in h.s.entries.vals && Expired(h.s.entries.vals[q.k], q.now);
      History(Call(c, h.s, n, q.k, Some(f(q.k)), q.now, q.done), if renewal then h.touched else h.touched[q.k := n])
  }

  ghost predicate Honest<K, V>(f: K -> V, list: seq<Rec<K, V>>) {
    forall r :: r in list ==> r.value == f(r.key)
  }

  // The list is ordered by last touch: the first record is the one least recently touched.
  ghost predicate ByRecency<K, V>(list: seq<Rec<K, V>>, touched: map<K, nat>, n: nat) {
    Increasing(Keys(list), touched, n)
  }

  function Keys<K, V>(list: seq<Rec<K, V>>): (keys: seq<K>)
    ensures |keys| == |list|
  {
    seq(|list|, i requires 0 <= i < |list| => list[i].key)
  }

  ghost predicate Increasing<K>(keys: seq<K>, touched: map<K, nat>, n: nat) {
    && (forall i :: 0 <= i < |keys| ==> keys[i] in touched && touched[keys[i]] < n)
    && (forall i, j :: 0 <= i < j < |keys| ==> touched[keys[i]] < touched[keys[j]])
  }

  lemma LookHonest<K, V>(c: Settings, f: K -> V, list: seq<Rec<K, V>>, k: K, now: real, done: real)
    requires Honest(f, list)
    ensures var a := Look(c, list, k, f(k), now, done); Honest(f, a.list) && a.value == f(k)
  {
    var i := IndexOf(list, k);
    if i < |list| {
      assert list[i] in list;
    }
  }

  lemma KeysPiece<K, V>(list: seq<Rec<K, V>>, i: nat, j: nat)
    requires i <= j <= |list|
    ensures Keys(list[i..j]) == Keys(list)[i..j]
  {
  }

  lemma KeysMoved<K, V>(list: seq<Rec<K, V>>, i: nat)
    requires i < |list|
    ensures Keys(list[..i] + list[i + 1..] + [list[i]]) == Keys(list)[..i] + Keys(list)[i + 1..] + [list[i].key]
  {
    var n, keys := |list|, Keys(list);
    KeysPiece(list, 0, i);
    KeysPiece(list, i + 1, n);
    assert list[0..i] == list[..i] && list[i + 1..n] == list[i + 1..];
    assert keys[0..i] == keys[..i] && keys[i + 1..n] == keys[i + 1..];
    assert Keys([list[i]]) == [list[i].key];
  }

  lemma KeysAppended<K, V>(list: seq<Rec<K, V>>, r: Rec<K, V>)
    ensures Keys(list + [r]) == Keys(list) + [r.key]
    ensures Keys((list + [r])[1..]) == (Keys(list) + [r.key])[1..]
  {
    assert Keys([r]) == [r.key];
    var n := |list| + 1;
    KeysPiece(list + [r], 1, n);
    assert (list + [r])[1..n] == (list + [r])[1..] && (Keys(list) + [r.key])[1..n] == (Keys(list) + [r.key])[1..];
  }

  lemma KeysReplaced<K, V>(list: seq<Rec<K, V>>, i: nat, r: Rec<K, V>)
    requires i < |list| && list[i].key == r.key
    ensures Keys(list[i := r]) == Keys(list)
  {
  }

  lemma NotIndexed<K, V>(list: seq<Rec<K, V>>, k: K)
    requires IndexOf(list, k) == |list|
    ensures k !in Keys(list)
  {
    forall i | 0 <= i < |list| ensures list[i].key != k {
      FirstIndex(list, k, i);
    }
  }

  // What a look does to the keys.
  function KeysAfter<K>(keys: seq<K>, i: nat, k: K, full: bool, renewal: bool): seq<K>
    requires i <= |keys|
  {
    if i == |keys| then (if full then (keys + [k])[1..] else keys + [k])
    else if renewal then keys
    else keys[..i] + keys[i + 1..] + [k]
  }

  lemma LookKeys<K, V>(c: Settings, list: seq<Rec<K, V>>, k: K, v: V, now: real, done: real)
    ensures var i := IndexOf(list, k);
            Keys(Look(c, list, k, v, now, done).list) ==
              KeysAfter(Keys(list), i, k, c.maxsize.Some? && |list| >= c.maxsize.value, i < |list| && Stale(list[i], now))
  {
    hide IndexOf, Stale;
    var i, latest := IndexOf(list, k), Rec(k, v, if c.ttl.Some? then Some(done + c.ttl.value) else None);
    if i == |list| {
      KeysAppended(list, latest);
    } else {
      KeysReplaced(list, i, latest);
      KeysMoved(list, i);
    }
  }

  lemma IncreasingAfter<K>(keys: seq<K>, touched: map<K, nat>, n: nat, i: nat, k: K, full: bool, renewal: bool)
    requires Increasing(keys, touched, n) && i <= |keys| && if i < |keys| then keys[i] == k else k !in keys
    ensures Increasing(KeysAfter(keys, i, k, full, renewal), if i < |keys| && renewal then touched else touched[k := n], n + 1)
  {
    if i == |keys| {
    } else if renewal {
      IncreasingLater(keys, touched, n);
    } else {
    }
  }

  lemma LookByRecency<K, V>(c: Settings, list: seq<Rec<K, V>>, touched: map<K, nat>, n: nat, k: K, v: V, now: real, done: real)
    requires ByRecency(list, touched, n)
    ensures var i := IndexOf(list, k);
            var renewal := i < |list| && Stale(list[i], now);
            ByRecency(Look(c, list, k, v, now, done).list, if renewal then touched else touched[k := n], n + 1)
  {
    hide IndexOf, Stale, Keys, KeysAfter, Increasing, Look;
    var i := IndexOf(list, k);
    LookKeys(c, list, k, v, now, done);
    IndexedKey(list, k);
    IncreasingAfter(Keys(list), touched, n, i, k, c.maxsize.Some? && |list| >= c.maxsize.value, i < |list| && Stale(list[i], now));
  }

  lemma IndexedKey<K, V>(list: seq<Rec<K, V>>, k: K)
    ensures var i := IndexOf(list, k); if i < |list| then Keys(list)[i] == k else k !in Keys(list)
  {
    if IndexOf(list, k) == |list| {
      NotIndexed(list, k);
    }
  }

  lemma IncreasingLater<K>(keys: seq<K>, touched: map<K, nat>, n: nat)
    requires Increasing(keys, touched, n)
    ensures Increasing(keys, touched, n + 1)
  {
  }

  // In a full cache a new key drives out exactly the record that was touched longest ago.
  lemma VictimIsOldest<K, V>(c: Settings, list: seq<Rec<K, V>>, touched: map<K, nat>, n: nat, k: K, v: V, now: real, done: real)
    requires ByRecency(list, touched, n) && IndexOf(list, k) == |list| && c.maxsize.Some? && |list| == c.maxsize.value > 0
    ensures var before, after := Keys(list), Keys(Look(c, list, k, v, now, done).list);
            && after == before[1..] + [k] && before[0] !in after
            && forall j :: 0 < j < |before| ==> before[0] in touched && before[j] in touched && touched[before[0]] < touched[before[j]]
  {
    var before := Keys(list);
    KeysAppended(list, Rec(k, v, if c.ttl.Some? then Some(done + c.ttl.value) else None));
    ConcatTail(before, [k]);
    NotIndexed(list, k);
  }

  ghost predicate Answered<K, V>(f: K -> V, requests: seq<Request<K>>, tasks: map<nat, Phase<K, V>>) {
    forall i :: 0 <= i < |requests| ==> i in tasks && tasks[i] == Returned(requests[i].k, f(requests[i].k))
  }

  ghost predicate Served<K, V>(c: Settings, f: K -> V, requests: seq<Request<K>>, h: History<K, V>) {
    && Settled(c, h.s) && Honest(f, Records(h.s.entries)) && ByRecency(Records(h.s.entries), h.touched, |requests|)
    && h.s.hits + h.s.misses == |requests|
    && Answered(f, requests, h.s.tasks)
  }

  // Main result: whatever calls are made one after the other, at whatever times, each returns what the
  // wrapped function would; the entries are counted by currsize, never exceed maxsize and stand in the
  // order of their last touch; and every call is counted as one hit or one miss.
  lemma {:induction false} ServeAgrees<K, V>(c: Settings, f: K -> V, requests: seq<Request<K>>)
    ensures Served(c, f, requests, Serve(c, f, requests))
    decreases |requests|
  {
    hide Call;
    if requests == [] {
      assert Records<K, V>(Empty()) == [];
    } else {
      var n := |requests| - 1;
      ServeAgrees(c, f, requests[..n]);
      ServeStep(c, f, requests[..n], requests[n], Serve(c, f, requests[..n]));
      hide Served;
      assert requests[..n] + [requests[n]] == requests;
    }
  }

  lemma ServeStep<K, V>(c: Settings, f: K -> V, requests: seq<Request<K>>, q: Request<K>, h: History<K, V>)
    requires Served(c, f, requests, h)
    ensures var renewal := q.k in h.s.entries.vals && Expired(h.s.entries.vals[q.k], q.now);
            var n := Call(c, h.s, |requests|, q.k, Some(f(q.k)), q.now, q.done);
            Served(c, f, requests + [q], History(n, if renewal then h.touched else h.touched[q.k := |requests|]))
  {
    hide Honest, ByRecency, Look, Call, Records, IndexOf, Expired, Stale, AllCached;
    var list := Records(h.s.entries);
    StaleIsExpired(h.s.entries, q.k, q.now);
    CallRefines(c, h.s, |requests|, q.k, f(q.k), q.now, q.done);
    LookHonest(c, f, list, q.k, q.now, q.done);
    LookByRecency(c, list, h.touched, |requests|, q.k, f(q.k), q.now, q.done);
    AnsweredStep(f, requests, q, h.s.tasks);
    hide Answered;
  }

  lemma AnsweredStep<K, V>(f: K -> V, requests: seq<Request<K>>, q: Request<K>, tasks: map<nat, Phase<K, V>>)
    requires Answered(f, requests, tasks)
    ensures Answered(f, requests + [q], tasks[|requests| := Returned(q.k, f(q.k))])
  {
  }

  lemma StaleIsExpired<K, V>(d: OD<K, Entry<V>>, k: K, now: real)
    requires AllCached(d)
    ensures var i := IndexOf(Records(d), k);
            (i < |d.order| && Stale(Records(d)[i], now)) <==> (k in d.vals && Expired(d.vals[k], now))
  {
    FoundAt(d, k);
  }

  // ---------------------------------------------------------------- size accounting, also with failures

  ghost predicate Counted<K, V>(s: Cache<K, V>) {
    OrderedDict.Valid(s.entries) && s.currsize == |s.entries.order|
  }

  // The call meets a placeholder that an earlier, failed call left behind, and does not happen to
  // evict and then restore that very placeholder.
  ghost predicate MeetsLeftover<K, V>(c: Settings, s: Cache<K, V>, k: K, outcome: Option<V>) {
    && k in s.entries.vals && s.entries.vals[k].Pending?
    && !(Full(c, s) && s.entries.order != [] && s.entries.order[0] == k && outcome.Some?)
  }

  // Main result: when calls may fail, currsize goes on counting the entries if and only if the call
  // does not meet a leftover placeholder.
  lemma SizeExactly<K, V>(c: Settings, s: Cache<K, V>, t: nat, k: K, outcome: Option<V>, now: real, done: real)
    requires Counted(s) && c.maxsize != Some(0) && (c.maxsize.Some? ==> s.currsize <= c.maxsize.value)
    ensures Counted(Call(c, s, t, k, outcome, now, done)) <==> !MeetsLeftover(c, s, k, outcome)
  {
    assert k in s.entries.vals ==> k in s.entries.order;
    if k in s.entries.vals && s.entries.vals[k].Pending? {
      LeftoverSizes(c, s, t, k, outcome, now, done);
    } else if k in s.entries.vals && !Expired(s.entries.vals[k], now) {
      MoveToEndValid(s.entries, k);
      MoveToEndLength(s.entries, k);
    } else {
      ComputeSizes(c, s, t, k, outcome, now, done);
    }
  }

  lemma MoveToEndLength<K, V>(d: OD<K, V>, k: K)
    requires OrderedDict.Valid(d) && k in d.vals
    ensures |MoveToEnd(d, k).order| == |d.order|
  {
    var i :| 0 <= i < |d.order| && d.order[i] == k;
    WithoutAt(d.order, i);
  }

  // Over a leftover placeholder: the entry is there already, but is counted again, or another one is evicted.
  lemma LeftoverSizes<K, V>(c: Settings, s: Cache<K, V>, t: nat, k: K, outcome: Option<V>, now: real, done: real)
    requires Counted(s) && c.maxsize != Some(0) && k in s.entries.vals && s.entries.vals[k].Pending?
    ensures Counted(Call(c, s, t, k, outcome, now, done)) <==>
              Full(c, s) && s.entries.order != [] && s.entries.order[0] == k && outcome.Some?
  {
    assert k in s.entries.order;
    var b := Begin(c, s, t, k, now);
    var a := Acquire(c, b, t);
    assert a.tasks[t].Running?;
    PopFirstValid(s.entries);
    if outcome.Some? {
      PutValid(a.entries, k, EntryAt(c, outcome.value, done));
    }
  }

  // A new or expired key: one entry more or one entry replaced, and counted so.
  lemma BeginSizes<K, V>(c: Settings, s: Cache<K, V>, t: nat, k: K, now: real)
    requires Counted(s) && c.maxsize != Some(0) && (c.maxsize.Some? ==> s.currsize <= c.maxsize.value)
    requires k !in s.entries.vals || Expired(s.entries.vals[k], now)
    ensures var b := Begin(c, s, t, k, now);
            && b.tasks[t].Waiting? && b.tasks[t].key == k && OrderedDict.Valid(b.entries) && b.entries.order != []
            && k in b.entries.vals && b.entries.vals[k].Pending? && |b.entries.order| == b.currsize + 1
            && (Full(c, b) ==> b.entries.order[0] != k)
  {
    PutValid(s.entries, k, Pending(s.nextLock));
    var b := Begin(c, s, t, k, now);
    assert k in b.entries.order;
    if Full(c, b) && k !in s.entries.vals {
      assert b.entries.order[0] == s.entries.order[0];
      assert s.entries.order[0] in s.entries.order;
    }
  }

  lemma ComputeSizes<K, V>(c: Settings, s: Cache<K, V>, t: nat, k: K, outcome: Option<V>, now: real, done: real)
    requires Counted(s) && c.maxsize != Some(0) && (c.maxsize.Some? ==> s.currsize <= c.maxsize.value)
    requires k !in s.entries.vals || Expired(s.entries.vals[k], now)
    ensures Counted(Call(c, s, t, k, outcome, now, done))
  {
    BeginSizes(c, s, t, k, now);
    var b := Begin(c, s, t, k, now);
    hide Begin;
    PopFirstValid(b.entries);
    var a := Acquire(c, b, t);
    if outcome.Some? {
      PutValid(a.entries, k, EntryAt(c, outcome.value, done));
    }
  }

  // A call for a new key that fails and is then made again leaves currsize one too high,
  // except where the cache holds a single entry.
  lemma RetryDriftsExactly<K, V>(c: Settings, s: Cache<K, V>, t: nat, k: K, v: V, now: real, done: real)
    requires Settled(c, s) && k !in s.entries.vals && c.maxsize != Some(0)
    ensures var failed := Call(c, s, t, k, None, now, done);
            var again := Call(c, failed, t, k, Some(v), now, done);
            && failed.tasks[t] == Raised(k) && again.tasks[t] == Returned(k, v)
            && again.currsize == |again.entries.order| + if c.maxsize == Some(1) then 0 else 1
  {
  }
}
