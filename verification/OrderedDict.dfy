/** Python's `collections.OrderedDict`, as far as the cache uses it. */
module OrderedDict {
  import opened Subsequences

  datatype OD<K, V> = OD(order: seq<K>, vals: map<K, V>)

  ghost predicate NoDup<K>(s: seq<K>) {
    forall i, j :: 0 <= i < j < |s| ==> s[i] != s[j]
  }

  ghost predicate Valid<K, V>(d: OD<K, V>) {
    && NoDup(d.order)
    && (forall k :: k in d.order ==> k in d.vals)
    && (forall k :: k in d.vals ==> k in d.order)
  }

  function Empty<K, V>(): OD<K, V> {
    OD([], map[])
  }

  // `d[k] = v`: a new key goes last, a known key keeps its place.
  function Put<K(==), V>(d: OD<K, V>, k: K, v: V): OD<K, V> {
    OD(if k in d.vals then d.order else d.order + [k], d.vals[k := v])
  }

  function Without<K(==)>(s: seq<K>, k: K): (r: seq<K>)
    ensures forall x :: x in r ==> x in s && x != k
    ensures forall x :: x in s && x != k ==> x in r
  {
    if s == [] then [] else if s[0] == k then Without(s[1..], k) else [s[0]] + Without(s[1..], k)
  }

  // `d.move_to_end(k)`.
  function MoveToEnd<K(==), V>(d: OD<K, V>, k: K): OD<K, V>
    requires k in d.vals
  {
    OD(Without(d.order, k) + [k], d.vals)
  }

  // `d.popitem(last=False)`.
  function PopFirst<K(==), V>(d: OD<K, V>): OD<K, V>
    requires d.order != []
  {
    OD(d.order[1..], d.vals - {d.order[0]})
  }

  lemma PutValid<K, V>(d: OD<K, V>, k: K, v: V)
    requires Valid(d)
    ensures Valid(Put(d, k, v))
  {
  }

  lemma {:induction false} WithoutAt<K>(s: seq<K>, i: nat)
    requires NoDup(s) && i < |s|
    ensures Without(s, s[i]) == s[..i] + s[i + 1..]
  {
    if i == 0 {
      WithoutAbsent(s[1..], s[0]);
    } else {
      WithoutAt(s[1..], i - 1);
      assert s[..i] == [s[0]] + s[1..][..i - 1];
      assert s[i + 1..] == s[1..][i..];
      ConcatAssoc([s[0]], s[1..][..i - 1], s[i + 1..]);
    }
  }

  lemma {:induction false} WithoutAbsent<K>(s: seq<K>, k: K)
    requires k !in s
    ensures Without(s, k) == s
  {
    if s != [] {
      WithoutAbsent(s[1..], k);
    }
  }

  lemma {:induction false} WithoutNoDup<K>(s: seq<K>, k: K)
    requires NoDup(s)
    ensures NoDup(Without(s, k))
  {
    if s != [] {
      WithoutNoDup(s[1..], k);
      assert s[0] !in s[1..];
      var rest := Without(s[1..], k);
      assert forall j :: 0 <= j < |rest| ==> rest[j] in rest;
    }
  }

  lemma MoveToEndValid<K, V>(d: OD<K, V>, k: K)
    requires Valid(d) && k in d.vals
    ensures Valid(MoveToEnd(d, k))
  {
    WithoutNoDup(d.order, k);
  }

  lemma PopFirstValid<K, V>(d: OD<K, V>)
    requires Valid(d) && d.order != []
    ensures Valid(PopFirst(d))
  {
    assert d.order == [d.order[0]] + d.order[1..];
  }
}
