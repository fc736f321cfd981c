/** `iter_params_for_processing`: the order in which a command's parameters are processed. */
module ParamOrder {
  import opened OrderedDict

  datatype Param = Param(id: nat, isEager: bool)

  // `invocation_order.index(item)`, with |invocations| for infinity.
  function FirstIndex(s: seq<Param>, p: Param): (i: nat)
    ensures i <= |s|
    ensures i < |s| ==> s[i] == p
    ensures p in s <==> i < |s|
  {
    if s == [] || s[0] == p then 0 else 1 + FirstIndex(s[1..], p)
  }

  // `sort_key(p) <= sort_key(q)`
  predicate KeyLeq(inv: seq<Param>, p: Param, q: Param) {
    if p.isEager == q.isEager then FirstIndex(inv, p) <= FirstIndex(inv, q) else p.isEager
  }

  // Python's `sorted` is stable: an element is placed before those with an equal key that followed it.
  function Insert(inv: seq<Param>, p: Param, s: seq<Param>): seq<Param> {
    if s == [] || KeyLeq(inv, p, s[0]) then [p] + s else [s[0]] + Insert(inv, p, s[1..])
  }

  function Sorted(inv: seq<Param>, decl: seq<Param>): seq<Param> {
    if decl == [] then [] else Insert(inv, decl[0], Sorted(inv, decl[1..]))
  }

  // ---------------------------------------------------------------- the order, declaratively

  function Keep(s: seq<Param>, f: Param -> bool): (r: seq<Param>)
    ensures forall p :: p in r <==> p in s && f(p)
  {
    if s == [] then [] else (if f(s[0]) then [s[0]] else []) + Keep(s[1..], f)
  }

  // The parameters in order of their first invocation.
  function Distinct(inv: seq<Param>): (r: seq<Param>)
    ensures forall p :: p in r <==> p in inv
  {
    if inv == [] then [] else [inv[0]] + Keep(Distinct(inv[1..]), p => p != inv[0])
  }

  // The eager ones come first; among equals, the invoked ones in order of first invocation, and then
  // the others in order of declaration.
  function ProcessingOrder(inv: seq<Param>, decl: seq<Param>): seq<Param> {
    Group(inv, decl, true) + Group(inv, decl, false)
  }

  function Group(inv: seq<Param>, decl: seq<Param>, eager: bool): seq<Param> {
    Invoked(inv, decl, eager) + Uninvoked(inv, decl, eager)
  }

  function Invoked(inv: seq<Param>, decl: seq<Param>, eager: bool): (r: seq<Param>)
    ensures forall p :: p in r <==> p in inv && p in decl && p.isEager == eager
  {
    Keep(Distinct(inv), p => p in decl && p.isEager == eager)
  }

  function Uninvoked(inv: seq<Param>, decl: seq<Param>, eager: bool): (r: seq<Param>)
    ensures forall p :: p in r <==> p !in inv && p in decl && p.isEager == eager
  {
    Keep(decl, p => p !in inv && p.isEager == eager)
  }

  // ---------------------------------------------------------------- they agree

  // A strict order that decides every pair: sort key first, then declaration.
  predicate Before(inv: seq<Param>, decl: seq<Param>, p: Param, q: Param) {
    KeyLeq(inv, p, q) && (KeyLeq(inv, q, p) ==> FirstIndex(decl, p) < FirstIndex(decl, q))
  }

  predicate BeforeAll(inv: seq<Param>, decl: seq<Param>, p: Param, s: seq<Param>) {
    forall q :: q in s ==> Before(inv, decl, p, q)
  }

  predicate InOrder(inv: seq<Param>, decl: seq<Param>, s: seq<Param>) {
    s == [] || (BeforeAll(inv, decl, s[0], s[1..]) && InOrder(inv, decl, s[1..]))
  }

  lemma {:induction false} InsertElements(inv: seq<Param>, p: Param, s: seq<Param>)
    ensures multiset(Insert(inv, p, s)) == multiset(s) + multiset{p}
  {
    if s != [] && !KeyLeq(inv, p, s[0]) {
      InsertElements(inv, p, s[1..]);
      assert s == [s[0]] + s[1..];
    }
  }

  // Main result: nothing is added, dropped or repeated.
  lemma {:induction false} SortedPermutes(inv: seq<Param>, decl: seq<Param>)
    ensures multiset(Sorted(inv, decl)) == multiset(decl)
  {
    if decl != [] {
      SortedPermutes(inv, decl[1..]);
      InsertElements(inv, decl[0], Sorted(inv, decl[1..]));
      assert decl == [decl[0]] + decl[1..];
    }
  }

  predicate SameKey(inv: seq<Param>, p: Param, q: Param) {
    KeyLeq(inv, p, q) && KeyLeq(inv, q, p)
  }

  lemma {:induction false} InsertStable(inv: seq<Param>, p: Param, s: seq<Param>, q: Param)
    ensures Keep(Insert(inv, p, s), x => SameKey(inv, x, q))
         == (if SameKey(inv, p, q) then [p] else []) + Keep(s, x => SameKey(inv, x, q))
  {
    var f := (x: Param) => SameKey(inv, x, q);
    if s == [] || KeyLeq(inv, p, s[0]) {
      assert ([p] + s)[1..] == s;
    } else {
      var r := Insert(inv, p, s[1..]);
      InsertStable(inv, p, s[1..], q);
      assert ([s[0]] + r)[1..] == r && [] + Keep(s[1..], f) == Keep(s[1..], f);
    }
  }

  // Main result: parameters with the same key keep their order, even where a declaration is repeated.
  lemma {:induction false} SortedStable(inv: seq<Param>, decl: seq<Param>, q: Param)
    ensures Keep(Sorted(inv, decl), x => SameKey(inv, x, q)) == Keep(decl, x => SameKey(inv, x, q))
  {
    if decl != [] {
      SortedStable(inv, decl[1..], q);
      InsertStable(inv, decl[0], Sorted(inv, decl[1..]), q);
    }
  }

  lemma SameElements(a: seq<Param>, b: seq<Param>)
    requires multiset(a) == multiset(b)
    ensures forall p :: p in a <==> p in b
  {
    forall p ensures p in a <==> p in b {
      assert p in a <==> p in multiset(a);
      assert p in b <==> p in multiset(b);
    }
  }

  predicate ByKey(inv: seq<Param>, s: seq<Param>) {
    s == [] || ((forall q :: q in s[1..] ==> KeyLeq(inv, s[0], q)) && ByKey(inv, s[1..]))
  }

  lemma {:induction false} InsertByKey(inv: seq<Param>, p: Param, s: seq<Param>)
    requires ByKey(inv, s)
    ensures ByKey(inv, Insert(inv, p, s))
  {
    if s == [] {
      assert [p][1..] == [];
    } else if KeyLeq(inv, p, s[0]) {
      forall q | q in s ensures KeyLeq(inv, p, q) {
        assert q == s[0] || q in s[1..];
      }
      assert ([p] + s)[1..] == s;
    } else {
      var r := Insert(inv, p, s[1..]);
      InsertByKey(inv, p, s[1..]);
      InsertElements(inv, p, s[1..]);
      SameElements(r, s[1..] + [p]);
      forall q | q in r ensures KeyLeq(inv, s[0], q) {
        assert q in s[1..] + [p];
      }
      assert ([s[0]] + r)[1..] == r;
    }
  }

  // Main result: eager parameters precede the others, and an earlier first invocation precedes a later one.
  lemma {:induction false} SortedByKey(inv: seq<Param>, decl: seq<Param>)
    ensures ByKey(inv, Sorted(inv, decl))
  {
    if decl != [] {
      SortedByKey(inv, decl[1..]);
      InsertByKey(inv, decl[0], Sorted(inv, decl[1..]));
    }
  }

  lemma {:induction false} InsertInOrder(inv: seq<Param>, decl: seq<Param>, p: Param, s: seq<Param>)
    requires InOrder(inv, decl, s) && forall q :: q in s ==> FirstIndex(decl, p) < FirstIndex(decl, q)
    ensures InOrder(inv, decl, Insert(inv, p, s))
  {
    if s == [] {
      assert [p][1..] == [];
    } else if KeyLeq(inv, p, s[0]) {
      forall q | q in s ensures Before(inv, decl, p, q) {
        assert q == s[0] || q in s[1..];
      }
      assert ([p] + s)[1..] == s;
    } else {
      var r := Insert(inv, p, s[1..]);
      InsertInOrder(inv, decl, p, s[1..]);
      InsertElements(inv, p, s[1..]);
      SameElements(r, s[1..] + [p]);
      forall q | q in r ensures Before(inv, decl, s[0], q) {
        assert q in s[1..] + [p];
      }
      assert ([s[0]] + r)[1..] == r;
    }
  }

  // Only the relative positions of declarations matter.
  lemma {:induction false} TailOrder(inv: seq<Param>, decl: seq<Param>, s: seq<Param>)
    requires decl != [] && decl[0] !in s && InOrder(inv, decl[1..], s)
    ensures InOrder(inv, decl, s)
  {
    if s != [] {
      TailOrder(inv, decl, s[1..]);
    }
  }

  lemma {:induction false} SortedInOrder(inv: seq<Param>, decl: seq<Param>)
    requires NoDup(decl)
    ensures InOrder(inv, decl, Sorted(inv, decl))
  {
    if decl != [] {
      var rest := Sorted(inv, decl[1..]);
      SortedInOrder(inv, decl[1..]);
      SortedPermutes(inv, decl[1..]);
      SameElements(rest, decl[1..]);
      assert decl[0] !in decl[1..];
      TailOrder(inv, decl, rest);
      InsertInOrder(inv, decl, decl[0], rest);
    }
  }

  // Positions in |ref| rise along |s|.
  predicate Rising(ref: seq<Param>, s: seq<Param>) {
    s == [] || ((forall q :: q in s[1..] ==> FirstIndex(ref, s[0]) < FirstIndex(ref, q)) && Rising(ref, s[1..]))
  }

  lemma {:induction false} KeepRising(ref: seq<Param>, s: seq<Param>, f: Param -> bool)
    requires Rising(ref, s)
    ensures Rising(ref, Keep(s, f))
  {
    if s != [] {
      KeepRising(ref, s[1..], f);
      var r := Keep(s[1..], f);
      assert ([s[0]] + r)[1..] == r && [] + r == r;
    }
  }

  lemma {:induction false} TailRising(ref: seq<Param>, s: seq<Param>)
    requires ref != [] && ref[0] !in s && Rising(ref[1..], s)
    ensures Rising(ref, s)
  {
    if s != [] {
      TailRising(ref, s[1..]);
    }
  }

  lemma {:induction false} DistinctRising(inv: seq<Param>)
    ensures Rising(inv, Distinct(inv))
  {
    if inv != [] {
      var r := Keep(Distinct(inv[1..]), p => p != inv[0]);
      DistinctRising(inv[1..]);
      KeepRising(inv[1..], Distinct(inv[1..]), p => p != inv[0]);
      TailRising(inv, r);
      assert ([inv[0]] + r)[1..] == r;
    }
  }

  lemma {:induction false} DeclarationsRising(decl: seq<Param>)
    requires NoDup(decl)
    ensures Rising(decl, decl)
  {
    if decl != [] {
      DeclarationsRising(decl[1..]);
      assert decl[0] !in decl[1..];
      TailRising(decl, decl[1..]);
    }
  }

  lemma {:induction false} InvokedInOrder(inv: seq<Param>, decl: seq<Param>, s: seq<Param>, eager: bool)
    requires Rising(inv, s) && forall p :: p in s ==> p.isEager == eager
    ensures InOrder(inv, decl, s)
  {
    if s != [] {
      assert s[0] in s;
      InvokedInOrder(inv, decl, s[1..], eager);
    }
  }

  lemma {:induction false} UninvokedInOrder(inv: seq<Param>, decl: seq<Param>, s: seq<Param>, eager: bool)
    requires Rising(decl, s) && forall p :: p in s ==> p.isEager == eager && p !in inv
    ensures InOrder(inv, decl, s)
  {
    if s != [] {
      assert s[0] in s;
      UninvokedInOrder(inv, decl, s[1..], eager);
    }
  }

  lemma {:induction false} JoinInOrder(inv: seq<Param>, decl: seq<Param>, a: seq<Param>, b: seq<Param>)
    requires InOrder(inv, decl, a) && InOrder(inv, decl, b) && forall p :: p in a ==> BeforeAll(inv, decl, p, b)
    ensures InOrder(inv, decl, a + b)
  {
    if a == [] {
      assert a + b == b;
    } else {
      assert a[0] in a && (a + b)[1..] == a[1..] + b;
      JoinInOrder(inv, decl, a[1..], b);
    }
  }

  lemma GroupInOrder(inv: seq<Param>, decl: seq<Param>, eager: bool)
    requires NoDup(decl)
    ensures InOrder(inv, decl, Group(inv, decl, eager))
    ensures forall p :: p in Group(inv, decl, eager) <==> p in decl && p.isEager == eager
  {
    var a, b := Invoked(inv, decl, eager), Uninvoked(inv, decl, eager);
    DistinctRising(inv);
    KeepRising(inv, Distinct(inv), p => p in decl && p.isEager == eager);
    InvokedInOrder(inv, decl, a, eager);
    DeclarationsRising(decl);
    KeepRising(decl, decl, p => p !in inv && p.isEager == eager);
    UninvokedInOrder(inv, decl, b, eager);
    JoinInOrder(inv, decl, a, b);
  }

  lemma OrderInOrder(inv: seq<Param>, decl: seq<Param>)
    requires NoDup(decl)
    ensures InOrder(inv, decl, ProcessingOrder(inv, decl))
    ensures forall p :: p in ProcessingOrder(inv, decl) <==> p in decl
  {
    GroupInOrder(inv, decl, true);
    GroupInOrder(inv, decl, false);
    JoinInOrder(inv, decl, Group(inv, decl, true), Group(inv, decl, false));
  }

  // There is only one way to put the same elements in order.
  lemma {:induction false} OrderUnique(inv: seq<Param>, decl: seq<Param>, a: seq<Param>, b: seq<Param>)
    requires InOrder(inv, decl, a) && InOrder(inv, decl, b) && forall p :: p in a <==> p in b
    ensures a == b
  {
    assert a != [] ==> a[0] in b;
    assert b != [] ==> b[0] in a;
    if a != [] {
      assert !Before(inv, decl, a[0], a[0]);
      assert forall p :: p in a[1..] <==> p in a && p != a[0];
      assert forall p :: p in b[1..] <==> p in b && p != b[0];
      OrderUnique(inv, decl, a[1..], b[1..]);
      assert a == [a[0]] + a[1..] && b == [b[0]] + b[1..];
    }
  }

  // Main result: for distinct declarations the sorted list is the declarative order.
  lemma SortedIsProcessingOrder(inv: seq<Param>, decl: seq<Param>)
    requires NoDup(decl)
    ensures Sorted(inv, decl) == ProcessingOrder(inv, decl)
  {
    SortedInOrder(inv, decl);
    SortedPermutes(inv, decl);
    SameElements(Sorted(inv, decl), decl);
    OrderInOrder(inv, decl);
    OrderUnique(inv, decl, Sorted(inv, decl), ProcessingOrder(inv, decl));
  }
}
