/** The flat cache key of `AsyncLRUCacheWrapper.__call__` tells calls apart, although positional
    values, keyword names, keyword values and types all share one tuple. */
module CacheKey {

  /** An element of the key tuple, up to Python equality: the separator sentinel, or anything else. */
  datatype Atom = Separator | Obj(id: nat)

  /** An argument: what it equals, and its type, which is an object too. */
  datatype Val = Val(self: Atom, ty: Atom)

  /** A call: positional arguments, and keyword arguments in the order given. */
  datatype Signature = Signature(args: seq<Val>, kwargs: seq<(Atom, Val)>)

  function Selves(vals: seq<Val>): (r: seq<Atom>)
    ensures |r| == |vals| && forall i :: 0 <= i < |vals| ==> r[i] == vals[i].self
  {
    seq(|vals|, i requires 0 <= i < |vals| => vals[i].self)
  }

  function Types(vals: seq<Val>): (r: seq<Atom>)
    ensures |r| == |vals| && forall i :: 0 <= i < |vals| ==> r[i] == vals[i].ty
  {
    seq(|vals|, i requires 0 <= i < |vals| => vals[i].ty)
  }

  function KwTypes(kwargs: seq<(Atom, Val)>): (r: seq<Atom>)
    ensures |r| == |kwargs| && forall i :: 0 <= i < |kwargs| ==> r[i] == kwargs[i].1.ty
  {
    seq(|kwargs|, i requires 0 <= i < |kwargs| => kwargs[i].1.ty)
  }

  // `sum(kwargs.items(), ())`: names and values alternate.
  function Flat(kwargs: seq<(Atom, Val)>): (r: seq<Atom>)
    ensures |r| == 2 * |kwargs|
  {
    if kwargs == [] then [] else [kwargs[0].0, kwargs[0].1.self] + Flat(kwargs[1..])
  }

  function Key(c: Signature, typed: bool): seq<Atom> {
    var key := Selves(c.args) + if c.kwargs == [] then [] else [Separator] + Flat(c.kwargs);
    if typed then key + Types(c.args) + (if c.kwargs == [] then [] else [Separator] + KwTypes(c.kwargs)) else key
  }

  // The caller never passes the sentinel: no argument, name or type equals it.
  ghost predicate Clean(c: Signature) {
    && (forall i :: 0 <= i < |c.args| ==> c.args[i].self != Separator && c.args[i].ty != Separator)
    && (forall i :: 0 <= i < |c.kwargs| ==>
          c.kwargs[i].0 != Separator && c.kwargs[i].1.self != Separator && c.kwargs[i].1.ty != Separator)
  }

  // Same positional values and same ordered keyword arguments; with `typed` also the same types.
  ghost predicate SameCall(c: Signature, d: Signature, typed: bool) {
    && |c.args| == |d.args| && |c.kwargs| == |d.kwargs|
    && (forall i :: 0 <= i < |c.args| ==> c.args[i].self == d.args[i].self && (typed ==> c.args[i].ty == d.args[i].ty))
    && (forall i :: 0 <= i < |c.kwargs| ==>
          c.kwargs[i].0 == d.kwargs[i].0 && c.kwargs[i].1.self == d.kwargs[i].1.self
          && (typed ==> c.kwargs[i].1.ty == d.kwargs[i].1.ty))
  }

  // Where the first separator stands.
  function SeparatorAt(key: seq<Atom>): nat {
    if key == [] || key[0].Separator? then 0 else 1 + SeparatorAt(key[1..])
  }

  lemma {:induction false} SeparatorAfter(a: seq<Atom>, x: seq<Atom>)
    requires Separator !in a
    ensures SeparatorAt(a + [Separator] + x) == |a|
  {
    if a != [] {
      assert a[0] in a;
      SeparatorAfter(a[1..], x);
      assert (a + [Separator] + x)[1..] == a[1..] + [Separator] + x;
    }
  }

  // Sequences split at their first separator.
  lemma FirstSeparator(a: seq<Atom>, x: seq<Atom>, b: seq<Atom>, y: seq<Atom>)
    requires Separator !in a && Separator !in b && a + [Separator] + x == b + [Separator] + y
    ensures a == b && x == y
  {
    SeparatorAfter(a, x);
    SeparatorAfter(b, y);
    SamePieces(a + [Separator], x, b + [Separator], y);
    SamePieces(a, [Separator], b, [Separator]);
  }

  lemma SamePieces(a: seq<Atom>, x: seq<Atom>, b: seq<Atom>, y: seq<Atom>)
    requires |a| == |b| && a + x == b + y
    ensures a == b && x == y
  {
    assert a == (a + x)[..|a|] && b == (b + y)[..|b|];
    assert x == (a + x)[|a|..] && y == (b + y)[|b|..];
  }

  lemma {:induction false} NoSeparatorInFlat(kwargs: seq<(Atom, Val)>)
    requires forall i :: 0 <= i < |kwargs| ==> kwargs[i].0 != Separator && kwargs[i].1.self != Separator
    ensures Separator !in Flat(kwargs)
  {
    if kwargs != [] {
      NoSeparatorInFlat(kwargs[1..]);
    }
  }

  lemma NoSeparator(c: Signature)
    requires Clean(c)
    ensures Separator !in Selves(c.args) && Separator !in Types(c.args) && Separator !in KwTypes(c.kwargs)
    ensures Separator !in Flat(c.kwargs)
  {
    NoSeparatorInFlat(c.kwargs);
  }

  // The separator is in the key exactly when there are keyword arguments.
  lemma SeparatorMarksKwargs(c: Signature, typed: bool)
    requires Clean(c)
    ensures Separator in Key(c, typed) <==> c.kwargs != []
  {
    NoSeparator(c);
    if c.kwargs != [] {
      assert Key(c, typed)[|c.args|] == Separator;
    }
  }

  lemma KeyShape(c: Signature)
    requires c.kwargs != []
    ensures Key(c, false) == Selves(c.args) + [Separator] + Flat(c.kwargs)
    ensures Key(c, true) == Selves(c.args) + [Separator] + (Flat(c.kwargs) + Types(c.args) + [Separator] + KwTypes(c.kwargs))
  {
  }

  lemma {:induction false} FlatDecides(k: seq<(Atom, Val)>, l: seq<(Atom, Val)>)
    requires Flat(k) == Flat(l)
    ensures |k| == |l| && forall i :: 0 <= i < |k| ==> k[i].0 == l[i].0 && k[i].1.self == l[i].1.self
  {
    if k != [] {
      SamePieces([k[0].0, k[0].1.self], Flat(k[1..]), [l[0].0, l[0].1.self], Flat(l[1..]));
      FlatDecides(k[1..], l[1..]);
      assert [k[0].0, k[0].1.self][0] == [l[0].0, l[0].1.self][0] && [k[0].0, k[0].1.self][1] == [l[0].0, l[0].1.self][1];
      forall i | 0 <= i < |k| ensures k[i].0 == l[i].0 && k[i].1.self == l[i].1.self {
        if i > 0 { assert k[i] == k[1..][i - 1] && l[i] == l[1..][i - 1]; }
      }
    }
  }

  lemma ElementsAgree(c: Signature, d: Signature, typed: bool)
    requires Selves(c.args) == Selves(d.args) && Flat(c.kwargs) == Flat(d.kwargs)
    requires typed ==> Types(c.args) == Types(d.args) && KwTypes(c.kwargs) == KwTypes(d.kwargs)
    ensures SameCall(c, d, typed)
  {
    FlatDecides(c.kwargs, d.kwargs);
    assert forall i :: 0 <= i < |c.args| ==> Selves(c.args)[i] == Selves(d.args)[i];
    if typed {
      assert forall i :: 0 <= i < |c.args| ==> Types(c.args)[i] == Types(d.args)[i];
      assert forall i :: 0 <= i < |c.kwargs| ==> KwTypes(c.kwargs)[i] == KwTypes(d.kwargs)[i];
    }
  }

  lemma EqualKeys(c: Signature, d: Signature, typed: bool)
    requires Clean(c) && Clean(d) && Key(c, typed) == Key(d, typed)
    ensures SameCall(c, d, typed)
  {
    SeparatorMarksKwargs(c, typed);
    SeparatorMarksKwargs(d, typed);
    NoSeparator(c);
    NoSeparator(d);
    if c.kwargs == [] {
      PlainKeys(c, d, typed);
    } else {
      KeyShape(c);
      KeyShape(d);
      if typed {
        TypedKeys(c, d);
      } else {
        FirstSeparator(Selves(c.args), Flat(c.kwargs), Selves(d.args), Flat(d.kwargs));
        ElementsAgree(c, d, false);
      }
    }
  }

  lemma SameKeys(c: Signature, d: Signature, typed: bool)
    requires SameCall(c, d, typed)
    ensures Key(c, typed) == Key(d, typed)
  {
    assert Selves(c.args) == Selves(d.args);
    SameFlat(c.kwargs, d.kwargs);
    if typed {
      assert Types(c.args) == Types(d.args) && KwTypes(c.kwargs) == KwTypes(d.kwargs);
    }
  }

  // Main result: as long as callers do not pass the sentinel, two calls get the same key exactly when
  // they agree in positional values, in ordered keyword arguments and, in typed mode, in all types.
  lemma KeyDecides(c: Signature, d: Signature, typed: bool)
    requires Clean(c) && Clean(d)
    ensures Key(c, typed) == Key(d, typed) <==> SameCall(c, d, typed)
  {
    if Key(c, typed) == Key(d, typed) {
      EqualKeys(c, d, typed);
    }
    if SameCall(c, d, typed) {
      SameKeys(c, d, typed);
    }
  }

  lemma {:induction false} SameFlat(k: seq<(Atom, Val)>, l: seq<(Atom, Val)>)
    requires |k| == |l| && forall i :: 0 <= i < |k| ==> k[i].0 == l[i].0 && k[i].1.self == l[i].1.self
    ensures Flat(k) == Flat(l)
  {
    if k != [] {
      SameFlat(k[1..], l[1..]);
    }
  }

  // Without keyword arguments a typed key is twice as long as the arguments.
  lemma PlainKeys(c: Signature, d: Signature, typed: bool)
    requires c.kwargs == [] && d.kwargs == [] && Key(c, typed) == Key(d, typed)
    ensures SameCall(c, d, typed)
  {
    assert Key(c, false) == Selves(c.args) && Key(d, false) == Selves(d.args);
    if typed {
      assert Key(c, true) == Selves(c.args) + Types(c.args) && Key(d, true) == Selves(d.args) + Types(d.args);
      SamePieces(Selves(c.args), Types(c.args), Selves(d.args), Types(d.args));
    }
    ElementsAgree(c, d, typed);
  }

  // With them, the first separator ends the positional values, which are as many as their types
  // before the second separator.
  lemma TypedKeys(c: Signature, d: Signature)
    requires Clean(c) && Clean(d) && c.kwargs != [] && d.kwargs != []
    requires Key(c, true) == Key(d, true)
    ensures SameCall(c, d, true)
  {
    NoSeparator(c);
    NoSeparator(d);
    KeyShape(c);
    KeyShape(d);
    var u, v := Flat(c.kwargs) + Types(c.args), Flat(d.kwargs) + Types(d.args);
    FirstSeparator(Selves(c.args), u + [Separator] + KwTypes(c.kwargs), Selves(d.args), v + [Separator] + KwTypes(d.kwargs));
    FirstSeparator(u, KwTypes(c.kwargs), v, KwTypes(d.kwargs));
    assert |c.args| == |Selves(c.args)| == |Selves(d.args)| == |d.args|;
    SamePieces(Flat(c.kwargs), Types(c.args), Flat(d.kwargs), Types(d.args));
    ElementsAgree(c, d, true);
  }

  // The hypothesis is needed: f(sentinel, x, y) shares its key with f(x=y).
  lemma SentinelCollides(x: nat, y: nat, ty: Atom)
    ensures var c := Signature([Val(Separator, ty), Val(Obj(x), ty), Val(Obj(y), ty)], []);
            var d := Signature([], [(Obj(x), Val(Obj(y), ty))]);
            Key(c, false) == Key(d, false) && !SameCall(c, d, false)
  {
    var d := Signature([], [(Obj(x), Val(Obj(y), ty))]);
    assert d.kwargs[1..] == [];
    assert Flat(d.kwargs) == [Obj(x), Obj(y)];
  }
}
