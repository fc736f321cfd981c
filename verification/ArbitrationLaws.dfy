/** What a command's parameters leave in `ctx.params`: what callbacks are given, which value a name
    ends with when several parameters write it, and which names stay unset. */
module ArbitrationLaws {
  import opened CliValues
  import opened Arbitration

  function Lookup(m: Params, name: string): Option<Datum> {
    if name in m then Some(m[name]) else None
  }

  // ---------------------------------------------------------------- what callbacks are given

  lemma GivenIsShown(p: Param, m: Params, v: Datum)
    requires !AnswersItself(p, v) && Prepared(p, v).Some?
    ensures var (shown, value) := Given(p, m, v);
            UnsetKeys(shown) == {} && !value.Unset? && shown.Keys == m.Keys && forall k :: k in m ==> shown[k] == Shown(m[k])
  {
    assert UnsetKeys(m) == {} ==> forall k :: k in m ==> !m[k].Unset?;
  }

  lemma NeverAnswersItself(p: Param, opts: Opts)
    requires WellBuilt(p)
    ensures !AnswersItself(p, Consume(p, opts))
  {
  }

  ghost predicate NoSentinel(s: Step) {
    s.call.Some? ==> UnsetKeys(s.call.value.shown) == {} && !s.call.value.arg.Unset?
  }

  // Main result: whatever the callbacks do, also to `ctx.params`, and whether parsing is resilient or
  // fails, no callback of a run is given the sentinel, neither in the map nor as its value.
  lemma {:induction false} NoCallbackSeesUnset(resilient: bool, ps: seq<Param>, opts: Opts, m: Params)
    requires forall p :: p in ps ==> WellBuilt(p)
    ensures forall s :: s in RunParams(resilient, ps, opts, m).steps ==> NoSentinel(s)
  {
    hide WellBuilt, HandleParseResult, Consume, AnswersItself, Prepared, Given;
    if ps != [] {
      assert ps[0] in ps;
      var v := Consume(ps[0], opts);
      NeverAnswersItself(ps[0], opts);
      if Prepared(ps[0], v).Some? {
        GivenIsShown(ps[0], m, v);
      }
      var h := HandleParseResult(resilient, ps[0], opts, m);
      if h.Done? {
        NoCallbackSeesUnset(resilient, ps[1..], opts, h.params);
      }
    }
  }

  // ---------------------------------------------------------------- one name over a run

  predicate Writes(s: Step, name: string) {
    s.exposed && s.name == name
  }

  predicate Sets(s: Step, name: string) {
    Writes(s, name) && !s.value.Unset?
  }

  // The callback leaves something else under the name than it was shown.
  predicate Rewrites(s: Step, name: string) {
    s.call.Some? && Lookup(s.call.value.left, name) != Lookup(s.call.value.shown, name)
  }

  // What a step does to the entry of a name that its callback leaves alone ...
  function Advance(entry: Option<Datum>, s: Step, name: string): Option<Datum> {
    var d := if s.masks && entry == Some(Datum.Unset) then Some(Null) else entry;
    if Writes(s, name) && (d.None? || d.value.Unset?) then Some(s.value) else d
  }

  // ... and to any entry.
  function AdvanceAny(entry: Option<Datum>, s: Step, name: string): Option<Datum> {
    if Rewrites(s, name) then Advance(Lookup(s.call.value.left, name), s.(masks := false), name) else Advance(entry, s, name)
  }

  function Entry(entry: Option<Datum>, steps: seq<Step>, name: string): Option<Datum>
    decreases |steps|
  {
    if steps == [] then entry else Entry(Advance(entry, steps[0], name), steps[1..], name)
  }

  function EntryAny(entry: Option<Datum>, steps: seq<Step>, name: string): Option<Datum>
    decreases |steps|
  {
    if steps == [] then entry else EntryAny(AdvanceAny(entry, steps[0], name), steps[1..], name)
  }

  lemma ProcessAdvances(p: Param, m: Params, v: Datum, name: string)
    ensures var left := ProcessValue(p, m, v).params;
            var s := Step(p.name, p.exposed, Datum.Unset, LeavesMask(p, m, v), CallOf(p, m, v));
            Lookup(left, name)
              == if Rewrites(s, name) then Lookup(s.call.value.left, name)
                 else if s.masks && Lookup(m, name) == Some(Datum.Unset) then Some(Null)
                 else Lookup(m, name)
  {
    if !AnswersItself(p, v) && Prepared(p, v).Some? {
      GivenIsShown(p, m, v);
    }
  }

  lemma StepAdvances(resilient: bool, p: Param, opts: Opts, m: Params, name: string)
    requires HandleParseResult(resilient, p, opts, m).Done?
    ensures var h := HandleParseResult(resilient, p, opts, m);
            Lookup(h.params, name) == AdvanceAny(Lookup(m, name), StepOf(p, opts, m, h.value), name)
  {
    hide LeavesMask, CallOf, Consume, ProcessValue;
    ProcessAdvances(p, m, Consume(p, opts), name);
  }

  lemma {:induction false} RunAdvances(resilient: bool, ps: seq<Param>, opts: Opts, m: Params, name: string)
    requires !RunParams(resilient, ps, opts, m).failed
    ensures var r := RunParams(resilient, ps, opts, m); Lookup(r.params, name) == EntryAny(Lookup(m, name), r.steps, name)
  {
    hide HandleParseResult, StepOf, AdvanceAny, Lookup;
    if ps != [] {
      var h := HandleParseResult(resilient, ps[0], opts, m);
      StepAdvances(resilient, ps[0], opts, m, name);
      RunAdvances(resilient, ps[1..], opts, h.params, name);
      var s, rest := StepOf(ps[0], opts, m, h.value), RunParams(resilient, ps[1..], opts, h.params).steps;
      assert ([s] + rest)[1..] == rest;
    }
  }

  // ---------------------------------------------------------------- from the last rewriting on

  // One past the last step whose callback rewrites the name.
  function Since(steps: seq<Step>, name: string): (k: nat)
    ensures k <= |steps|
    ensures k > 0 ==> Rewrites(steps[k - 1], name)
    ensures forall j :: k <= j < |steps| ==> !Rewrites(steps[j], name)
  {
    if steps == [] then 0
    else
      var k := Since(steps[1..], name);
      if k > 0 then k + 1 else if Rewrites(steps[0], name) then 1 else 0
  }

  // What that callback left under the name, and the steps from its own write on.
  function Base(entry: Option<Datum>, steps: seq<Step>, name: string): Option<Datum> {
    var k := Since(steps, name);
    if k == 0 then entry else Lookup(steps[k - 1].call.value.left, name)
  }

  function Tail(steps: seq<Step>, name: string): seq<Step> {
    var k := Since(steps, name);
    if k == 0 then steps else [steps[k - 1].(masks := false)] + steps[k..]
  }

  lemma {:induction false} EntryFromBase(entry: Option<Datum>, steps: seq<Step>, name: string)
    ensures EntryAny(entry, steps, name) == Entry(Base(entry, steps, name), Tail(steps, name), name)
    decreases |steps|
  {
    hide Advance, Rewrites;
    if steps != [] {
      var next, rest := AdvanceAny(entry, steps[0], name), steps[1..];
      EntryFromBase(next, rest, name);
      var j, k := Since(rest, name), Since(steps, name);
      if j > 0 {
        assert rest[j - 1] == steps[k - 1] && rest[j..] == steps[k..];
      } else if k == 1 {
        var s := steps[0].(masks := false);
        assert ([s] + steps[1..])[0] == s && ([s] + steps[1..])[1..] == rest;
      }
    }
  }

  // ---------------------------------------------------------------- who wins

  // The first step that writes |name|, and the first that writes it with a value.
  function FirstWrite(steps: seq<Step>, name: string): (i: nat)
    ensures i <= |steps|
    ensures i < |steps| ==> Writes(steps[i], name)
    ensures forall j :: 0 <= j < i ==> !Writes(steps[j], name)
  {
    if steps == [] || Writes(steps[0], name) then 0 else 1 + FirstWrite(steps[1..], name)
  }

  function FirstSet(steps: seq<Step>, name: string): (i: nat)
    ensures i <= |steps|
    ensures i < |steps| ==> Sets(steps[i], name)
    ensures forall j :: 0 <= j < i ==> !Sets(steps[j], name)
  {
    if steps == [] || Sets(steps[0], name) then 0 else 1 + FirstSet(steps[1..], name)
  }

  // The promise: the first value that was set, or None.
  function Promised(steps: seq<Step>, name: string): Datum {
    var i := FirstSet(steps, name);
    if i < |steps| then steps[i].value else Null
  }

  // A masking step after |w| and before the first value.
  ghost predicate MaskedBefore(steps: seq<Step>, w: int, name: string)
    requires w >= -1
  {
    exists k :: w < k < FirstSet(steps, name) && steps[k].masks
  }

  // A masking step between the first write of |name| and its first value.
  ghost predicate Disturbed(steps: seq<Step>, name: string) {
    MaskedBefore(steps, FirstWrite(steps, name), name)
  }

  // What becomes of an entry that no callback rewrites: a value stays; what is unset takes the first
  // value set, or turns into None where a masking step comes before it.
  ghost function Settles(entry: Option<Datum>, steps: seq<Step>, name: string): Option<Datum> {
    if entry.Some? && !entry.value.Unset? then entry
    else
      var w, i := if entry.Some? then -1 else FirstWrite(steps, name), FirstSet(steps, name);
      if w == |steps| then None
      else if MaskedBefore(steps, w, name) then Some(Null)
      else if i < |steps| then Some(steps[i].value)
      else Some(Datum.Unset)
  }

  // A step that left the mask on has no value of its own.
  predicate Sane(s: Step) {
    s.masks ==> s.value.Unset?
  }

  lemma {:induction false} SettledStays(v: Datum, steps: seq<Step>, name: string)
    requires !v.Unset?
    ensures Entry(Some(v), steps, name) == Some(v)
  {
    if steps != [] {
      SettledStays(v, steps[1..], name);
    }
  }

  // Looking at the steps from the second on.
  lemma MaskedTail(steps: seq<Step>, w: int, name: string)
    requires steps != [] && !Sets(steps[0], name) && (w >= 0 || !steps[0].masks) && w >= -1
    ensures FirstSet(steps[1..], name) == FirstSet(steps, name) - 1
    ensures MaskedBefore(steps, w, name) == MaskedBefore(steps[1..], if w >= 0 then w - 1 else -1, name)
  {
    var i, v := FirstSet(steps, name), if w >= 0 then w - 1 else -1;
    if MaskedBefore(steps, w, name) {
      var k :| w < k < i && steps[k].masks;
      assert v < k - 1 < i - 1 && steps[1..][k - 1].masks;
    }
    if MaskedBefore(steps[1..], v, name) {
      var k :| v < k < i - 1 && steps[1..][k].masks;
      assert w < k + 1 < i && steps[k + 1].masks;
    }
  }

  lemma {:induction false} UnsetSettles(steps: seq<Step>, name: string)
    requires forall s :: s in steps ==> Sane(s)
    ensures Entry(Some(Datum.Unset), steps, name) == Settles(Some(Datum.Unset), steps, name)
  {
    hide MaskedBefore;
    if steps == [] {
      NoMaskBefore(steps, name);
    } else {
      assert steps[0] in steps;
      if Sets(steps[0], name) {
        SettledStays(steps[0].value, steps[1..], name);
        NoMaskBefore(steps, name);
      } else if steps[0].masks {
        SettledStays(Null, steps[1..], name);
        MaskFirst(steps, name);
      } else {
        UnsetSettles(steps[1..], name);
        MaskedTail(steps, -1, name);
      }
    }
  }

  lemma NoMaskBefore(steps: seq<Step>, name: string)
    requires FirstSet(steps, name) == 0
    ensures !MaskedBefore(steps, -1, name)
  {
  }

  lemma MaskFirst(steps: seq<Step>, name: string)
    requires steps != [] && steps[0].masks && FirstSet(steps, name) > 0
    ensures MaskedBefore(steps, -1, name)
  {
  }

  lemma {:induction false} AbsentSettles(steps: seq<Step>, name: string)
    requires forall s :: s in steps ==> Sane(s)
    ensures Entry(None, steps, name) == Settles(None, steps, name)
  {
    hide MaskedBefore;
    if steps != [] {
      assert steps[0] in steps;
      var w := FirstWrite(steps, name);
      if w > 0 {
        AbsentSettles(steps[1..], name);
        MaskedTail(steps, w, name);
      } else if Sets(steps[0], name) {
        SettledStays(steps[0].value, steps[1..], name);
        NoMaskFrom(steps, 0, name);
      } else {
        UnsetSettles(steps[1..], name);
        MaskedTail(steps, 0, name);
      }
    }
  }

  lemma NoMaskFrom(steps: seq<Step>, w: nat, name: string)
    requires FirstSet(steps, name) == 0
    ensures !MaskedBefore(steps, w, name)
  {
  }

  lemma EntrySettles(entry: Option<Datum>, steps: seq<Step>, name: string)
    requires forall s :: s in steps ==> Sane(s)
    ensures Entry(entry, steps, name) == Settles(entry, steps, name)
  {
    if entry.None? {
      AbsentSettles(steps, name);
    } else if entry.value.Unset? {
      UnsetSettles(steps, name);
    } else {
      SettledStays(entry.value, steps, name);
    }
  }

  // The first value is shown, or None, unless a masking step came between; then the value is lost
  // exactly when it was not None anyway.
  lemma FirstValueExactly(steps: seq<Step>, name: string)
    ensures var e := Settles(None, steps, name);
            && (e.Some? <==> exists s :: s in steps && Writes(s, name))
            && (e.Some? ==> (Shown(e.value) == Promised(steps, name) <==> !Disturbed(steps, name) || Promised(steps, name).Null?))
  {
    var w := FirstWrite(steps, name);
    if w < |steps| {
      assert steps[w] in steps;
    }
  }

  // ---------------------------------------------------------------- a whole run

  ghost predicate Carries(ps: seq<Param>, name: string) {
    exists p :: p in ps && p.exposed && p.name == name
  }

  lemma {:induction false} StepsSane(resilient: bool, ps: seq<Param>, opts: Opts, m: Params)
    requires !RunParams(resilient, ps, opts, m).failed
    ensures var steps := RunParams(resilient, ps, opts, m).steps;
            && |steps| == |ps|
            && (forall s :: s in steps ==> Sane(s))
            && (!resilient ==> forall s :: s in steps ==> !s.masks)
            && (forall i :: 0 <= i < |ps| ==> steps[i].name == ps[i].name && steps[i].exposed == ps[i].exposed)
  {
    if ps != [] {
      StepsSane(resilient, ps[1..], opts, HandleParseResult(resilient, ps[0], opts, m).params);
    }
  }

  // Main result: for any callbacks, also such as rewrite `ctx.params`, and in resilient parsing or not:
  // a name ends with what the last callback that rewrote it left there, if that is a value; where it
  // left nothing or the sentinel, or none rewrote it, with the first value that a parameter sets from
  // there on, unless a raising callback came between.  So it is unset at the end exactly when it was
  // left unset or first written since then, and since then no value was set and no callback raised.
  lemma RunSettles(resilient: bool, ps: seq<Param>, opts: Opts, name: string)
    requires !RunParams(resilient, ps, opts, map[]).failed
    ensures var r := RunParams(resilient, ps, opts, map[]);
            var base, tail := Base(None, r.steps, name), Tail(r.steps, name);
            var w := if base.Some? then -1 else FirstWrite(tail, name);
            && Lookup(r.params, name) == Settles(base, tail, name)
            && (name in UnsetKeys(r.params) <==>
                  && (base.None? || base.value.Unset?) && w < |tail|
                  && FirstSet(tail, name) == |tail| && forall k :: w < k < |tail| ==> !tail[k].masks)
  {
    hide RunParams, Since, EntryAny, Entry;
    var r := RunParams(resilient, ps, opts, map[]);
    var base, tail := Base(None, r.steps, name), Tail(r.steps, name);
    RunAdvances(resilient, ps, opts, map[], name);
    StepsSane(resilient, ps, opts, map[]);
    EntryFromBase(None, r.steps, name);
    EntrySettles(base, tail, name);
    assert name in UnsetKeys(r.params) <==> Lookup(r.params, name) == Some(Datum.Unset);
  }

  // Main result: what a later callback is given is what these rules make of the parameters processed
  // before it, with None for what is unset.
  lemma SeenByCallback(resilient: bool, ps: seq<Param>, opts: Opts, p: Param, name: string)
    requires WellBuilt(p) && !RunParams(resilient, ps, opts, map[]).failed
    requires CallOf(p, RunParams(resilient, ps, opts, map[]).params, Consume(p, opts)).Some?
    ensures var r := RunParams(resilient, ps, opts, map[]);
            var shown := CallOf(p, r.params, Consume(p, opts)).value.shown;
            var entry := Settles(Base(None, r.steps, name), Tail(r.steps, name), name);
            Lookup(shown, name) == if entry.None? then None else Some(Shown(entry.value))
  {
    hide RunParams, Since, Consume, WellBuilt;
    var r := RunParams(resilient, ps, opts, map[]);
    NeverAnswersItself(p, opts);
    GivenIsShown(p, r.params, Consume(p, opts));
    RunSettles(resilient, ps, opts, name);
  }

  // ---------------------------------------------------------------- callbacks that leave the map alone

  ghost predicate Quiet(p: Param) {
    p.callback.Some? ==> forall m: Params, v: Datum :: p.callback.value(m, v).params == m
  }

  // With such a callback processing a value gives `ctx.params` back unchanged unless the callback
  // raised while unset names were hidden; then they stay None.
  lemma ProcessKeepsExactly(p: Param, m: Params, v: Datum)
    requires Quiet(p)
    ensures ProcessValue(p, m, v).params == if LeavesMask(p, m, v) then Masked(m) else m
    ensures ProcessValue(p, m, v).params == m <==> !(LeavesMask(p, m, v) && UnsetKeys(m) != {})
  {
    assert Restored(UnsetKeys(m), Masked(m)) == m;
    if UnsetKeys(m) == {} {
      assert Masked(m) == m;
    } else {
      var k :| k in UnsetKeys(m);
      assert Masked(m)[k] != m[k];
    }
  }

  // A callback that leaves the entry of one name alone, whatever it does to others.
  ghost predicate Spares(p: Param, name: string) {
    p.callback.Some? ==> forall m: Params, v: Datum :: Lookup(p.callback.value(m, v).params, name) == Lookup(m, name)
  }

  lemma {:induction false} SparingRewritesNothing(resilient: bool, ps: seq<Param>, opts: Opts, m: Params, name: string)
    requires forall p :: p in ps ==> Spares(p, name)
    ensures forall s :: s in RunParams(resilient, ps, opts, m).steps ==> !Rewrites(s, name)
  {
    hide HandleParseResult, Given, Consume, Prepared, AnswersItself;
    if ps != [] {
      assert ps[0] in ps;
      var h := HandleParseResult(resilient, ps[0], opts, m);
      if h.Done? {
        SparingRewritesNothing(resilient, ps[1..], opts, h.params, name);
      }
    }
  }

  // Main result: after a parse no sentinel is left, and a name that no callback rewrites is there
  // exactly when an exposed parameter carries it, and holds the first value set in processing order, or
  // None.  Outside resilient parsing this has no exception.
  lemma ParsedParams(resilient: bool, ps: seq<Param>, opts: Opts, name: string)
    requires (forall p :: p in ps ==> Spares(p, name)) && !RunParams(resilient, ps, opts, map[]).failed
    ensures var r := RunParams(resilient, ps, opts, map[]);
            var final := Masked(r.params);
            && UnsetKeys(final) == {}
            && (name in final <==> Carries(ps, name))
            && (name in final ==>
                  (final[name] == Promised(r.steps, name) <==> !Disturbed(r.steps, name) || Promised(r.steps, name).Null?))
            && (!resilient && name in final ==> final[name] == Promised(r.steps, name))
  {
    hide RunParams, Spares, Promised, FirstSet, FirstWrite, Rewrites;
    var r := RunParams(resilient, ps, opts, map[]);
    StepsSane(resilient, ps, opts, map[]);
    SparingRewritesNothing(resilient, ps, opts, map[], name);
    assert Since(r.steps, name) == 0;
    RunSettles(resilient, ps, opts, name);
    FirstValueExactly(r.steps, name);
    SameWriters(ps, r.steps, name);
  }

  lemma SameWriters(ps: seq<Param>, steps: seq<Step>, name: string)
    requires |steps| == |ps| && forall i :: 0 <= i < |ps| ==> steps[i].name == ps[i].name && steps[i].exposed == ps[i].exposed
    ensures (exists s :: s in steps && Writes(s, name)) <==> Carries(ps, name)
  {
    if s :| s in steps && Writes(s, name) {
      var i :| 0 <= i < |steps| && steps[i] == s;
      assert ps[i] in ps;
    }
    if p :| p in ps && p.exposed && p.name == name {
      var i :| 0 <= i < |ps| && ps[i] == p;
      assert steps[i] in steps;
    }
  }
}
