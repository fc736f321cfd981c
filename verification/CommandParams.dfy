/** `Command.parse_args` from the command line to `ctx.params`: the parser's values and its order of
    invocation go through the processing order and through arbitration. */
module CommandParams {
  import opened CliValues
  import opened Subsequences
  import opened Unpack
  import opened Parser
  import opened ParseLaws
  import opened Arbitration
  import opened ArbitrationLaws
  import opened RequiredLaws
  import CL = CommandLines
  import OD = OrderedDict
  import PO = ParamOrder

  /** What a command declares: its parser, its parameters by number, which of them are eager, and in which order
      they are declared. */
  datatype Declared = Declared(parser: Config, params: nat -> Param, eager: nat -> bool, declared: seq<nat>)

  function Refs(c: Declared, ids: seq<nat>): (r: seq<PO.Param>)
    ensures |r| == |ids| && forall i :: 0 <= i < |ids| ==> r[i] == PO.Param(ids[i], c.eager(ids[i]))
  {
    seq(|ids|, i requires 0 <= i < |ids| => PO.Param(ids[i], c.eager(ids[i])))
  }

  function Listed(c: Declared, s: seq<PO.Param>): (r: seq<Param>)
    ensures |r| == |s| && forall i :: 0 <= i < |s| ==> r[i] == c.params(s[i].id)
  {
    seq(|s|, i requires 0 <= i < |s| => c.params(s[i].id))
  }

  // The parameters in the order of the loop of `parse_args`.
  function Processing(c: Declared, parsed: Parsed): seq<Param> {
    Listed(c, PO.Sorted(Refs(c, parsed.order), Refs(c, c.declared)))
  }

  function RunCommand(c: Declared, parsed: Parsed): Ran {
    RunParams(c.parser.resilient, Processing(c, parsed), parsed.opts, map[])
  }

  // A declared parameter is exposed under the name.
  ghost predicate Exposes(c: Declared, name: string) {
    exists d :: d in c.declared && c.params(d).exposed && c.params(d).name == name
  }

  lemma ProcessingElements(c: Declared, parsed: Parsed)
    ensures forall p :: p in Processing(c, parsed) ==> exists d :: d in c.declared && c.params(d) == p
    ensures forall d :: d in c.declared ==> c.params(d) in Processing(c, parsed)
  {
    var inv, decl := Refs(c, parsed.order), Refs(c, c.declared);
    var order, ps := PO.Sorted(inv, decl), Processing(c, parsed);
    PO.SortedPermutes(inv, decl);
    PO.SameElements(order, decl);
    hide PO.Sorted;
    forall p | p in ps ensures exists d :: d in c.declared && c.params(d) == p {
      var i :| 0 <= i < |ps| && ps[i] == p;
      assert order[i] in decl;
      var j :| 0 <= j < |decl| && decl[j] == order[i];
      assert c.declared[j] in c.declared;
    }
    forall d | d in c.declared ensures c.params(d) in ps {
      var j :| 0 <= j < |c.declared| && c.declared[j] == d;
      assert decl[j] in order;
      var i :| 0 <= i < |order| && order[i] == decl[j];
      assert ps[i] == c.params(d);
    }
  }

  lemma SameNames(c: Declared, parsed: Parsed, name: string)
    ensures Carries(Processing(c, parsed), name) <==> Exposes(c, name)
  {
    hide Processing;
    ProcessingElements(c, parsed);
    var ps := Processing(c, parsed);
    if Carries(ps, name) {
      var p :| p in ps && p.exposed && p.name == name;
      var d :| d in c.declared && c.params(d) == p;
    }
    if Exposes(c, name) {
      var d :| d in c.declared && c.params(d).exposed && c.params(d).name == name;
      assert c.params(d) in ps;
    }
  }

  // No declared callback rewrites the name.
  ghost predicate Spared(c: Declared, name: string) {
    forall d :: d in c.declared ==> Spares(c.params(d), name)
  }

  // Main result, from command line to `ctx.params`: the parameters are processed in the declarative
  // order that the parser's invocations make, one step each, with the parser's values; every exposed
  // name that no callback rewrites ends with the first value set in that order, or None, but for what
  // resilient parsing loses.
  lemma WholeParse(c: Declared, args: seq<string>, name: string)
    requires ParseArgs(c.parser, args).Ok? && OD.NoDup(c.declared) && Spared(c, name)
    requires !RunCommand(c, ParseArgs(c.parser, args).value).failed
    ensures var parsed := ParseArgs(c.parser, args).value;
            var order, r := PO.ProcessingOrder(Refs(c, parsed.order), Refs(c, c.declared)), RunCommand(c, parsed);
            var final := Masked(r.params);
            && multiset(order) == multiset(Refs(c, c.declared))
            && |r.steps| == |order|
            && (forall i :: 0 <= i < |order| ==> r.steps[i].name == c.params(order[i].id).name && r.steps[i].exposed == c.params(order[i].id).exposed)
            && (name in final <==> Exposes(c, name))
            && (name in final ==>
                  (final[name] == Promised(r.steps, name) <==> !Disturbed(r.steps, name) || Promised(r.steps, name).Null?))
            && (!c.parser.resilient && name in final ==> final[name] == Promised(r.steps, name))
  {
    hide RunParams, Promised, Disturbed, Spares, PO.Sorted, PO.ProcessingOrder, ParseArgs, Carries, Exposes;
    var parsed := ParseArgs(c.parser, args).value;
    var inv, decl, ps := Refs(c, parsed.order), Refs(c, c.declared), Processing(c, parsed);
    PO.SortedIsProcessingOrder(inv, decl);
    PO.SortedPermutes(inv, decl);
    ProcessingElements(c, parsed);
    ParsedParams(c.parser.resilient, ps, parsed.opts, name);
    StepsSane(c.parser.resilient, ps, parsed.opts, map[]);
    SameNames(c, parsed, name);
  }

  // Main result: outside resilient parsing a command whose callbacks do not raise fails if and only if
  // it refuses one of its declared parameters: a value that does not convert, or a required one missing.
  lemma CommandFailsExactly(c: Declared, parsed: Parsed)
    requires !c.parser.resilient && forall d :: d in c.declared ==> Obliging(c.params(d))
    ensures RunCommand(c, parsed).failed
            <==> exists d :: d in c.declared && Refuses(c.params(d), Consume(c.params(d), parsed.opts))
  {
    hide Processing, RunParams, Refuses, Consume, Obliging;
    var ps := Processing(c, parsed);
    ProcessingElements(c, parsed);
    FailsIfRefused(ps, parsed.opts, map[]);
    if p :| p in ps && Refuses(p, Consume(p, parsed.opts)) {
      var d :| d in c.declared && c.params(d) == p;
    }
    if d :| d in c.declared && Refuses(c.params(d), Consume(c.params(d), parsed.opts)) {
      assert c.params(d) in ps;
    }
  }

  // ---------------------------------------------------------------- one parameter alone with its name

  function OrUnset(v: Option<Datum>): Datum {
    if v.Some? then v.value else Datum.Unset
  }

  lemma {:induction false} StepValue(resilient: bool, ps: seq<Param>, opts: Opts, m: Params, i: nat)
    requires i < |ps| && ps[i].callback.None? && !RunParams(resilient, ps, opts, m).failed
    ensures var steps := RunParams(resilient, ps, opts, m).steps;
            && i < |steps| && steps[i].value == OrUnset(Processed(ps[i], Consume(ps[i], opts)))
            && (!resilient ==> Processed(ps[i], Consume(ps[i], opts)).Some?)
  {
    HandledExactly(resilient, ps[0], opts, m);
    hide HandleParseResult, Refuses, Processed, Consume, CallOf;
    if i > 0 {
      StepValue(resilient, ps[1..], opts, HandleParseResult(resilient, ps[0], opts, m).params, i - 1);
    }
  }

  ghost predicate Alone(c: Declared, d: nat) {
    && d in c.declared && c.params(d).exposed && c.params(d).callback.None?
    && forall e :: e in c.declared && c.params(e).exposed && c.params(e).name == c.params(d).name ==> c.params(e) == c.params(d)
  }

  lemma OnlyWriter(ps: seq<Param>, steps: seq<Step>, p: Param, v: Datum)
    requires |steps| == |ps| && p in ps && p.exposed
    requires forall i :: 0 <= i < |ps| ==> steps[i].name == ps[i].name && steps[i].exposed == ps[i].exposed
    requires forall i :: 0 <= i < |ps| && ps[i].exposed && ps[i].name == p.name ==> steps[i].value == v
    ensures Promised(steps, p.name) == Shown(v)
    ensures !Disturbed(steps, p.name) || Promised(steps, p.name).Null?
  {
    var i :| 0 <= i < |ps| && ps[i] == p;
    assert Writes(steps[i], p.name);
  }

  // Main result: a parameter without callback that has its name to itself, and whose name no callback
  // rewrites, ends with its own processed value: what the parser stored for it, or else its fallback,
  // converted; None if there is neither, or if resilient parsing swallows that it fails.
  lemma AloneKeepsValue(c: Declared, args: seq<string>, d: nat)
    requires ParseArgs(c.parser, args).Ok? && OD.NoDup(c.declared)
    requires Alone(c, d) && Spared(c, c.params(d).name)
    requires !RunCommand(c, ParseArgs(c.parser, args).value).failed
    ensures var parsed := ParseArgs(c.parser, args).value;
            var p := c.params(d);
            var v := Processed(p, Consume(p, parsed.opts));
            && (!c.parser.resilient ==> v.Some?)
            && Lookup(Masked(RunCommand(c, parsed).params), p.name) == Some(Shown(OrUnset(v)))
  {
    hide RunParams, Promised, Disturbed, Spared, ParseArgs, Carries, Processed, PO.Sorted, PO.ProcessingOrder, Refs, FirstSet, Masked, OrUnset;
    var parsed, p := ParseArgs(c.parser, args).value, c.params(d);
    var ps, r := Processing(c, parsed), RunCommand(c, parsed);
    WholeParse(c, args, p.name);
    ProcessingElements(c, parsed);
    StepsSane(c.parser.resilient, ps, parsed.opts, map[]);
    var k :| 0 <= k < |ps| && ps[k] == p;
    StepValue(c.parser.resilient, ps, parsed.opts, map[], k);
    var v := OrUnset(Processed(p, Consume(p, parsed.opts)));
    forall i | 0 <= i < |ps| && ps[i].exposed && ps[i].name == p.name ensures r.steps[i].value == v {
      assert ps[i] in ps;
      assert ps[i] == p;
      StepValue(c.parser.resilient, ps, parsed.opts, map[], i);
    }
    OnlyWriter(ps, r.steps, p, v);
    assert Exposes(c, p.name);
  }

  // What the parser stores for a declared argument comes from the argument's own slot.
  lemma SlotStored(C: Config, args: seq<string>, j: nat)
    requires j < |C.args| && Last(C.args, j) && ParseState(C, args).raised.None?
    ensures var loop, opts := OptionLoop(C, Start(args)).st, ParseArgs(C, args).value.opts;
            var split := Split(loop.largs + loop.rargs, NonZero(NargsSpec(C.args)));
            && split.Ok? && j < |split.value.slots| && C.args[j].dest in opts
            && ArgumentValue(C.args[j], split.value.slots[j]) == Ok(opts[C.args[j].dest])
  {
    hide OptionLoop, Split, ProcessArguments, ArgumentValue, NonZero;
    var loop := OptionLoop(C, Start(args)).st;
    var u := Split(loop.largs + loop.rargs, NonZero(NargsSpec(C.args))).value;
    ProcessArgumentsStores(C.args, u.slots, 0, loop, j);
  }

  // Main result: a positional argument alone with its name ends with what the split of the command
  // line's positionals gave it, read and converted, or with its fallback if it got nothing.
  lemma ArgumentReaches(c: Declared, args: seq<string>, d: nat, j: nat)
    requires ParseState(c.parser, args).raised.None? && OD.NoDup(c.declared)
    requires Alone(c, d) && Spared(c, c.params(d).name)
    requires !RunCommand(c, ParseArgs(c.parser, args).value).failed
    requires j < |c.parser.args| && Last(c.parser.args, j) && c.parser.args[j].dest == c.params(d).name
    ensures var p, loop := c.params(d), OptionLoop(c.parser, Start(args)).st;
            var split := Split(loop.largs + loop.rargs, NonZero(NargsSpec(c.parser.args)));
            && split.Ok? && j < |split.value.slots|
            && var slot := ArgumentValue(c.parser.args[j], split.value.slots[j]);
               && slot.Ok?
               && var v := Processed(p, if slot.value.Unset? then p.fallback else p.read(slot.value));
                  && (!c.parser.resilient ==> v.Some?)
                  && Lookup(Masked(RunCommand(c, ParseArgs(c.parser, args).value).params), p.name) == Some(Shown(OrUnset(v)))
  {
    hide OptionLoop, Split, ArgumentPhase, ArgumentValue, NonZero, Processed, Spared, RunCommand, Masked, OrUnset;
    SlotStored(c.parser, args, j);
    AloneKeepsValue(c, args, d);
  }

  // ---------------------------------------------------------------- from a written line

  // What a written line supplies for a parameter: the share of its argument, what the uses of its
  // option show, or nothing.
  ghost function Supplied(P: Config, items: seq<CL.Item>, pieces: seq<seq<string>>, name: string): Value
    requires |pieces| == |P.args|
  {
    if j: nat :| j < |P.args| && P.args[j].dest == name && Last(P.args, j) then CL.Filled(P.args[j].nargs, pieces[j])
    else if u :| u in items && CL.UsesOf(P, u, name) then
      var given := CL.AllGiven(P, items, name);
      if given == [] then Value.Unset else CL.Held(CL.KindOf(CL.OptionOf(P, u.name)), given)
    else Value.Unset
  }

  // Main result, from end to end: a parameter alone with its name ends, once its line was written and
  // parsed, with what the line supplies for it, read and converted, or with its fallback.
  lemma LineReaches(c: Declared, items: seq<CL.Item>, end: CL.End, pieces: seq<seq<string>>, over: seq<string>, d: nat)
    requires Valid(c.parser) && CL.WellFormed(c.parser, items, end) && CL.Agreeing(c.parser, items)
    requires CL.Shared(NargsSpec(c.parser.args), pieces, over) && CL.WordsOf(items) + CL.EndWords(end) == Concat(pieces) + over
    requires OD.NoDup(c.declared) && Alone(c, d) && Spared(c, c.params(d).name)
    requires var parsed := ParseArgs(c.parser, CL.Line(items, end)); parsed.Ok? && !RunCommand(c, parsed.value).failed
    ensures var p, supplied := c.params(d), Supplied(c.parser, items, pieces, c.params(d).name);
            var v := Processed(p, if supplied.Unset? then p.fallback else p.read(supplied));
            && (!c.parser.resilient ==> v.Some?)
            && Lookup(Masked(RunCommand(c, ParseArgs(c.parser, CL.Line(items, end)).value).params), p.name) == Some(Shown(OrUnset(v)))
  {
    assert |pieces| == |c.parser.args|;
    hide ParseArgs, Spared, RunCommand, Masked, OrUnset, Processed, Alone, Supplied, Concat, Valid, OD.NoDup;
    hide CL.WellFormed, CL.Agreeing, CL.Shared, CL.Line, CL.WordsOf, CL.Tells;
    CL.ParsesBack(c.parser, items, end, pieces, over);
    AloneKeepsValue(c, CL.Line(items, end), d);
    var parsed, name := ParseArgs(c.parser, CL.Line(items, end)).value, c.params(d).name;
    SuppliedShown(c.parser, items, pieces, parsed.opts, name);
  }

  lemma SuppliedShown(P: Config, items: seq<CL.Item>, pieces: seq<seq<string>>, opts: Opts, name: string)
    requires |pieces| == |P.args| && CL.Tells(P, items, pieces, opts)
    ensures Supplied(P, items, pieces, name) == if name in opts then opts[name] else Value.Unset
  {
    hide CL.Held, CL.KindOf, CL.Filled, CL.OptionOf, CL.Named;
    if CL.IsArgument(P.args, name) {
      LastArgument(P.args, name);
    } else if CL.AllGiven(P, items, name) != [] {
      CL.SomeUse(P, items, name);
    }
  }

  lemma LastArgument(args: seq<Arg>, name: string)
    requires CL.IsArgument(args, name)
    ensures exists j: nat :: j < |args| && args[j].dest == name && Last(args, j)
    decreases |args|
  {
    var n := |args| - 1;
    if args[n].dest != name {
      LastArgument(args[..n], name);
      var j: nat :| j < n && args[..n][j].dest == name && Last(args[..n], j);
      assert forall m :: j < m < n ==> args[..n][m] == args[m];
      assert Last(args, j);
    } else {
      assert Last(args, n);
    }
  }

  // ---------------------------------------------------------------- where the promise fails

  function Plain(name: string, value: Datum): Param {
    Param(name, true, false, 1, false, false, _ => value, value, v => Some(v), None)
  }

  // In resilient parsing a callback that raises leaves the hidden names as None, so a later writer
  // of such a name is taken for a competitor and its value is dropped.
  lemma RaisingCallbackLosesValue()
    ensures var x := Plain("x", Datum.Unset);
            var y := Plain("y", Obj(1)).(callback := Some((m: Params, v: Datum) => Raised(m)));
            var z := Plain("x", Obj(2));
            var r := RunParams(true, [x, y, z], map[], map[]);
            && Quiet(x) && Quiet(y) && Quiet(z) && !r.failed
            && Promised(r.steps, "x") == Obj(2) && Lookup(Masked(r.params), "x") == Some(Null)
  {
    var x := Plain("x", Datum.Unset);
    var y := Plain("y", Obj(1)).(callback := Some((m: Params, v: Datum) => Raised(m)));
    var z := Plain("x", Obj(2));
    var m1, m2 := map["x" := Datum.Unset], map["x" := Null, "y" := Datum.Unset];
    hide RunParams, HandleParseResult, StepOf, FirstSet;
    RunThree(x, y, z, m1, m2, m2);
    SecondWins([StepOf(x, map[], map[], Datum.Unset), StepOf(y, map[], m1, Datum.Unset), StepOf(z, map[], m2, Obj(2))]);
  }

  lemma RunThree(x: Param, y: Param, z: Param, m1: Params, m2: Params, m3: Params)
    requires HandleParseResult(true, x, map[], map[]).Done? && HandleParseResult(true, x, map[], map[]).params == m1
    requires HandleParseResult(true, y, map[], m1).Done? && HandleParseResult(true, y, map[], m1).params == m2
    requires HandleParseResult(true, z, map[], m2).Done? && HandleParseResult(true, z, map[], m2).params == m3
    ensures var u, v, w := HandleParseResult(true, x, map[], map[]).value, HandleParseResult(true, y, map[], m1).value, HandleParseResult(true, z, map[], m2).value;
            RunParams(true, [x, y, z], map[], map[])
              == Ran(m3, [StepOf(x, map[], map[], u), StepOf(y, map[], m1, v), StepOf(z, map[], m2, w)], false)
  {
    hide RunParams, HandleParseResult, StepOf;
    RunNone(m3);
    RunCons(z, [], m2);
    RunCons(y, [z], m1);
    RunCons(x, [y, z], map[]);
    assert [z] + [] == [z] && [x] + [y, z] == [x, y, z] && [y] + [z] == [y, z];
  }

  lemma SecondWins(steps: seq<Step>)
    requires |steps| == 3 && !Sets(steps[0], "x") && !Sets(steps[1], "x") && Sets(steps[2], "x")
    ensures FirstSet(steps, "x") == 2
  {
  }

  lemma RunNone(m: Params)
    ensures RunParams(true, [], map[], m) == Ran(m, [], false)
  {
  }

  lemma RunCons(p: Param, ps: seq<Param>, m: Params)
    requires HandleParseResult(true, p, map[], m).Done?
    ensures var h := HandleParseResult(true, p, map[], m);
            var r := RunParams(true, ps, map[], h.params);
            RunParams(true, [p] + ps, map[], m) == r.(steps := [StepOf(p, map[], m, h.value)] + r.steps)
  {
    assert ([p] + ps)[1..] == ps;
  }
}
