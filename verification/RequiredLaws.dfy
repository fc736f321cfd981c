/** Which parameters a command refuses, and what value it takes from the others: conversion, required
    values, flags. */
module RequiredLaws {
  import opened CliValues
  import opened Arbitration

  // A parameter with several values shows none as the empty tuple.
  predicate Several(p: Param) {
    p.multiple || p.nargs == -1
  }

  // What a required parameter may not end with.
  predicate Blank(p: Param, w: Datum) {
    w.Unset? || (w.Empty? && (p.multiple || p.nargs != 1))
  }

  // The command refuses the value that command line and fallback supply: there is none although one is
  // required, it does not convert, or it converts to nothing.
  predicate Refuses(p: Param, v: Datum) {
    if v.Unset? then p.required
    else if v.Null? then p.required && Several(p)
    else match p.convert(v)
         case None => true
         case Some(w) => p.required && Blank(p, w)
  }

  // The value a parameter is processed to, before its callback; None where it is refused.
  function Processed(p: Param, v: Datum): Option<Datum> {
    if Refuses(p, v) then None
    else if v.Unset? && p.boolFlag then Some(False)
    else if v.Unset? then Some(if Several(p) then Empty else Datum.Unset)
    else if v.Null? then Some(if Several(p) then Empty else Null)
    else p.convert(v)
  }

  lemma ProcessedBy(p: Param, v: Datum)
    ensures !Refuses(p, v) <==> AnswersItself(p, v) || Prepared(p, v).Some?
    ensures Processed(p, v) == if AnswersItself(p, v) then Some(False) else Prepared(p, v)
    ensures p.required && Processed(p, v).Some? ==> !Blank(p, Processed(p, v).value)
  {
  }

  // Nothing was given for the parameter, and it has no fallback.
  predicate NothingGiven(p: Param, opts: Opts) {
    p.fallback.Unset? && (p.name !in opts || opts[p.name].Unset?)
  }

  // ---------------------------------------------------------------- one parameter

  lemma HandledExactly(resilient: bool, p: Param, opts: Opts, m: Params)
    ensures var h, v, s := HandleParseResult(resilient, p, opts, m), Consume(p, opts), StepOf(p, opts, m, Datum.Unset);
            && (Processed(p, v).None? <==> Refuses(p, v))
            && (s.call.Some? <==> p.callback.Some? && !Refuses(p, v))
            && (s.call.Some? && p.required ==> !Blank(p, s.call.value.arg))
            && (h.Failed? <==> !resilient && (Refuses(p, v) || (s.call.Some? && s.call.value.raised)))
            && (h.Done? && p.callback.None? ==> h.value == if Refuses(p, v) then Datum.Unset else Processed(p, v).value)
  {
    ProcessedBy(p, Consume(p, opts));
    hide Refuses, Processed, Prepared, AnswersItself, Consume;
  }

  // What a step with a callback comes to: the callback is given the processed value, with None for the
  // sentinel, and its answer is the step's value; nothing is left of a value that is refused, or where
  // the callback raises.
  ghost predicate Answered(p: Param, opts: Opts, s: Step) {
    var v := Consume(p, opts);
    if Refuses(p, v) then s.call.None? && s.value.Unset?
    else
      && s.call.Some? && s.call.value.arg == Shown(Processed(p, v).value)
      && p.callback.Some?
      && var reply := p.callback.value(s.call.value.shown, s.call.value.arg);
         && s.call.value.left == reply.params && s.call.value.raised == reply.Raised?
         && s.value == if reply.Returned? then reply.value else Datum.Unset
  }

  lemma HandledAnswers(resilient: bool, p: Param, opts: Opts, m: Params)
    requires p.callback.Some? && HandleParseResult(resilient, p, opts, m).Done?
    ensures Answered(p, opts, StepOf(p, opts, m, HandleParseResult(resilient, p, opts, m).value))
  {
    ProcessedBy(p, Consume(p, opts));
    hide Refuses, Processed, Prepared, Consume;
  }

  // ---------------------------------------------------------------- whole runs

  // Main result: outside resilient parsing a run fails exactly at its last step, because the parameter is
  // refused or because its callback raises; a run that does not fail has taken every parameter.
  lemma {:induction false} FailsExactly(ps: seq<Param>, opts: Opts, m: Params)
    ensures var r := RunParams(false, ps, opts, m);
            && |r.steps| <= |ps| && (!r.failed ==> |r.steps| == |ps|) && (r.failed ==> r.steps != [])
            && forall i :: 0 <= i < |r.steps| ==>
                 ((r.failed && i == |r.steps| - 1) <==>
                  Refuses(ps[i], Consume(ps[i], opts)) || (r.steps[i].call.Some? && r.steps[i].call.value.raised))
  {
    hide HandleParseResult, Refuses, Consume, CallOf;
    if ps != [] {
      HandledExactly(false, ps[0], opts, m);
      var h := HandleParseResult(false, ps[0], opts, m);
      if h.Done? {
        FailsExactly(ps[1..], opts, h.params);
      }
    }
  }

  lemma {:induction false} ResilientNeverFails(ps: seq<Param>, opts: Opts, m: Params)
    ensures !RunParams(true, ps, opts, m).failed && |RunParams(true, ps, opts, m).steps| == |ps|
  {
    hide HandleParseResult;
    if ps != [] {
      HandledExactly(true, ps[0], opts, m);
      ResilientNeverFails(ps[1..], opts, HandleParseResult(true, ps[0], opts, m).params);
    }
  }

  // A callback that never raises.
  ghost predicate Obliging(p: Param) {
    p.callback.Some? ==> forall m: Params, v: Datum :: p.callback.value(m, v).Returned?
  }

  // Main result: so with callbacks that do not raise, or none, a parse fails if and only if some
  // parameter is refused, whatever the order of processing.
  lemma FailsIfRefused(ps: seq<Param>, opts: Opts, m: Params)
    requires forall p :: p in ps ==> Obliging(p)
    ensures RunParams(false, ps, opts, m).failed <==> exists p :: p in ps && Refuses(p, Consume(p, opts))
  {
    hide Refuses, Consume;
    var r := RunParams(false, ps, opts, m);
    FailsExactly(ps, opts, m);
    ObligingCalls(false, ps, opts, m);
    if r.failed {
      var i := |r.steps| - 1;
      assert ps[i] in ps && Refuses(ps[i], Consume(ps[i], opts));
    }
  }

  lemma {:induction false} ObligingCalls(resilient: bool, ps: seq<Param>, opts: Opts, m: Params)
    requires forall p :: p in ps ==> Obliging(p)
    ensures forall s :: s in RunParams(resilient, ps, opts, m).steps ==> s.call.Some? ==> !s.call.value.raised
  {
    hide HandleParseResult, Consume, Prepared, AnswersItself, Given;
    if ps != [] {
      assert ps[0] in ps;
      var h := HandleParseResult(resilient, ps[0], opts, m);
      if h.Done? {
        ObligingCalls(resilient, ps[1..], opts, h.params);
      }
    }
  }

  // Main result: in a run that has not failed every required parameter has a value: what its step ends
  // with, or what its callback was given.
  lemma {:induction false} RequiredHaveValues(ps: seq<Param>, opts: Opts, m: Params, i: nat)
    requires !RunParams(false, ps, opts, m).failed && i < |ps| && ps[i].required
    ensures var steps := RunParams(false, ps, opts, m).steps;
            && i < |steps|
            && (ps[i].callback.None? ==> !steps[i].value.Unset? && (steps[i].value.Empty? ==> ps[i].nargs == 1 && !ps[i].multiple))
            && (ps[i].callback.Some? ==>
                  && steps[i].call.Some? && !steps[i].call.value.arg.Unset?
                  && (steps[i].call.value.arg.Empty? ==> ps[i].nargs == 1 && !ps[i].multiple))
  {
    HandledExactly(false, ps[0], opts, m);
    ProcessedBy(ps[0], Consume(ps[0], opts));
    hide HandleParseResult, Refuses, Processed, Consume, CallOf;
    if i > 0 {
      RequiredHaveValues(ps[1..], opts, HandleParseResult(false, ps[0], opts, m).params, i - 1);
    }
  }

  // Main result: conversely a run fails where a required parameter was given nothing.
  lemma MissingFails(ps: seq<Param>, opts: Opts, m: Params, p: Param)
    requires p in ps && p.required && NothingGiven(p, opts)
    ensures RunParams(false, ps, opts, m).failed
  {
    assert Refuses(p, Consume(p, opts));
    hide Refuses, Consume;
    FailsExactly(ps, opts, m);
    var i :| 0 <= i < |ps| && ps[i] == p;
  }

  // Main result: in a run that does not fail, resilient or not, every callback is asked with the
  // processed value of its own parameter, and its answer is what the parameter's step has.
  lemma {:induction false} CallbacksAnswer(resilient: bool, ps: seq<Param>, opts: Opts, m: Params, i: nat)
    requires !RunParams(resilient, ps, opts, m).failed && i < |ps| && ps[i].callback.Some?
    ensures i < |RunParams(resilient, ps, opts, m).steps| && Answered(ps[i], opts, RunParams(resilient, ps, opts, m).steps[i])
  {
    hide HandleParseResult, Answered, StepOf;
    var h := HandleParseResult(resilient, ps[0], opts, m);
    if i == 0 {
      HandledAnswers(resilient, ps[0], opts, m);
    } else {
      CallbacksAnswer(resilient, ps[1..], opts, h.params, i - 1);
    }
  }
}
