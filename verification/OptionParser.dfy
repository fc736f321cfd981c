/** The parser's objects: `_ParsingState`, updated in place, and `_OptionParser`, which updates it.
    Each method is proved to compute the corresponding function of module Parser. */
module OptionParserObjects {
  import opened CliValues
  import opened Unpack
  import opened Parser
  import ParserLaws

  class ParsingState {
    var opts: map<string, Value>
    var largs: seq<string>
    var rargs: seq<string>
    var order: seq<nat>

    constructor (rargs: seq<string>)
      ensures View() == Start(rargs)
    {
      this.opts, this.largs, this.rargs, this.order := map[], [], rargs, [];
    }

    function View(): State
      reads this
    {
      State(opts, largs, rargs, order)
    }
  }

  class OptionParser {
    var shortOpt: map<string, Opt>
    var longOpt: map<string, Opt>
    var prefixes: set<string>
    var args: seq<Arg>
    var interspersed: bool
    var ignoreUnknown: bool
    var resilient: bool

    function View(): Config
      reads this
    {
      Config(shortOpt, longOpt, prefixes, args, interspersed, ignoreUnknown, resilient)
    }

    constructor (interspersed: bool, ignoreUnknown: bool, resilient: bool)
      ensures View() == NewParser(interspersed, ignoreUnknown, resilient) && Valid(View())
    {
      shortOpt, longOpt, prefixes, args := map[], map[], {"-", "--"}, [];
      this.interspersed, this.ignoreUnknown, this.resilient := interspersed, ignoreUnknown, resilient;
    }

    // False is Python's ValueError; nothing has then been registered.
    method AddOption(names: seq<string>, o: Opt) returns (ok: bool)
      modifies this
      ensures ok == Parser.AddOption(old(View()), names, o).Some?
      ensures View() == if ok then Parser.AddOption(old(View()), names, o).value else old(View())
      ensures old(Valid(View())) ==> Valid(View())
    {
      ghost var before := View();
      for k := 0 to |names|
        invariant View() == before
        invariant forall n :: n in names[..k] ==> SplitOpt(n).0 != ""
      {
        if SplitOpt(names[k]).0 == "" {
          return false;
        }
        assert names[..k + 1] == names[..k] + [names[k]];
      }
      assert names[..|names|] == names;
      for k := 0 to |names|
        invariant Register(View(), names[k..], o) == Register(before, names, o)
        invariant View().(shortOpt := map[], longOpt := map[], prefixes := {}) == before.(shortOpt := map[], longOpt := map[], prefixes := {})
      {
        var prefix := SplitOpt(names[k]).0;
        assert names[k] in names && names[k..][1..] == names[k + 1..] && names[k..][0] == names[k];
        if IsShortName(names[k]) {
          shortOpt := shortOpt[names[k] := o];
          prefixes := prefixes + {prefix[..1]};
        } else {
          longOpt := longOpt[names[k] := o];
          prefixes := prefixes + {prefix[..1], prefix};
        }
      }
      assert names[|names|..] == [];
      if Valid(before) {
        ParserLaws.RegisterValid(before, names, o);
      }
      return true;
    }

    method AddArgument(a: Arg)
      modifies this
      ensures View() == Parser.AddArgument(old(View()), a)
      ensures old(Valid(View())) ==> Valid(View())
    {
      args := args + [a];
    }

    // `_Option.process`
    method Process(o: Opt, value: Value, state: ParsingState) returns (err: Option<Error>)
      modifies state
      ensures Outcome(state.View(), err) == ProcessOption(o, value, old(state.View()))
    {
      var prior := if o.dest in state.opts then Some(state.opts[o.dest]) else None;
      var next: Option<Value>;
      match o.action {
        case Store => next := Some(value);
        case StoreConst => next := Some(o.constant);
        case Append => next := Appended(prior, value);
        case AppendConst => next := Appended(prior, o.constant);
        case Count =>
          next := match prior case None => Some(Number(1)) case Some(Number(n)) => Some(Number(n + 1)) case _ => None;
      }
      if next.None? {
        return Some(if o.action.Count? then TypeError else AttributeError);
      }
      state.opts := state.opts[o.dest := next.value];
      state.order := state.order + [o.obj];
      return None;
    }

    method GetValueFromState(name: string, o: Opt, state: ParsingState) returns (r: Result<Value, Error>)
      modifies state
      ensures match FetchValue(View(), o, old(state.rargs))
              case Missing => r == Err(OptionNeedsValue(name, o.nargs)) && state.View() == old(state.View())
              case Got(v, rest) => r == Ok(v) && state.View() == old(state.View()).(rargs := rest)
    {
      if |state.rargs| < o.nargs {
        return if o.flagNeedsValue then Ok(FlagNeedsValue) else Err(OptionNeedsValue(name, o.nargs));
      } else if o.nargs == 1 {
        var next := state.rargs[0];
        if o.flagNeedsValue && |next| > 1 && next[..1] in prefixes {
          return Ok(FlagNeedsValue);
        }
        state.rargs := state.rargs[1..];
        return Ok(Text(next));
      } else {
        var k := SliceEnd(o.nargs, |state.rargs|);
        var taken := state.rargs[..k];
        state.rargs := state.rargs[k..];
        return Ok(Tuple(Texts(taken)));
      }
    }

    method TakeAndProcess(name: string, o: Opt, state: ParsingState) returns (err: Option<Error>)
      modifies state
      ensures Outcome(state.View(), err) == TakeValue(View(), name, o, old(state.View()))
    {
      var v := GetValueFromState(name, o, state);
      if v.Err? {
        return Some(v.error);
      }
      err := Process(o, v.value, state);
    }

    method MatchLongOpt(name: string, explicit: Option<string>, state: ParsingState) returns (err: Option<Error>)
      modifies state
      ensures name !in longOpt ==> err == Some(NoSuchOption(name)) && state.View() == old(state.View())
      ensures name in longOpt ==> Outcome(state.View(), err) == MatchLong(View(), name, explicit, old(state.View()))
    {
      if name !in longOpt {
        return Some(NoSuchOption(name));
      }
      var o := longOpt[name];
      if o.TakesValue() {
        if explicit.Some? {
          state.rargs := [explicit.value] + state.rargs;
        }
        err := TakeAndProcess(name, o, state);
      } else if explicit.Some? {
        err := Some(OptionTakesNoValue(name));
      } else {
        err := Process(o, Unset, state);
      }
    }

    method MatchShortOpt(arg: string, state: ParsingState) returns (err: Option<Error>)
      requires arg != ""
      modifies state
      ensures Outcome(state.View(), err) == MatchShort(View(), arg, 1, "", old(state.View()))
    {
      var stop, i, unknown := false, 1, "";
      ghost var start := state.View();
      while i < |arg| && !stop
        invariant 1 <= i <= |arg|
        invariant !stop ==> MatchShort(View(), arg, i, unknown, state.View()) == MatchShort(View(), arg, 1, "", start)
        invariant stop ==> Fine(ReportUnknown(View(), arg, unknown, state.View())) == MatchShort(View(), arg, 1, "", start)
        decreases |arg| - i, !stop
      {
        var name := [arg[0], arg[i]];
        i := i + 1;
        if name !in shortOpt {
          if !ignoreUnknown {
            return Some(NoSuchOption(name));
          }
          unknown := unknown + [arg[i - 1]];
        } else {
          var o := shortOpt[name];
          if o.TakesValue() {
            if i < |arg| {
              state.rargs := [arg[i..]] + state.rargs;
              stop := true;
            }
            err := TakeAndProcess(name, o, state);
          } else {
            err := Process(o, Unset, state);
          }
          if err.Some? {
            return;
          }
        }
      }
      if ignoreUnknown && unknown != "" {
        state.largs := state.largs + [[arg[0]] + unknown];
      }
      err := None;
    }

    method ProcessOpts(arg: string, state: ParsingState) returns (err: Option<Error>)
      requires |arg| > 1
      modifies state
      ensures Outcome(state.View(), err) == Parser.ProcessOpts(View(), arg, old(state.View()))
    {
      err := MatchLongOpt(LongName(arg), Explicit(arg), state);
      if LongName(arg) !in longOpt {
        if arg[..2] !in prefixes {
          err := MatchShortOpt(arg, state);
        } else if ignoreUnknown {
          state.largs := state.largs + [arg];
          err := None;
        }
      }
    }

    method ProcessArgsForOptions(state: ParsingState) returns (err: Option<Error>)
      modifies state
      ensures Outcome(state.View(), err) == OptionLoop(View(), old(state.View()))
    {
      ghost var start := state.View();
      while state.rargs != []
        invariant OptionLoop(View(), state.View()) == OptionLoop(View(), start)
        decreases Weight(state.rargs)
      {
        StepWeight(View(), state.View());
        var arg := state.rargs[0];
        ghost var before := state.View();
        state.rargs := state.rargs[1..];
        if arg == "--" {
          return None;
        } else if arg != "" && arg[..1] in prefixes && |arg| > 1 {
          err := ProcessOpts(arg, state);
          if err.Some? {
            return;
          }
        } else if interspersed {
          state.largs := state.largs + [arg];
        } else {
          state.rargs := [arg] + state.rargs;
          assert state.View() == before;
          return None;
        }
      }
      err := None;
    }

    method ProcessArgsForArgs(state: ParsingState) returns (err: Option<Error>)
      modifies state
      ensures Outcome(state.View(), err) == ArgumentPhase(View(), old(state.View()))
    {
      var u := UnpackArgs(state.largs + state.rargs, NargsSpec(args));
      if u.Err? {
        return Some(u.error);
      }
      ghost var start := state.View();
      var slots := u.value.slots;
      for i := 0 to |args|
        invariant ProcessArguments(args, slots, i, state.View()) == ProcessArguments(args, slots, 0, start)
      {
        if i >= |slots| {
          return Some(IndexError);
        }
        var v := ArgumentValue(args[i], slots[i]);
        if v.Err? {
          return Some(v.error);
        }
        state.opts := state.opts[args[i].dest := v.value];
        state.order := state.order + [args[i].obj];
      }
      state.largs, state.rargs := u.value.rest, [];
      err := None;
    }

    method ParseArgs(arguments: seq<string>) returns (r: Result<Parsed, Error>)
      ensures r == Parser.ParseArgs(View(), arguments)
    {
      var state := new ParsingState(arguments);
      var err := ProcessArgsForOptions(state);
      if err.None? {
        err := ProcessArgsForArgs(state);
      }
      if err.Some? && !(err.value.IsUsageError() && resilient) {
        return Err(err.value);
      }
      return Ok(Parsed(state.opts, state.largs, state.order));
    }
  }
}
