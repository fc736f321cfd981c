/** click's option parser: `_OptionParser`, as functions from parsing state to parsing state.
    The methods of the classes in OptionParser.dfy are proved to compute these functions. */
module Parser {
  import opened CliValues
  import opened Subsequences
  import opened Unpack

  // ---------------------------------------------------------------- declarations

  datatype Action = Store | StoreConst | Append | AppendConst | Count

  /** `_Option`: `obj` stands for the identity of the declared parameter. */
  datatype Opt = Opt(obj: nat, dest: string, action: Action, nargs: int, constant: Value, flagNeedsValue: bool)
  {
    predicate TakesValue() { action.Store? || action.Append? }
  }

  /** `_Argument`. */
  datatype Arg = Arg(obj: nat, dest: string, nargs: int)

  /** The fields of `_OptionParser`. */
  datatype Config = Config(
    shortOpt: map<string, Opt>,
    longOpt: map<string, Opt>,
    prefixes: set<string>,
    args: seq<Arg>,
    interspersed: bool,
    ignoreUnknown: bool,
    resilient: bool)

  /** `_ParsingState`. */
  datatype State = State(opts: map<string, Value>, largs: seq<string>, rargs: seq<string>, order: seq<nat>)

  /** The state a call leaves behind, and what it raised, if anything. */
  datatype Outcome = Outcome(st: State, raised: Option<Error>)

  function Start(args: seq<string>): State {
    State(map[], [], args, [])
  }

  function Fine(st: State): Outcome { Outcome(st, None) }

  function Raise(st: State, e: Error): Outcome { Outcome(st, Some(e)) }

  // ---------------------------------------------------------------- registration

  predicate IsAlnum(c: char) {
    'a' <= c <= 'z' || 'A' <= c <= 'Z' || '0' <= c <= '9'
  }

  // Prefix and remainder of an option name.
  function SplitOpt(opt: string): (r: (string, string))
    ensures r.0 + r.1 == opt && |r.0| <= 2
    ensures r.0 == "" <==> opt == "" || IsAlnum(opt[0])
    ensures |r.0| == 2 ==> r.0[0] == r.0[1]
    ensures |r.0| == 1 && r.1 != "" ==> r.1[0] != r.0[0]
  {
    if opt == [] then ("", "")
    else if IsAlnum(opt[0]) then ("", opt)
    else if |opt| > 1 && opt[1] == opt[0] then (opt[..2], opt[2..])
    else (opt[..1], opt[1..])
  }

  predicate IsShortName(opt: string) {
    var (prefix, value) := SplitOpt(opt);
    |prefix| == 1 && |value| == 1
  }

  function NewParser(interspersed: bool, ignoreUnknown: bool, resilient: bool): Config {
    Config(map[], map[], {"-", "--"}, [], interspersed, ignoreUnknown, resilient)
  }

  // None when a name starts with a letter or digit, or is empty: Python's ValueError.
  function AddOption(P: Config, names: seq<string>, o: Opt): Option<Config> {
    if exists n :: n in names && SplitOpt(n).0 == "" then None
    else Some(Register(P, names, o))
  }

  function Register(P: Config, names: seq<string>, o: Opt): Config
    requires forall n :: n in names ==> SplitOpt(n).0 != ""
    decreases |names|
  {
    if names == [] then P
    else
      var name, prefix := names[0], SplitOpt(names[0]).0;
      var Q := if IsShortName(name)
               then P.(shortOpt := P.shortOpt[name := o], prefixes := P.prefixes + {prefix[..1]})
               else P.(longOpt := P.longOpt[name := o], prefixes := P.prefixes + {prefix[..1], prefix});
      Register(Q, names[1..], o)
  }

  function AddArgument(P: Config, a: Arg): Config {
    P.(args := P.args + [a])
  }

  // What registration guarantees about the tables.
  ghost predicate Valid(P: Config) {
    && "-" in P.prefixes && "--" in P.prefixes
    && (forall p :: p in P.prefixes ==> |p| == 1 || (|p| == 2 && p[0] == p[1]))
    && (forall n :: n in P.shortOpt ==> IsShortName(n) && n[..1] in P.prefixes)
    && (forall n :: n in P.longOpt ==> n != "" && n[..1] in P.prefixes && !IsShortName(n))
  }

  // ---------------------------------------------------------------- options

  // `_Option.process`.
  function ProcessOption(o: Opt, value: Value, st: State): Outcome {
    var prior := if o.dest in st.opts then Some(st.opts[o.dest]) else None;
    var next: Option<Value> :=
      match o.action
      case Store => Some(value)
      case StoreConst => Some(o.constant)
      case Append => Appended(prior, value)
      case AppendConst => Appended(prior, o.constant)
      case Count =>
        if prior.None? then Some(Number(1))
        else if prior.value.Number? then Some(Number(prior.value.n + 1)) else None;
    if next.None? then Raise(st, if o.action.Count? then TypeError else AttributeError)
    else Fine(st.(opts := st.opts[o.dest := next.value], order := st.order + [o.obj]))
  }

  function Appended(prior: Option<Value>, v: Value): Option<Value> {
    if prior.None? then Some(List([v]))
    else if prior.value.List? then Some(List(prior.value.items + [v]))
    else None
  }

  predicate LooksLikeOption(P: Config, token: string) {
    |token| > 1 && token[..1] in P.prefixes
  }

  // Where Python's slice `[:n]` ends.
  function SliceEnd(n: int, length: nat): (k: nat)
    ensures k <= length
  {
    if n >= length then length else if n >= 0 then n else if length + n >= 0 then length + n else 0
  }

  datatype Fetched = Got(value: Value, rest: seq<string>) | Missing

  // `_get_value_from_state`.
  function FetchValue(P: Config, o: Opt, rargs: seq<string>): Fetched {
    if |rargs| < o.nargs then
      if o.flagNeedsValue then Got(FlagNeedsValue, rargs) else Missing
    else if o.nargs == 1 then
      if o.flagNeedsValue && LooksLikeOption(P, rargs[0]) then Got(FlagNeedsValue, rargs)
      else Got(Text(rargs[0]), rargs[1..])
    else
      var k := SliceEnd(o.nargs, |rargs|);
      Got(Tuple(Texts(rargs[..k])), rargs[k..])
  }

  // Fetch the value of a value-taking option and process it.
  function TakeValue(P: Config, name: string, o: Opt, st: State): Outcome {
    match FetchValue(P, o, st.rargs)
    case Missing => Raise(st, OptionNeedsValue(name, o.nargs))
    case Got(value, rest) => ProcessOption(o, value, st.(rargs := rest))
  }

  // `_match_long_opt`, for a name that is registered.
  function MatchLong(P: Config, name: string, explicit: Option<string>, st: State): Outcome
    requires name in P.longOpt
  {
    var o := P.longOpt[name];
    if o.TakesValue() then
      TakeValue(P, name, o, if explicit.Some? then st.(rargs := [explicit.value] + st.rargs) else st)
    else if explicit.Some? then Raise(st, OptionTakesNoValue(name))
    else ProcessOption(o, Unset, st)
  }

  // The letters of a cluster, from index i on, with the unknown letters met so far.
  function MatchShort(P: Config, arg: string, i: nat, unknown: string, st: State): Outcome
    requires 1 <= i <= |arg|
    decreases |arg| - i
  {
    if i == |arg| then Fine(ReportUnknown(P, arg, unknown, st))
    else
      var name := [arg[0], arg[i]];
      if name !in P.shortOpt then
        if P.ignoreUnknown then MatchShort(P, arg, i + 1, unknown + [arg[i]], st)
        else Raise(st, NoSuchOption(name))
      else
        var o := P.shortOpt[name];
        if !o.TakesValue() then
          var r := ProcessOption(o, Unset, st);
          if r.raised.Some? then r else MatchShort(P, arg, i + 1, unknown, r.st)
        else if i + 1 < |arg| then
          var r := TakeValue(P, name, o, st.(rargs := [arg[i + 1..]] + st.rargs));
          if r.raised.Some? then r else Fine(ReportUnknown(P, arg, unknown, r.st))
        else
          var r := TakeValue(P, name, o, st);
          if r.raised.Some? then r else MatchShort(P, arg, i + 1, unknown, r.st)
  }

  function ReportUnknown(P: Config, arg: string, unknown: string, st: State): State
    requires arg != ""
  {
    if P.ignoreUnknown && unknown != "" then st.(largs := st.largs + [[arg[0]] + unknown]) else st
  }

  // `name=value` is split at the first `=`.
  function FindEquals(arg: string): (k: nat)
    ensures k <= |arg|
    ensures k < |arg| ==> arg[k] == '='
    ensures '=' !in arg[..k]
  {
    if arg == "" then 0
    else if arg[0] == '=' then 0
    else
      var k := 1 + FindEquals(arg[1..]);
      assert arg[..k] == [arg[0]] + arg[1..][..k - 1];
      k
  }

  function LongName(arg: string): string {
    arg[..FindEquals(arg)]
  }

  function Explicit(arg: string): (v: Option<string>)
    ensures v.Some? ==> |v.value| < |arg|
  {
    var k := FindEquals(arg);
    if k < |arg| then Some(arg[k + 1..]) else None
  }

  // `_process_opts`.
  function ProcessOpts(P: Config, arg: string, st: State): Outcome
    requires |arg| > 1
  {
    if LongName(arg) in P.longOpt then MatchLong(P, LongName(arg), Explicit(arg), st)
    else if arg[..2] !in P.prefixes then MatchShort(P, arg, 1, "", st)
    else if !P.ignoreUnknown then Raise(st, NoSuchOption(LongName(arg)))
    else Fine(st.(largs := st.largs + [arg]))
  }

  // ---------------------------------------------------------------- the option loop

  datatype LoopStep = Continue(st: State) | Stop(st: State) | Fail(st: State, error: Error)

  // One pass of the loop in `_process_args_for_options`.
  function OptionStep(P: Config, st: State): LoopStep
    requires st.rargs != []
  {
    var arg, rest := st.rargs[0], st.(rargs := st.rargs[1..]);
    if arg == "--" then Stop(rest)
    else if LooksLikeOption(P, arg) then
      var r := ProcessOpts(P, arg, rest);
      if r.raised.Some? then Fail(r.st, r.raised.value) else Continue(r.st)
    else if P.interspersed then Continue(rest.(largs := st.largs + [arg]))
    else Stop(st)
  }

  // ---------------------------------------------------------------- termination: token weights

  // A token weighs its length plus one.
  function Weight(tokens: seq<string>): nat {
    if tokens == [] then 0 else |tokens[0]| + 1 + Weight(tokens[1..])
  }

  lemma {:induction false} WeightAppend(a: seq<string>, b: seq<string>)
    ensures Weight(a + b) == Weight(a) + Weight(b)
  {
    if a == [] {
      assert a + b == b;
    } else {
      WeightAppend(a[1..], b);
      ConcatTail(a, b);
    }
  }

  lemma WeightSuffix(a: seq<string>, b: seq<string>)
    requires IsSuffix(a, b)
    ensures Weight(a) <= Weight(b)
  {
    var k := |b| - |a|;
    WeightAppend(b[..k], b[k..]);
    assert b == b[..k] + b[k..];
  }

  lemma ProcessOptionFrame(o: Opt, value: Value, st: State)
    ensures var r := ProcessOption(o, value, st).st; r.largs == st.largs && r.rargs == st.rargs
  {
  }

  // Taking a value touches nothing but the front of rargs.
  lemma TakeValueFrame(P: Config, name: string, o: Opt, st: State)
    ensures var r := TakeValue(P, name, o, st).st; r.largs == st.largs && IsSuffix(r.rargs, st.rargs)
  {
  }

  // A cluster puts back less than it takes, even when it both reports unknown letters and re-injects a tail.
  lemma {:induction false} MatchShortWeight(P: Config, arg: string, i: nat, unknown: string, st: State)
    requires 1 <= i <= |arg| && |unknown| < i
    ensures var r := MatchShort(P, arg, i, unknown, st).st;
            && Weight(r.rargs) <= |arg| + Weight(st.rargs)
            && Weight(r.largs) + Weight(r.rargs) <= Weight(st.largs) + |arg| + 1 + Weight(st.rargs)
    decreases |arg| - i
  {
    hide ProcessOption, TakeValue, Weight;
    if i == |arg| {
      ReportWeight(P, arg, unknown, st);
    } else {
      var name := [arg[0], arg[i]];
      if name !in P.shortOpt {
        if P.ignoreUnknown {
          MatchShortWeight(P, arg, i + 1, unknown + [arg[i]], st);
        }
      } else {
        var o := P.shortOpt[name];
        if !o.TakesValue() {
          ProcessOptionFrame(o, Unset, st);
          var r := ProcessOption(o, Unset, st);
          if r.raised.None? {
            MatchShortWeight(P, arg, i + 1, unknown, r.st);
          }
        } else if i + 1 < |arg| {
          var pushed := st.(rargs := [arg[i + 1..]] + st.rargs);
          WeightCons(arg[i + 1..], st.rargs);
          TakeValueFrame(P, name, o, pushed);
          var r := TakeValue(P, name, o, pushed);
          WeightSuffix(r.st.rargs, pushed.rargs);
          if r.raised.None? {
            ReportWeight(P, arg, unknown, r.st);
          }
        } else {
          TakeValueFrame(P, name, o, st);
          var r := TakeValue(P, name, o, st);
          WeightSuffix(r.st.rargs, st.rargs);
          if r.raised.None? {
            MatchShortWeight(P, arg, i + 1, unknown, r.st);
          }
        }
      }
    }
  }

  lemma WeightCons(token: string, tokens: seq<string>)
    ensures Weight([token] + tokens) == |token| + 1 + Weight(tokens)
  {
    assert ([token] + tokens)[1..] == tokens;
  }

  lemma WeightOne(token: string)
    ensures Weight([token]) == |token| + 1
  {
    assert [token][1..] == [];
  }

  lemma ReportWeight(P: Config, arg: string, unknown: string, st: State)
    requires arg != ""
    ensures var r := ReportUnknown(P, arg, unknown, st);
            r.rargs == st.rargs && Weight(r.largs) <= Weight(st.largs) + |unknown| + 2
  {
    WeightAppend(st.largs, [[arg[0]] + unknown]);
    WeightOne([arg[0]] + unknown);
  }

  lemma ProcessOptsWeight(P: Config, arg: string, st: State)
    requires |arg| > 1
    ensures var r := ProcessOpts(P, arg, st).st;
            && Weight(r.rargs) <= |arg| + Weight(st.rargs)
            && Weight(r.largs) + Weight(r.rargs) <= Weight(st.largs) + |arg| + 1 + Weight(st.rargs)
  {
    hide MatchShort, ProcessOption, TakeValue, Weight, FindEquals;
    var name, explicit := LongName(arg), Explicit(arg);
    if name in P.longOpt {
      var o := P.longOpt[name];
      var pushed := if explicit.Some? then st.(rargs := [explicit.value] + st.rargs) else st;
      if explicit.Some? {
        WeightCons(explicit.value, st.rargs);
      }
      TakeValueFrame(P, name, o, pushed);
      WeightSuffix(TakeValue(P, name, o, pushed).st.rargs, pushed.rargs);
      ProcessOptionFrame(o, Unset, st);
    } else if arg[..2] !in P.prefixes {
      MatchShortWeight(P, arg, 1, "", st);
    } else if P.ignoreUnknown {
      WeightAppend(st.largs, [arg]);
      WeightOne(arg);
    }
  }

  // Main result: every pass of the loop strictly lowers the weight of rargs and never raises the
  // weight of largs and rargs together, whatever the tables hold.
  lemma StepWeight(P: Config, st: State)
    requires st.rargs != []
    ensures var step := OptionStep(P, st);
            && (step.Continue? ==> Weight(step.st.rargs) < Weight(st.rargs))
            && Weight(step.st.rargs) <= Weight(st.rargs)
            && Weight(step.st.largs + step.st.rargs) <= Weight(st.largs + st.rargs)
  {
    hide ProcessOpts, Weight;
    var arg, rest := st.rargs[0], st.(rargs := st.rargs[1..]);
    assert st.rargs == [arg] + rest.rargs;
    WeightCons(arg, rest.rargs);
    var step := OptionStep(P, st);
    WeightAppend(step.st.largs, step.st.rargs);
    WeightAppend(st.largs, st.rargs);
    if LooksLikeOption(P, arg) {
      ProcessOptsWeight(P, arg, rest);
    }
    WeightAppend(st.largs, [arg]);
    WeightOne(arg);
  }

  function OptionLoop(P: Config, st: State): Outcome
    decreases Weight(st.rargs)
  {
    if st.rargs == [] then Fine(st)
    else
      StepWeight(P, st);
      match OptionStep(P, st)
      case Continue(next) => OptionLoop(P, next)
      case Stop(next) => Fine(next)
      case Fail(next, e) => Raise(next, e)
  }

  // ---------------------------------------------------------------- positional arguments

  // The value `_Argument.process` stores.
  function ArgumentValue(a: Arg, value: Value): Result<Value, Error> {
    if a.nargs > 1 then
      match value
      case Tuple(items) =>
        var holes := CountUnset(items);
        if holes == |items| then Ok(Unset)
        else if holes != 0 then Err(BadArgumentUsage(a.dest, a.nargs))
        else Ok(value)
      case Text(t) => Ok(if t == "" then Unset else value)
      case _ => Err(AssertionError)
    else Ok(if value == Tuple([]) then Unset else value)
  }

  function CountUnset(items: seq<Value>): (n: nat)
    ensures n <= |items|
  {
    if items == [] then 0 else (if items[0].Unset? then 1 else 0) + CountUnset(items[1..])
  }

  // `_Argument.process` for the declared arguments, from index i on.
  function ProcessArguments(args: seq<Arg>, slots: seq<Value>, i: nat, st: State): Outcome
    requires i <= |args|
    decreases |args| - i
  {
    if i == |args| then Fine(st)
    else if i >= |slots| then Raise(st, IndexError)
    else
      match ArgumentValue(args[i], slots[i])
      case Err(e) => Raise(st, e)
      case Ok(v) =>
        ProcessArguments(args, slots, i + 1,
                         st.(opts := st.opts[args[i].dest := v], order := st.order + [args[i].obj]))
  }

  function NargsSpec(args: seq<Arg>): (r: seq<int>)
    ensures |r| == |args| && forall i :: 0 <= i < |args| ==> r[i] == args[i].nargs
  {
    seq(|args|, i requires 0 <= i < |args| => args[i].nargs)
  }

  // `_process_args_for_args`.
  function ArgumentPhase(P: Config, st: State): Outcome {
    match Split(st.largs + st.rargs, NonZero(NargsSpec(P.args)))
    case Err(e) => Raise(st, e)
    case Ok(u) =>
      var r := ProcessArguments(P.args, u.slots, 0, st);
      if r.raised.Some? then r else Fine(r.st.(largs := u.rest, rargs := []))
  }

  // ---------------------------------------------------------------- parse_args

  datatype Parsed = Parsed(opts: map<string, Value>, leftovers: seq<string>, order: seq<nat>)

  function ParseState(P: Config, args: seq<string>): Outcome {
    var r := OptionLoop(P, Start(args));
    if r.raised.Some? then r else ArgumentPhase(P, r.st)
  }

  // `parse_args`: resilient parsing swallows usage errors and returns what was collected.
  function ParseArgs(P: Config, args: seq<string>): Result<Parsed, Error> {
    var r := ParseState(P, args);
    if r.raised.Some? && !(r.raised.value.IsUsageError() && P.resilient) then Err(r.raised.value)
    else Ok(Parsed(r.st.opts, r.st.largs, r.st.order))
  }
}
