/** Chain mode of `Group.invoke`: the rest of the command line is parsed by one subcommand after the other. */
module Chain {
  import opened CliValues
  import opened Subsequences
  import opened Unpack
  import opened Parser
  import opened ParserLaws

  /** A leaf command: its parser, and whether its parameters accept what was parsed. */
  datatype Command = Command(parser: Config, noArgsIsHelp: bool, accepts: Parsed -> bool)

  type Table = map<string, Command>

  datatype ChainError = Usage(error: Error) | NoArgsIsHelp(name: string) | NoSuchCommand(name: string) | Rejected(name: string)

  datatype Invocation = Invocation(name: string, parsed: Parsed)

  // The parser a chained subcommand runs with: interspersed arguments are switched off.
  function SubParser(c: Command): Config {
    c.parser.(interspersed := false)
  }

  // `make_context` for one subcommand; extra arguments are allowed and become the leftovers.
  function MakeContext(name: string, c: Command, args: seq<string>): Result<Parsed, ChainError> {
    if args == [] && c.noArgsIsHelp && !c.parser.resilient then Err(NoArgsIsHelp(name))
    else
      match ParseArgs(SubParser(c), args)
      case Err(e) => Err(Usage(e))
      case Ok(p) => if c.accepts(p) then Ok(p) else Err(Rejected(name))
  }

  // ---------------------------------------------------------------- termination

  lemma {:induction false} LoopWeight(P: Config, st: State)
    ensures var r := OptionLoop(P, st).st; Weight(r.largs + r.rargs) <= Weight(st.largs + st.rargs)
    decreases Weight(st.rargs)
  {
    hide OptionStep;
    if st.rargs != [] {
      StepWeight(P, st);
      if OptionStep(P, st).Continue? {
        LoopWeight(P, OptionStep(P, st).st);
      }
    }
  }

  lemma {:induction false} ProcessArgumentsFrame(args: seq<Arg>, slots: seq<Value>, i: nat, st: State)
    requires i <= |args|
    ensures var r := ProcessArguments(args, slots, i, st).st; r.largs == st.largs && r.rargs == st.rargs
    decreases |args| - i
  {
    if i < |args| && i < |slots| && ArgumentValue(args[i], slots[i]).Ok? {
      var v := ArgumentValue(args[i], slots[i]).value;
      ProcessArgumentsFrame(args, slots, i + 1,
                            st.(opts := st.opts[args[i].dest := v], order := st.order + [args[i].obj]));
    }
  }

  lemma SplitRest(tokens: seq<string>, spec: seq<int>)
    requires forall i :: 0 <= i < |spec| ==> spec[i] != 0
    requires Split(tokens, spec).Ok?
    ensures IsSuffix(Split(tokens, spec).value.rest, tokens)
  {
    hide Demand, FrontSlots, BackSlots, FromFront, FromBack;
  }

  // What a parser leaves over is a tail of largs followed by rargs, or largs alone after a swallowed error.
  lemma LeftoversTail(P: Config, args: seq<string>)
    requires ParseArgs(P, args).Ok?
    ensures var loop, left := OptionLoop(P, Start(args)).st, ParseArgs(P, args).value.leftovers;
            left == loop.largs || IsSuffix(left, loop.largs + loop.rargs)
    ensures ParseState(P, args).raised.None? ==>
              IsSuffix(ParseArgs(P, args).value.leftovers, OptionLoop(P, Start(args)).st.largs + OptionLoop(P, Start(args)).st.rargs)
  {
    hide OptionLoop, Split, ProcessArguments, NonZero;
    var r := OptionLoop(P, Start(args));
    if r.raised.None? {
      var tokens, spec := r.st.largs + r.st.rargs, NonZero(NargsSpec(P.args));
      if Split(tokens, spec).Ok? {
        SplitRest(tokens, spec);
        ProcessArgumentsFrame(P.args, Split(tokens, spec).value.slots, 0, r.st);
      }
    }
  }

  lemma LeftoversWeight(P: Config, args: seq<string>)
    requires ParseArgs(P, args).Ok?
    ensures Weight(ParseArgs(P, args).value.leftovers) <= Weight(args)
  {
    hide OptionLoop, ParseArgs;
    LeftoversTail(P, args);
    LoopWeight(P, Start(args));
    var loop, left := OptionLoop(P, Start(args)).st, ParseArgs(P, args).value.leftovers;
    WeightAppend(loop.largs, loop.rargs);
    assert [] + args == args;
    if IsSuffix(left, loop.largs + loop.rargs) {
      WeightSuffix(left, loop.largs + loop.rargs);
    }
  }

  // ---------------------------------------------------------------- the chain

  // The contexts made before any of them is invoked.
  function ParseChain(table: Table, args: seq<string>): Result<seq<Invocation>, ChainError>
    decreases Weight(args)
  {
    if args == [] then Ok([])
    else if args[0] !in table then Err(NoSuchCommand(args[0]))
    else
      match MakeContext(args[0], table[args[0]], args[1..])
      case Err(e) => Err(e)
      case Ok(p) =>
        LeftoversWeight(SubParser(table[args[0]]), args[1..]);
        match ParseChain(table, p.leftovers)
        case Err(e) => Err(e)
        case Ok(rest) => Ok([Invocation(args[0], p)] + rest)
  }

  // What a chain does to the outside, in order: contexts are made, commands are invoked.
  datatype Effect = Made(name: string) | Invoked(context: Invocation)

  function AllMade(contexts: seq<Invocation>): (r: seq<Effect>)
    ensures |r| == |contexts| && forall i :: 0 <= i < |contexts| ==> r[i] == Made(contexts[i].name)
  {
    seq(|contexts|, i requires 0 <= i < |contexts| => Made(contexts[i].name))
  }

  function AllInvoked(contexts: seq<Invocation>): (r: seq<Effect>)
    ensures |r| == |contexts| && forall i :: 0 <= i < |contexts| ==> r[i] == Invoked(contexts[i])
  {
    seq(|contexts|, i requires 0 <= i < |contexts| => Invoked(contexts[i]))
  }

  // The first loop: every context of the chain.
  method MakeContexts(table: Table, arguments: seq<string>)
    returns (r: Result<seq<Invocation>, ChainError>, effects: seq<Effect>)
    ensures r == ParseChain(table, arguments)
    ensures r.Ok? ==> effects == AllMade(r.value)
    ensures forall x :: x in effects ==> x.Made?
  {
    hide MakeContext;
    var contexts: seq<Invocation>, args := [], arguments;
    effects := [];
    ghost var all := ParseChain(table, arguments);
    assert all.Ok? ==> [] + all.value == all.value;
    while args != []
      invariant match ParseChain(table, args)
                case Err(e) => ParseChain(table, arguments) == Err(e)
                case Ok(rest) => ParseChain(table, arguments) == Ok(contexts + rest)
      invariant effects == AllMade(contexts)
      decreases Weight(args)
    {
      if args[0] !in table {
        return Err(NoSuchCommand(args[0])), effects;
      }
      var p := MakeContext(args[0], table[args[0]], args[1..]);
      if p.Err? {
        return Err(p.error), effects;
      }
      SubWeight(table, args);
      ghost var tail := ParseChain(table, p.value.leftovers);
      if tail.Ok? {
        ConcatAssoc(contexts, [Invocation(args[0], p.value)], tail.value);
      }
      contexts := contexts + [Invocation(args[0], p.value)];
      effects := effects + [Made(args[0])];
      args := p.value.leftovers;
    }
    assert contexts + [] == contexts;
    r := Ok(contexts);
  }

  // Every context is made before any command is invoked, and none is invoked if one cannot be made.
  method InvokeChain<R>(table: Table, arguments: seq<string>, run: Invocation -> R)
    returns (r: Result<seq<R>, ChainError>, effects: seq<Effect>)
    ensures match ParseChain(table, arguments)
            case Err(e) => r == Err(e) && forall x :: x in effects ==> x.Made?
            case Ok(contexts) =>
              && r.Ok? && |r.value| == |contexts| && (forall i :: 0 <= i < |contexts| ==> r.value[i] == run(contexts[i]))
              && effects == AllMade(contexts) + AllInvoked(contexts)
  {
    hide ParseChain;
    var made;
    made, effects := MakeContexts(table, arguments);
    if made.Err? {
      return Err(made.error), effects;
    }
    var contexts := made.value;
    var rv: seq<R> := [];
    for i := 0 to |contexts|
      invariant |rv| == i && forall j :: 0 <= j < i ==> rv[j] == run(contexts[j])
      invariant effects == AllMade(contexts) + AllInvoked(contexts[..i])
    {
      rv := rv + [run(contexts[i])];
      effects := effects + [Invoked(contexts[i])];
      assert AllInvoked(contexts[..i + 1]) == AllInvoked(contexts[..i]) + [Invoked(contexts[i])];
    }
    assert contexts[..|contexts|] == contexts;
    r := Ok(rv);
  }

  // ---------------------------------------------------------------- how the command line is shared out

  ghost predicate StrictTable(table: Table) {
    forall n :: n in table ==> AllSafe(SubParser(table[n])) && !table[n].parser.ignoreUnknown
  }

  // With interspersed arguments switched off the loop collects nothing, also when it fails.
  lemma {:induction false} LoopCollectsNothing(P: Config, st: State)
    requires !P.ignoreUnknown && !P.interspersed && st.largs == []
    ensures OptionLoop(P, st).st.largs == []
    decreases Weight(st.rargs)
  {
    hide ProcessOpts, LooksLikeOption;
    if st.rargs != [] {
      StepWeight(P, st);
      var arg, rest := st.rargs[0], st.(rargs := st.rargs[1..]);
      if arg != "--" && LooksLikeOption(P, arg) {
        LooksLong(P, arg);
        ProcessOptsCollects(P, arg, rest);
      }
      if OptionStep(P, st).Continue? {
        LoopCollectsNothing(P, OptionStep(P, st).st);
      }
    }
  }

  // What a chained subcommand leaves over is a tail of what it was given; after an error that
  // resilient parsing swallows it is nothing.
  lemma SubLeftovers(name: string, c: Command, args: seq<string>)
    requires AllSafe(SubParser(c)) && !c.parser.ignoreUnknown && MakeContext(name, c, args).Ok?
    ensures IsSuffix(MakeContext(name, c, args).value.leftovers, args)
  {
    hide OptionLoop, ArgumentPhase;
    var P := SubParser(c);
    LeftoversTail(P, args);
    LoopCollectsNothing(P, Start(args));
    var loop := OptionLoop(P, Start(args)).st;
    if ParseState(P, args).raised.None? {
      StartsInvariant(P, args);
      var j := LoopConserves(P, args, Start(args), 0);
      assert loop.largs + loop.rargs == args[j..];
      SuffixTrans(MakeContext(name, c, args).value.leftovers, args[j..], args);
    } else {
      SwallowedLeavesLargs(P, args);
    }
  }

  lemma SwallowedLeavesLargs(P: Config, args: seq<string>)
    requires ParseState(P, args).raised.Some? && ParseArgs(P, args).Ok?
    ensures ParseArgs(P, args).value.leftovers == OptionLoop(P, Start(args)).st.largs
  {
    hide OptionLoop, Split, ProcessArguments, NonZero;
    var r := OptionLoop(P, Start(args));
    if r.raised.None? {
      var tokens, spec := r.st.largs + r.st.rargs, NonZero(NargsSpec(P.args));
      if Split(tokens, spec).Ok? {
        ProcessArgumentsFrame(P.args, Split(tokens, spec).value.slots, 0, r.st);
      }
    }
  }

  // The k-th segment: it begins with the k-th command's name, and that command's parser, given the
  // rest of the segment and all later ones, left exactly the later ones over.
  ghost predicate IsSegment(table: Table, context: Invocation, segment: seq<string>, later: seq<string>) {
    && segment != [] && segment[0] == context.name && context.name in table
    && context.parsed.leftovers == later && table[context.name].accepts(context.parsed)
    && (table[context.name].noArgsIsHelp && !table[context.name].parser.resilient ==> segment[1..] + later != [])
    && ParseArgs(SubParser(table[context.name]), segment[1..] + later) == Ok(context.parsed)
  }

  lemma FirstSegment(table: Table, args: seq<string>) returns (segment: seq<string>)
    requires StrictTable(table) && args != [] && args[0] in table && MakeContext(args[0], table[args[0]], args[1..]).Ok?
    ensures var p := MakeContext(args[0], table[args[0]], args[1..]).value;
            IsSegment(table, Invocation(args[0], p), segment, p.leftovers) && segment + p.leftovers == args
  {
    hide ParseArgs, AllSafe;
    var c := table[args[0]];
    var left := MakeContext(args[0], c, args[1..]).value.leftovers;
    SubLeftovers(args[0], c, args[1..]);
    var n := |args| - |left|;
    assert args[1..][|args[1..]| - |left|..] == args[n..];
    segment := args[..n];
    assert args == args[..n] + args[n..];
    assert args[..n][1..] + args[n..] == args[1..];
  }

  // Main result: the invocations cut the command line into consecutive segments, one per command and
  // in order; each begins with its command's name, and each command is given all that follows its name.
  lemma {:induction false} ChainSegments(table: Table, args: seq<string>) returns (segments: seq<seq<string>>)
    requires StrictTable(table) && ParseChain(table, args).Ok?
    ensures var contexts := ParseChain(table, args).value;
            && |segments| == |contexts| && Concat(segments) == args
            && forall k :: 0 <= k < |contexts| ==> IsSegment(table, contexts[k], segments[k], Concat(segments[k + 1..]))
    decreases Weight(args)
  {
    hide IsSegment, StrictTable, MakeContext;
    segments := [];
    if args != [] {
      var first := FirstSegment(table, args);
      var p := MakeContext(args[0], table[args[0]], args[1..]).value;
      SubWeight(table, args);
      var rest := ChainSegments(table, p.leftovers);
      segments := [first] + rest;
      forall k | 1 <= k <= |segments| ensures segments[k..] == rest[k - 1..] {}
    }
  }

  lemma SubWeight(table: Table, args: seq<string>)
    requires args != [] && args[0] in table && MakeContext(args[0], table[args[0]], args[1..]).Ok?
    ensures Weight(MakeContext(args[0], table[args[0]], args[1..]).value.leftovers) < Weight(args)
  {
    hide ParseArgs;
    LeftoversWeight(SubParser(table[args[0]]), args[1..]);
  }

  // The command line behind the first n segments.
  lemma SegmentParses(table: Table, context: Invocation, segment: seq<string>, later: seq<string>)
    requires IsSegment(table, context, segment, later)
    ensures ParseChain(table, segment + later)
            == match ParseChain(table, later) case Err(e) => Err(e) case Ok(rest) => Ok([context] + rest)
  {
    hide ParseArgs;
    var args := segment + later;
    ConcatTail(segment, later);
    assert args[1..] == segment[1..] + later && args[0] == context.name;
    assert MakeContext(args[0], table[args[0]], args[1..]) == Ok(context.parsed);
  }

  // What stops the chain at a name: it is unknown, its help is asked for, its arguments do not parse, or
  // it does not accept them.
  function Obstacle(table: Table, args: seq<string>): Option<ChainError>
    requires args != []
  {
    var name, rest := args[0], args[1..];
    if name !in table then Some(NoSuchCommand(name))
    else if rest == [] && table[name].noArgsIsHelp && !table[name].parser.resilient then Some(NoArgsIsHelp(name))
    else
      match ParseArgs(SubParser(table[name]), rest)
      case Err(e) => Some(Usage(e))
      case Ok(p) => if table[name].accepts(p) then None else Some(Rejected(name))
  }

  // Main result, the converse: a command line put together from such segments is read back as exactly
  // those invocations; and where something that stops the chain stands behind them, its error is the
  // answer, whatever was read before.
  lemma {:induction false} SegmentsParse(table: Table, contexts: seq<Invocation>, segments: seq<seq<string>>, rest: seq<string>)
    requires |segments| == |contexts|
    requires forall k :: 0 <= k < |contexts| ==> IsSegment(table, contexts[k], segments[k], Concat(segments[k + 1..]) + rest)
    ensures rest == [] ==> ParseChain(table, Concat(segments)) == Ok(contexts)
    ensures rest != [] && Obstacle(table, rest).Some? ==> ParseChain(table, Concat(segments) + rest) == Err(Obstacle(table, rest).value)
    decreases |contexts|
  {
    hide IsSegment, ParseArgs;
    assert Concat(segments) + [] == Concat(segments);
    if contexts == [] {
      assert Concat(segments) + rest == rest;
    } else {
      var tail := Concat(segments[1..]) + rest;
      forall k | 0 <= k < |contexts| - 1
        ensures IsSegment(table, contexts[1..][k], segments[1..][k], Concat(segments[1..][k + 1..]) + rest)
      {
        assert segments[1..][k + 1..] == segments[k + 2..];
        assert IsSegment(table, contexts[k + 1], segments[k + 1], Concat(segments[k + 1 + 1..]) + rest);
      }
      SegmentsParse(table, contexts[1..], segments[1..], rest);
      SegmentParses(table, contexts[0], segments[0], tail);
      ConcatAssoc(segments[0], Concat(segments[1..]), rest);
      assert rest == [] ==> tail == Concat(segments[1..]);
      assert [contexts[0]] + contexts[1..] == contexts;
    }
  }
}
