/** What the parser refuses: tokens that name no option, values where none is taken or too few,
    incomplete arguments.  Outside resilient parsing each of them is raised, in resilient parsing each
    ends the parse with what was collected. */
module Refusals {
  import opened CliValues
  import opened Subsequences
  import opened Unpack
  import opened Parser
  import opened ParserLaws
  import opened ParseLaws
  import opened Spelling
  import opened CommandLines

  // A parse that ends in state |st| with error |e|: resilient parsing hands out what it has.
  function Ending(P: Config, st: State, e: Error): Result<Parsed, Error> {
    if P.resilient && e.IsUsageError() then Ok(Parsed(st.opts, st.largs, st.order)) else Err(e)
  }

  lemma {:induction false} LoopFromHead(P: Config, st: State, k: nat)
    requires k < |LoopHeads(P, st)|
    ensures OptionLoop(P, st) == OptionLoop(P, LoopHeads(P, st)[k])
    decreases k
  {
    hide OptionStep;
    if k > 0 {
      StepWeight(P, st);
      LoopFromHead(P, OptionStep(P, st).st, k - 1);
    }
  }

  lemma FailsAtHead(P: Config, st: State, k: nat)
    requires k < |LoopHeads(P, st)|
    requires LoopHeads(P, st)[k].rargs != [] && OptionStep(P, LoopHeads(P, st)[k]).Fail?
    ensures var step := OptionStep(P, LoopHeads(P, st)[k]); OptionLoop(P, st) == Raise(step.st, step.error)
  {
    hide OptionStep;
    LoopFromHead(P, st, k);
    StepWeight(P, LoopHeads(P, st)[k]);
  }

  // ---------------------------------------------------------------- tokens

  // What is wrong with an option token before the tokens |rest|, if anything can be told from the
  // declarations alone.
  function Complaint(P: Config, arg: string, rest: seq<string>): Option<Error>
    requires |arg| > 1
  {
    var name, attached := LongName(arg), if Explicit(arg).Some? then 1 else 0;
    if name in P.longOpt then
      var o := P.longOpt[name];
      if !o.TakesValue() then (if attached == 1 then Some(OptionTakesNoValue(name)) else None)
      else if attached + |rest| < o.nargs && !o.flagNeedsValue then Some(OptionNeedsValue(name, o.nargs))
      else None
    else if arg[..2] in P.prefixes then (if P.ignoreUnknown then None else Some(NoSuchOption(name)))
    else
      var short := arg[..2];
      if short !in P.shortOpt then (if P.ignoreUnknown then None else Some(NoSuchOption(short)))
      else
        var o, glued := P.shortOpt[short], if |arg| > 2 then 1 else 0;
        if o.TakesValue() && glued + |rest| < o.nargs && !o.flagNeedsValue then Some(OptionNeedsValue(short, o.nargs)) else None
  }

  lemma ComplaintRaised(P: Config, arg: string, rest: seq<string>, st: State)
    requires |arg| > 1 && Complaint(P, arg, rest).Some? && st.rargs == rest
    ensures var r := ProcessOpts(P, arg, st);
            && r.raised == Some(Complaint(P, arg, rest).value) && r.raised.value.IsUsageError()
            && r.st.opts == st.opts && r.st.largs == st.largs && r.st.order == st.order
  {
    hide ProcessOption;
    assert arg[..2] == [arg[0], arg[1]];
  }

  // Main result: a parse that comes to such a token ends there.  Outside resilient parsing it raises
  // what is wrong; in resilient parsing it returns what was collected before.
  lemma TokenRefused(P: Config, args: seq<string>, k: nat)
    requires k < |LoopHeads(P, Start(args))|
    requires var h := LoopHeads(P, Start(args))[k];
             h.rargs != [] && h.rargs[0] != "--" && LooksLikeOption(P, h.rargs[0]) && Complaint(P, h.rargs[0], h.rargs[1..]).Some?
    ensures var h := LoopHeads(P, Start(args))[k];
            ParseArgs(P, args) == Ending(P, h, Complaint(P, h.rargs[0], h.rargs[1..]).value)
    ensures !P.resilient ==> ParseArgs(P, args).Err?
  {
    hide Complaint, ProcessOpts, OptionLoop;
    var h := LoopHeads(P, Start(args))[k];
    ComplaintRaised(P, h.rargs[0], h.rargs[1..], h.(rargs := h.rargs[1..]));
    FailsAtHead(P, Start(args), k);
  }

  // The flags of a cluster from letter i up to letter m, one by one.
  function FlagsRead(P: Config, arg: string, i: nat, m: nat, st: State): Outcome
    requires 1 <= i <= m < |arg| && forall k :: i <= k < m ==> [arg[0], arg[k]] in P.shortOpt
    decreases m - i
  {
    if i == m then Fine(st)
    else
      var r := ProcessOption(P.shortOpt[[arg[0], arg[i]]], Unset, st);
      if r.raised.Some? then r else FlagsRead(P, arg, i + 1, m, r.st)
  }

  lemma {:induction false} UnknownLetter(P: Config, arg: string, i: nat, m: nat, st: State)
    requires !P.ignoreUnknown && 1 <= i <= m < |arg| && [arg[0], arg[m]] !in P.shortOpt
    requires forall k :: i <= k < m ==> [arg[0], arg[k]] in P.shortOpt && !P.shortOpt[[arg[0], arg[k]]].TakesValue()
    ensures var r, f := MatchShort(P, arg, i, "", st), FlagsRead(P, arg, i, m, st);
            r == if f.raised.Some? then f else Raise(f.st, NoSuchOption([arg[0], arg[m]]))
    decreases m - i
  {
    if i < m {
      var r := ProcessOption(P.shortOpt[[arg[0], arg[i]]], Unset, st);
      if r.raised.None? {
        UnknownLetter(P, arg, i + 1, m, r.st);
      }
    }
  }

  // A cluster at a loop head, with an unknown letter behind flags.
  ghost predicate UnknownBehindFlags(P: Config, h: State, m: nat) {
    && h.rargs != [] && h.rargs[0] != "--" && LooksLikeOption(P, h.rargs[0])
    && var arg := h.rargs[0];
       && LongName(arg) !in P.longOpt && arg[..2] !in P.prefixes && 1 <= m < |arg| && [arg[0], arg[m]] !in P.shortOpt
       && forall i :: 1 <= i < m ==> [arg[0], arg[i]] in P.shortOpt && !P.shortOpt[[arg[0], arg[i]]].TakesValue()
  }

  // Main result: so does a parse that comes to such a cluster; resilient parsing keeps what the flags
  // before the unknown letter have set.  If a flag cannot be processed, its own error is raised.
  lemma LetterRefused(P: Config, args: seq<string>, k: nat, m: nat)
    requires !P.ignoreUnknown && k < |LoopHeads(P, Start(args))| && UnknownBehindFlags(P, LoopHeads(P, Start(args))[k], m)
    ensures var h := LoopHeads(P, Start(args))[k];
            var arg := h.rargs[0];
            var f := FlagsRead(P, arg, 1, m, h.(rargs := h.rargs[1..]));
            ParseArgs(P, args) == Ending(P, f.st, if f.raised.Some? then f.raised.value else NoSuchOption([arg[0], arg[m]]))
  {
    hide MatchShort, LongName, OptionLoop, FlagsRead;
    var h := LoopHeads(P, Start(args))[k];
    UnknownLetter(P, h.rargs[0], 1, m, h.(rargs := h.rargs[1..]));
    FailsAtHead(P, Start(args), k);
  }

  // ---------------------------------------------------------------- destinations of another kind

  // The option counts or appends, and its destination shows something else.
  predicate Clashing(o: Opt, st: State) {
    o.dest in st.opts &&
    match o.action
    case Count => !st.opts[o.dest].Number?
    case Append => !st.opts[o.dest].List?
    case AppendConst => !st.opts[o.dest].List?
    case _ => false
  }

  lemma ClashRaised(o: Opt, v: Value, st: State)
    ensures ProcessOption(o, v, st).raised
            == if !Clashing(o, st) then None else Some(if o.action.Count? then TypeError else AttributeError)
  {
  }

  // Processing such a flag is no usage error: resilient parsing raises Python's own error too.
  lemma ClashRefused(P: Config, args: seq<string>, k: nat, name: string)
    requires Valid(P) && Named(P, name) && !OptionOf(P, name).TakesValue() && k < |LoopHeads(P, Start(args))|
    requires var h := LoopHeads(P, Start(args))[k]; h.rargs != [] && h.rargs[0] == name && Clashing(OptionOf(P, name), h)
    ensures ParseArgs(P, args) == Err(if OptionOf(P, name).action.Count? then TypeError else AttributeError)
  {
    hide OptionLoop, Named, OptionOf, ProcessOption, Clashing, LoopHeads;
    var h, o := LoopHeads(P, Start(args))[k], OptionOf(P, name);
    var rest := h.rargs[1..];
    assert h.(rargs := [name] + rest) == h;
    LoopOnUse(P, name, rest, h);
    ClashRaised(o, Unset, h.(rargs := rest));
    assert Clashing(o, h.(rargs := rest)) by { SameClash(o, h, rest); }
    LoopFromHead(P, Start(args), k);
  }

  lemma SameClash(o: Opt, st: State, rargs: seq<string>)
    ensures Clashing(o, st.(rargs := rargs)) == Clashing(o, st)
  {
  }

  // ---------------------------------------------------------------- arguments

  predicate AllTexts(items: seq<Value>) {
    forall i :: 0 <= i < |items| ==> items[i].Text?
  }

  // What an argument can show: nothing, one text, or a tuple with as many texts as it asks for.
  predicate Complete(nargs: int, v: Value) {
    || v.Unset?
    || (nargs == 1 && v.Text?)
    || (nargs > 1 && v.Tuple? && |v.items| == nargs && AllTexts(v.items))
    || (nargs < 0 && v.Tuple? && v.items != [] && AllTexts(v.items))
  }

  lemma {:induction false} HolesCounted(items: seq<Value>)
    requires forall i :: 0 <= i < |items| ==> items[i].Text? || items[i].Unset?
    ensures CountUnset(items) == 0 ==> AllTexts(items)
    ensures CountUnset(items) == |items| <==> forall i :: 0 <= i < |items| ==> items[i].Unset?
    ensures AllTexts(items) ==> CountUnset(items) == 0
  {
    if items != [] {
      HolesCounted(items[1..]);
    }
  }

  lemma CellsComplete(a: Arg, tokens: seq<string>, start: int)
    requires a.nargs > 0 && ArgumentValue(a, Slot(Cells(tokens, start, a.nargs))).Ok?
    ensures Complete(a.nargs, ArgumentValue(a, Slot(Cells(tokens, start, a.nargs))).value)
  {
    HolesCounted(Cells(tokens, start, a.nargs));
  }

  lemma SlotComplete(args: seq<Arg>, tokens: seq<string>, j: nat)
    requires var spec := NargsSpec(args);
             && (forall i :: 0 <= i < |spec| ==> spec[i] != 0) && Split(tokens, spec).Ok? && j < |args|
             && |Split(tokens, spec).value.slots| == |args| && ArgumentValue(args[j], Split(tokens, spec).value.slots[j]).Ok?
    ensures Complete(args[j].nargs, ArgumentValue(args[j], Split(tokens, NargsSpec(args)).value.slots[j]).value)
  {
    hide Demand, Cells, Slot, Split, Complete, ArgumentValue, AfterFront, BeforeBack;
    var spec := NargsSpec(args);
    SlotIsSlice(tokens, spec, j);
    var w := FirstWild(spec);
    var rest := AfterFront(tokens, Demand(spec[..w]));
    if j < w {
      CellsComplete(args[j], tokens, Demand(spec[..j]));
    } else if j > w {
      CellsComplete(args[j], rest, |rest| - Demand(spec[j..]));
    } else {
      WildComplete(args[j], BeforeBack(rest, Demand(spec[j + 1..])));
    }
  }

  lemma WildComplete(a: Arg, tokens: seq<string>)
    requires a.nargs < 0
    ensures ArgumentValue(a, Tuple(Texts(tokens))).Ok? && Complete(a.nargs, ArgumentValue(a, Tuple(Texts(tokens))).value)
  {
  }

  // Main result: outside resilient parsing a parse that returns has processed every declared argument,
  // in order and behind the options, and none of them shows an incomplete tuple.
  lemma ReturnedIsComplete(P: Config, args: seq<string>)
    requires ParseArgs(P, args).Ok? && !P.resilient
    ensures var r := ParseArgs(P, args).value;
            && IsSuffix(Objs(P.args), r.order)
            && forall j :: 0 <= j < |P.args| && Last(P.args, j) ==>
                 P.args[j].dest in r.opts && Complete(P.args[j].nargs, r.opts[P.args[j].dest])
  {
    hide OptionLoop, Split, ArgumentValue, NonZero, ProcessArguments, Complete, Last;
    var loop := OptionLoop(P, Start(args)).st;
    assert ParseState(P, args) == ArgumentPhase(P, loop);
    ArgumentPhaseConserves(P, loop);
    SucceedsNonZero(P, loop);
    NonZeroSame(NargsSpec(P.args));
    var slots := Split(loop.largs + loop.rargs, NargsSpec(P.args)).value.slots;
    forall j | 0 <= j < |P.args| && Last(P.args, j)
      ensures var opts := ProcessArguments(P.args, slots, 0, loop).st.opts;
              P.args[j].dest in opts && Complete(P.args[j].nargs, opts[P.args[j].dest])
    {
      ProcessArgumentsStores(P.args, slots, 0, loop, j);
      SlotComplete(P.args, loop.largs + loop.rargs, j);
    }
  }

  lemma {:induction false} StopsAt(args: seq<Arg>, slots: seq<Value>, i: nat, j: nat, st: State)
    requires i <= j < |args| == |slots| && ArgumentValue(args[j], slots[j]).Err?
    requires forall k :: i <= k < j ==> ArgumentValue(args[k], slots[k]).Ok?
    ensures var r := ProcessArguments(args, slots, i, st);
            r.raised == Some(ArgumentValue(args[j], slots[j]).error) && r.st.largs == st.largs
    decreases j - i
  {
    hide ArgumentValue;
    if i < j {
      StopsAt(args, slots, i + 1, j,
              st.(opts := st.opts[args[i].dest := ArgumentValue(args[i], slots[i]).value], order := st.order + [args[i].obj]));
    }
  }

  lemma CellsOk(a: Arg, tokens: seq<string>, start: nat)
    requires a.nargs > 0
    ensures start < |tokens| < start + a.nargs ==>
              ArgumentValue(a, Slot(Cells(tokens, start, a.nargs))) == Err(BadArgumentUsage(a.dest, a.nargs))
    ensures !(start < |tokens| < start + a.nargs) ==> ArgumentValue(a, Slot(Cells(tokens, start, a.nargs))).Ok?
  {
    var cells := Cells(tokens, start, a.nargs);
    HolesCounted(cells);
    if start < |tokens| < start + a.nargs {
      assert cells[0].Text? && cells[a.nargs - 1].Unset?;
    } else if start < |tokens| {
      assert AllTexts(cells);
    } else {
      assert forall i :: 0 <= i < |cells| ==> cells[i].Unset?;
    }
  }

  lemma {:induction false} DemandGrows(spec: seq<int>, i: nat, j: nat)
    requires i <= j <= |spec|
    ensures Demand(spec[..i]) <= Demand(spec[..j])
  {
    DemandAppend(spec[..i], spec[i..j]);
    assert spec[..j] == spec[..i] + spec[i..j];
  }

  // Main result: words that end in the middle of an argument's tuple are refused, in that argument's name.
  lemma IncompleteRefused(P: Config, args: seq<string>, j: nat)
    requires OptionLoop(P, Start(args)).raised.None?
    requires var spec, loop := NargsSpec(P.args), OptionLoop(P, Start(args)).st;
             && (forall i :: 0 <= i < |spec| ==> spec[i] != 0)
             && (forall i, k :: 0 <= i < k < |spec| ==> spec[i] > 0 || spec[k] > 0)
             && j < FirstWild(spec)
             && Demand(spec[..j]) < |loop.largs + loop.rargs| < Demand(spec[..j]) + spec[j]
    ensures ParseState(P, args).raised == Some(BadArgumentUsage(P.args[j].dest, P.args[j].nargs))
    ensures P.resilient ==> ParseArgs(P, args).Ok? && ParseArgs(P, args).value.leftovers == OptionLoop(P, Start(args)).st.largs
    ensures !P.resilient ==> ParseArgs(P, args) == Err(BadArgumentUsage(P.args[j].dest, P.args[j].nargs))
  {
    hide OptionLoop, Split, ArgumentValue, Demand, Cells, Slot, ProcessArguments;
    var spec, loop := NargsSpec(P.args), OptionLoop(P, Start(args)).st;
    var tokens := loop.largs + loop.rargs;
    NonZeroSame(spec);
    SplitFailsExactly(tokens, spec);
    SlotIsSlice(tokens, spec, j);
    var slots := Split(tokens, spec).value.slots;
    forall k | 0 <= k < j ensures ArgumentValue(P.args[k], slots[k]).Ok? {
      SlotIsSlice(tokens, spec, k);
      DemandGrows(spec, k + 1, j);
      DemandUpTo(spec, k);
      CellsOk(P.args[k], tokens, Demand(spec[..k]));
    }
    CellsOk(P.args[j], tokens, Demand(spec[..j]));
    StopsAt(P.args, slots, 0, j, loop);
  }

  lemma DemandUpTo(spec: seq<int>, k: nat)
    requires k < |spec| && spec[k] > 0
    ensures Demand(spec[..k + 1]) == Demand(spec[..k]) + spec[k]
  {
    DemandAppend(spec[..k], [spec[k]]);
    assert spec[..k + 1] == spec[..k] + [spec[k]];
    assert [spec[k]][1..] == [];
  }

  // Two unlimited arguments are no usage error: resilient parsing raises Python's own error too.
  lemma TwoUnlimited(P: Config, args: seq<string>, i: nat, j: nat)
    requires i < j < |P.args| && P.args[i].nargs < 0 && P.args[j].nargs < 0
    requires OptionLoop(P, Start(args)).raised.None?
    ensures ParseArgs(P, args) == Err(TypeError)
  {
    hide OptionLoop, Split;
    var spec, loop := NargsSpec(P.args), OptionLoop(P, Start(args)).st;
    var w := FirstWild(spec);
    assert w <= i;
    NotNegative(spec[..w]);
    TwoWildcards(loop.largs + loop.rargs, spec, w, j);
  }

  lemma {:induction false} NotNegative(spec: seq<int>)
    requires forall i :: 0 <= i < |spec| ==> spec[i] >= 0
    ensures Fixed(NonZero(spec))
  {
    if spec != [] {
      NotNegative(spec[1..]);
    }
  }
}
