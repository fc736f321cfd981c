/** What the option loop keeps, for every argument list: positionals are neither invented nor
    reordered, and what is left to read is always a tail of what was given. */
module ParserLaws {
  import opened CliValues
  import opened Subsequences
  import opened Parser

  // ---------------------------------------------------------------- registered tables

  lemma {:induction false} RegisterValid(P: Config, names: seq<string>, o: Opt)
    requires Valid(P) && forall n :: n in names ==> SplitOpt(n).0 != ""
    ensures Valid(Register(P, names, o))
    decreases |names|
  {
    if names != [] {
      var name, prefix := names[0], SplitOpt(names[0]).0;
      assert name in names;
      assert prefix[..1] == name[..1];
      var Q := if IsShortName(name)
               then P.(shortOpt := P.shortOpt[name := o], prefixes := P.prefixes + {prefix[..1]})
               else P.(longOpt := P.longOpt[name := o], prefixes := P.prefixes + {prefix[..1], prefix});
      RegisterValid(Q, names[1..], o);
    }
  }

  // `add_option` fails exactly on a name without an option prefix, and otherwise keeps the tables valid.
  lemma AddOptionValid(P: Config, names: seq<string>, o: Opt)
    requires Valid(P)
    ensures AddOption(P, names, o).Some? ==> Valid(AddOption(P, names, o).value)
    ensures AddOption(P, names, o).None? <==> exists n :: n in names && (n == "" || IsAlnum(n[0]))
  {
    if AddOption(P, names, o).Some? {
      RegisterValid(P, names, o);
    }
    forall n | n in names ensures SplitOpt(n).0 == "" <==> (n == "" || IsAlnum(n[0])) {}
  }

  datatype Declaration = DeclareOption(names: seq<string>, o: Opt) | DeclareArgument(a: Arg)

  // A parser with all the declarations, the last one first; None when an option name is refused.
  function Build(start: Config, declarations: seq<Declaration>): Option<Config> {
    if declarations == [] then Some(start)
    else
      match Build(start, declarations[1..])
      case None => None
      case Some(P) =>
        match declarations[0]
        case DeclareOption(names, o) => AddOption(P, names, o)
        case DeclareArgument(a) => Some(AddArgument(P, a))
  }

  // Every parser that add_option and add_argument can build from a new one satisfies Valid.
  lemma {:induction false} BuiltValid(interspersed: bool, ignoreUnknown: bool, resilient: bool, declarations: seq<Declaration>)
    ensures var built := Build(NewParser(interspersed, ignoreUnknown, resilient), declarations);
            built.Some? ==> Valid(built.value)
  {
    if declarations != [] {
      BuiltValid(interspersed, ignoreUnknown, resilient, declarations[1..]);
      var rest := Build(NewParser(interspersed, ignoreUnknown, resilient), declarations[1..]);
      if rest.Some? && declarations[0].DeclareOption? {
        AddOptionValid(rest.value, declarations[0].names, declarations[0].o);
      }
    }
  }

  function Find(P: Config, name: string): Option<Opt> {
    if IsShortName(name) then (if name in P.shortOpt then Some(P.shortOpt[name]) else None)
    else if name in P.longOpt then Some(P.longOpt[name]) else None
  }

  // The prefixes a name brings in.
  predicate BringsPrefix(name: string, prefix: string) {
    name != "" && (prefix == name[..1] || (!IsShortName(name) && prefix == SplitOpt(name).0))
  }

  lemma {:induction false} RegisterFinds(P: Config, names: seq<string>, o: Opt, name: string, prefix: string)
    requires forall n :: n in names ==> SplitOpt(n).0 != ""
    ensures var Q := Register(P, names, o);
            && Find(Q, name) == (if name in names then Some(o) else Find(P, name))
            && (prefix in Q.prefixes <==> prefix in P.prefixes || exists n :: n in names && BringsPrefix(n, prefix))
            && Q == P.(shortOpt := Q.shortOpt, longOpt := Q.longOpt, prefixes := Q.prefixes)
    decreases |names|
  {
    if names != [] {
      var first, p := names[0], SplitOpt(names[0]).0;
      assert first in names && p[..1] == first[..1];
      var Q := if IsShortName(first)
               then P.(shortOpt := P.shortOpt[first := o], prefixes := P.prefixes + {p[..1]})
               else P.(longOpt := P.longOpt[first := o], prefixes := P.prefixes + {p[..1], p});
      RegisterFinds(Q, names[1..], o, name, prefix);
      assert names == [first] + names[1..];
      assert prefix in Q.prefixes <==> prefix in P.prefixes || BringsPrefix(first, prefix);
    }
  }

  // The last declared option with the name; the arguments in the order of their declaration.
  function DeclaredOption(declarations: seq<Declaration>, name: string): Option<Opt> {
    if declarations == [] then None
    else if declarations[0].DeclareOption? && name in declarations[0].names then Some(declarations[0].o)
    else DeclaredOption(declarations[1..], name)
  }

  function DeclaredArguments(declarations: seq<Declaration>): seq<Arg> {
    if declarations == [] then []
    else DeclaredArguments(declarations[1..]) + if declarations[0].DeclareArgument? then [declarations[0].a] else []
  }

  ghost predicate DeclaredPrefix(declarations: seq<Declaration>, prefix: string) {
    declarations != [] &&
    (|| (declarations[0].DeclareOption? && exists n :: n in declarations[0].names && BringsPrefix(n, prefix))
     || DeclaredPrefix(declarations[1..], prefix))
  }

  // Main result: a parser knows each name as the last option declared with it, and no other name; it
  // knows the two prefixes it starts with and those of its names; and it has the arguments in order.
  lemma {:induction false} BuiltFinds(interspersed: bool, ignoreUnknown: bool, resilient: bool, declarations: seq<Declaration>,
                                      name: string, prefix: string)
    ensures var built := Build(NewParser(interspersed, ignoreUnknown, resilient), declarations);
            built.Some? ==>
              && Find(built.value, name) == DeclaredOption(declarations, name)
              && (prefix in built.value.prefixes <==> prefix == "-" || prefix == "--" || DeclaredPrefix(declarations, prefix))
              && built.value.args == DeclaredArguments(declarations)
              && built.value.interspersed == interspersed && built.value.ignoreUnknown == ignoreUnknown
              && built.value.resilient == resilient
  {
    hide Register, BringsPrefix;
    if declarations != [] {
      BuiltFinds(interspersed, ignoreUnknown, resilient, declarations[1..], name, prefix);
      var rest := Build(NewParser(interspersed, ignoreUnknown, resilient), declarations[1..]);
      if rest.Some? && declarations[0].DeclareOption? && AddOption(rest.value, declarations[0].names, declarations[0].o).Some? {
        RegisterFinds(rest.value, declarations[0].names, declarations[0].o, name, prefix);
      }
    }
  }

  // ---------------------------------------------------------------- loop heads

  // A value-taking option that cannot leave an injected value unconsumed.
  predicate SafeOption(o: Opt) {
    o.TakesValue() ==> o.nargs == 1 || (o.nargs >= 2 && !o.flagNeedsValue)
  }

  // Right after flag f, appending to o's list fails: f has left something else under o's destination.
  predicate Clashes(f: Opt, o: Opt) {
    && o.action.Append? && f.dest == o.dest
    && (f.action.Count? || (f.action.StoreConst? && !f.constant.List?))
  }

  // A command line can get to a long option unless its name holds the separator of `name=value`, ...
  predicate LongReached(n: string) {
    '=' !in n
  }

  // ... and to a short option unless its letter is that separator, its prefix alone is a long option,
  // and no flag can stand before it in a cluster.
  ghost predicate ShortReached(P: Config, n: string)
    requires n in P.shortOpt
  {
    || |n| != 2 || n[1] != '=' || n[0] == '=' || P.ignoreUnknown || [n[0]] !in P.longOpt
    || exists f :: f in P.shortOpt && FlagBefore(P, f, n)
  }

  predicate FlagBefore(P: Config, f: string, n: string)
    requires f in P.shortOpt && n in P.shortOpt
  {
    |f| == 2 == |n| && f[0] == n[0] && f[1] != '=' && !P.shortOpt[f].TakesValue() && !Clashes(P.shortOpt[f], P.shortOpt[n])
  }

  ghost predicate AllSafe(P: Config) {
    && (forall n :: n in P.shortOpt && ShortReached(P, n) ==> SafeOption(P.shortOpt[n]))
    && (forall n :: n in P.longOpt && LongReached(n) ==> SafeOption(P.longOpt[n]))
  }

  // Where the letters of a cluster stand: at the first one, which is no separator of a long option, or
  // behind one that is unknown or has just been processed as a flag.
  ghost predicate InCluster(P: Config, arg: string, i: nat, st: State)
    requires 1 <= i <= |arg|
  {
    || P.ignoreUnknown
    || (i == 1 && (|arg| > 1 && arg[1] == '=' && arg[0] != '=' ==> [arg[0]] !in P.longOpt))
    || (i > 1 && [arg[0], arg[i - 1]] in P.shortOpt
        && !P.shortOpt[[arg[0], arg[i - 1]]].TakesValue() && Left(P.shortOpt[[arg[0], arg[i - 1]]], st))
  }

  // The state holds what flag f leaves under its destination.
  predicate Left(f: Opt, st: State) {
    match f.action
    case Count => f.dest in st.opts && st.opts[f.dest].Number?
    case StoreConst => f.dest in st.opts && st.opts[f.dest] == f.constant
    case _ => true
  }

  lemma FlagLeaves(f: Opt, st: State)
    requires !f.TakesValue() && ProcessOption(f, Unset, st).raised.None?
    ensures Left(f, ProcessOption(f, Unset, st).st)
  {
  }

  // An option that cannot be reached fails where a cluster names it.
  lemma UnreachedRaises(P: Config, arg: string, i: nat, st: State, rargs: seq<string>)
    requires 1 <= i < |arg| && InCluster(P, arg, i, st) && [arg[0], arg[i]] in P.shortOpt
    requires var o := P.shortOpt[[arg[0], arg[i]]]; o.TakesValue() && !ShortReached(P, [arg[0], arg[i]])
    ensures TakeValue(P, [arg[0], arg[i]], P.shortOpt[[arg[0], arg[i]]], st.(rargs := rargs)).raised.Some?
  {
    var name := [arg[0], arg[i]];
    var f := [arg[0], arg[i - 1]];
    assert i > 1 && f != name && name == [f[0], '='];
    assert f[1] != '=' && !FlagBefore(P, f, name);
  }

  // What may be left of rargs once arg, which stood before rest, has been processed: a tail of rest,
  // or all of rest behind a re-injected piece of arg that itself looks like an option.
  ghost predicate Remains(P: Config, arg: string, rest: seq<string>, rargs: seq<string>) {
    || IsSuffix(rargs, rest)
    || (rargs != [] && rargs[1..] == rest && LooksLikeOption(P, rargs[0]) && IsSuffix(rargs[0], arg))
  }

  // Taking the value from an injected text in front of rest.
  lemma SafeInjected(P: Config, name: string, o: Opt, text: string, st: State)
    requires SafeOption(o) && o.TakesValue()
    ensures var r := TakeValue(P, name, o, st.(rargs := [text] + st.rargs));
            && r.st.largs == st.largs
            && (r.raised.None? ==>
                  IsSuffix(r.st.rargs, st.rargs) || (LooksLikeOption(P, text) && r.st.rargs == [text] + st.rargs))
  {
    var pushed := st.(rargs := [text] + st.rargs);
    TakeValueFrame(P, name, o, pushed);
    var r := TakeValue(P, name, o, pushed);
    if r.raised.None? {
      SuffixOfTail(r.st.rargs, text, st.rargs);
    }
  }

  lemma {:induction false} MatchShortRemains(P: Config, arg: string, i: nat, unknown: string, st: State)
    requires AllSafe(P) && 1 <= i <= |arg| && InCluster(P, arg, i, st)
    ensures var r := MatchShort(P, arg, i, unknown, st);
            r.raised.None? ==> Remains(P, arg, st.rargs, r.st.rargs)
    decreases |arg| - i
  {
    hide ProcessOption, TakeValue, LooksLikeOption, SafeOption, ShortReached, Left;
    if i < |arg| {
      var name := [arg[0], arg[i]];
      if name !in P.shortOpt {
        if P.ignoreUnknown {
          MatchShortRemains(P, arg, i + 1, unknown + [arg[i]], st);
        }
      } else {
        var o := P.shortOpt[name];
        if !o.TakesValue() {
          ProcessOptionFrame(o, Unset, st);
          var r := ProcessOption(o, Unset, st);
          if r.raised.None? {
            FlagLeaves(o, st);
            MatchShortRemains(P, arg, i + 1, unknown, r.st);
          }
        } else {
          var rargs := if i + 1 < |arg| then [arg[i + 1..]] + st.rargs else st.rargs;
          if !ShortReached(P, name) {
            UnreachedRaises(P, arg, i, st, rargs);
          } else if i + 1 < |arg| {
            SafeInjected(P, name, o, arg[i + 1..], st);
          } else {
            TakeValueFrame(P, name, o, st);
          }
        }
      }
    }
  }

  // Positionals are only collected by the loop itself, unless unknown options are passed on.
  lemma {:induction false} MatchShortCollects(P: Config, arg: string, i: nat, unknown: string, st: State)
    requires !P.ignoreUnknown && 1 <= i <= |arg|
    ensures MatchShort(P, arg, i, unknown, st).st.largs == st.largs
    decreases |arg| - i
  {
    hide ProcessOption, TakeValue;
    if i < |arg| {
      var name := [arg[0], arg[i]];
      if name in P.shortOpt {
        var o := P.shortOpt[name];
        if !o.TakesValue() {
          ProcessOptionFrame(o, Unset, st);
          MatchShortCollects(P, arg, i + 1, unknown, ProcessOption(o, Unset, st).st);
        } else if i + 1 < |arg| {
          TakeValueFrame(P, name, o, st.(rargs := [arg[i + 1..]] + st.rargs));
        } else {
          TakeValueFrame(P, name, o, st);
          MatchShortCollects(P, arg, i + 1, unknown, TakeValue(P, name, o, st).st);
        }
      }
    }
  }

  lemma ProcessOptsCollects(P: Config, arg: string, st: State)
    requires !P.ignoreUnknown && |arg| > 1
    ensures ProcessOpts(P, arg, st).st.largs == st.largs
  {
    hide ProcessOption, TakeValue, MatchShort;
    var name, explicit := LongName(arg), Explicit(arg);
    if name in P.longOpt {
      var o := P.longOpt[name];
      ProcessOptionFrame(o, Unset, st);
      TakeValueFrame(P, name, o, st);
      if explicit.Some? {
        TakeValueFrame(P, name, o, st.(rargs := [explicit.value] + st.rargs));
      }
    } else {
      MatchShortCollects(P, arg, 1, "", st);
    }
  }

  lemma ClusterStarts(P: Config, arg: string, st: State)
    requires |arg| > 1 && LongName(arg) !in P.longOpt
    ensures InCluster(P, arg, 1, st)
  {
    hide LongName;
    if arg[1] == '=' {
      ShortLongName(arg);
    }
  }

  lemma ShortLongName(arg: string)
    requires |arg| > 1 && arg[1] == '='
    ensures LongName(arg) == if arg[0] == '=' then "" else [arg[0]]
  {
    assert arg[1..][0] == '=';
  }

  lemma ProcessOptsRemains(P: Config, arg: string, st: State)
    requires AllSafe(P) && |arg| > 1
    ensures var r := ProcessOpts(P, arg, st);
            r.raised.None? ==> Remains(P, arg, st.rargs, r.st.rargs)
  {
    hide ProcessOption, TakeValue, LooksLikeOption, SafeOption, MatchShort, ShortReached, InCluster;
    var name, explicit := LongName(arg), Explicit(arg);
    if name in P.longOpt {
      var o := P.longOpt[name];
      assert LongReached(name);
      ProcessOptionFrame(o, Unset, st);
      TakeValueFrame(P, name, o, st);
      if o.TakesValue() && explicit.Some? {
        SafeInjected(P, name, o, explicit.value, st);
      }
    } else if arg[..2] !in P.prefixes {
      ClusterStarts(P, arg, st);
      MatchShortRemains(P, arg, 1, "", st);
    }
  }

  // The state at a loop head, args[..i] having been read: rargs is args[i..], optionally behind one
  // re-injected piece of the last argument read, and largs was picked in order from what was read.
  ghost predicate HeadInv(P: Config, args: seq<string>, st: State, i: nat) {
    && i <= |args|
    && (|| st.rargs == args[i..]
        || (i > 0 && st.rargs != [] && st.rargs[1..] == args[i..]
            && LooksLikeOption(P, st.rargs[0]) && IsSuffix(st.rargs[0], args[i - 1])))
    && (!P.ignoreUnknown ==> IsSubseq(st.largs, args[..i]) && (!P.interspersed ==> st.largs == []))
  }

  lemma SubseqLonger(a: seq<string>, args: seq<string>, i: nat, j: nat)
    requires i <= j <= |args| && IsSubseq(a, args[..i])
    ensures IsSubseq(a, args[..j])
  {
    SubseqPiece(args[..j], 0, i);
    assert args[..j][0..i] == args[..i];
    SubseqTrans(a, args[..i], args[..j]);
  }

  // Processing the option arg, which args[n - 1] ends with: where the next loop head stands.
  lemma HeadAfterOption(P: Config, args: seq<string>, st: State, n: nat, arg: string) returns (j: nat)
    requires AllSafe(P) && HeadInv(P, args, st, n) && st.rargs == args[n..]
    requires n > 0 && |arg| > 1 && IsSuffix(arg, args[n - 1])
    requires ProcessOpts(P, arg, st).raised.None?
    ensures n <= j <= |args| && HeadInv(P, args, ProcessOpts(P, arg, st).st, j)
  {
    hide LooksLikeOption, SafeOption, ProcessOpts, IsSubseq;
    ProcessOptsRemains(P, arg, st);
    if !P.ignoreUnknown { ProcessOptsCollects(P, arg, st); }
    var r := ProcessOpts(P, arg, st).st;
    if IsSuffix(r.rargs, args[n..]) {
      j := |args| - |r.rargs|;
      PieceOfRest(args, n, j - n, |args| - n);
      assert r.rargs == args[j..];
      if !P.ignoreUnknown { SubseqLonger(st.largs, args, n, j); }
    } else {
      j := n;
      SuffixTrans(r.rargs[0], arg, args[n - 1]);
    }
  }

  // Reading the token in front of args[n..]: where the next loop head stands.
  lemma HeadStep(P: Config, args: seq<string>, st: State, i: nat) returns (j: nat)
    requires AllSafe(P) && HeadInv(P, args, st, i) && st.rargs != []
    ensures i <= j <= |args|
    ensures OptionStep(P, st).Continue? ==> HeadInv(P, args, OptionStep(P, st).st, j)
    ensures OptionStep(P, st).Stop? ==> OptionStep(P, st).st.rargs == args[j..] && HeadInv(P, args, OptionStep(P, st).st, j)
  {
    hide LooksLikeOption, SafeOption, ProcessOpts, IsSubseq;
    var arg, rest := st.rargs[0], st.(rargs := st.rargs[1..]);
    // One more argument has been read when arg is not a re-injected piece.
    var n := if st.rargs == args[i..] then i + 1 else i;
    assert rest.rargs == args[n..];
    if !P.ignoreUnknown { SubseqLonger(st.largs, args, i, n); }
    assert HeadInv(P, args, rest, n);
    j := n;
    if arg == "--" {
    } else if LooksLikeOption(P, arg) {
      LooksLong(P, arg);
      if ProcessOpts(P, arg, rest).raised.None? {
        assert IsSuffix(arg, args[n - 1]);
        j := HeadAfterOption(P, args, rest, n, arg);
      }
    } else if P.interspersed {
      if !P.ignoreUnknown {
        SubseqRefl([arg]);
        SubseqAppend(st.largs, args[..i], [arg], [arg]);
        assert args[..i] + [arg] == args[..n];
      }
    } else {
      j := i;
    }
  }

  lemma LooksLong(P: Config, arg: string)
    requires LooksLikeOption(P, arg)
    ensures |arg| > 1
  {
  }

  // The states at the loop heads of a run, up to the one that ends it.
  function LoopHeads(P: Config, st: State): (heads: seq<State>)
    ensures heads != [] && heads[0] == st
    decreases Weight(st.rargs)
  {
    if st.rargs == [] then [st]
    else
      StepWeight(P, st);
      match OptionStep(P, st)
      case Continue(next) => [st] + LoopHeads(P, next)
      case _ => [st]
  }

  // Main result: the loop invariant, at every head of every run.
  lemma {:induction false} HeadsKeepInvariant(P: Config, args: seq<string>, st: State, i: nat, k: nat) returns (j: nat)
    requires AllSafe(P) && HeadInv(P, args, st, i) && k < |LoopHeads(P, st)|
    ensures HeadInv(P, args, LoopHeads(P, st)[k], j) && j >= i
    decreases k
  {
    hide OptionStep, HeadInv;
    j := i;
    if k > 0 {
      var m := HeadStep(P, args, st, i);
      StepWeight(P, st);
      j := HeadsKeepInvariant(P, args, OptionStep(P, st).st, m, k - 1);
    }
  }

  // Main result: a successful run leaves an exact tail of the arguments to read, and the positionals
  // it collected are, in order, arguments it has passed.
  lemma {:induction false} LoopConserves(P: Config, args: seq<string>, st: State, i: nat) returns (j: nat)
    requires AllSafe(P) && HeadInv(P, args, st, i) && OptionLoop(P, st).raised.None?
    ensures i <= j <= |args|
    ensures var r := OptionLoop(P, st).st;
            && r.rargs == args[j..]
            && (!P.ignoreUnknown ==> IsSubseq(r.largs, args[..j]) && IsSubseq(r.largs + r.rargs, args))
            && (!P.ignoreUnknown && !P.interspersed ==> r.largs == [])
    decreases Weight(st.rargs)
  {
    hide OptionStep, IsSubseq;
    if st.rargs == [] {
      j := |args|;
      if !P.ignoreUnknown { SubseqLonger(st.largs, args, i, j); }
    } else {
      StepWeight(P, st);
      j := HeadStep(P, args, st, i);
      if OptionStep(P, st).Continue? {
        j := LoopConserves(P, args, OptionStep(P, st).st, j);
      }
    }
    if !P.ignoreUnknown {
      var r := OptionLoop(P, st).st;
      SubseqRefl(r.rargs);
      SubseqAppend(r.largs, args[..j], r.rargs, args[j..]);
      assert args[..j] + args[j..] == args;
    }
  }

  // ---------------------------------------------------------------- exactly when positionals are conserved

  ghost predicate ConservesTokens(P: Config) {
    forall args: seq<string> ::
      OptionLoop(P, Start(args)).raised.None? ==>
        IsSubseq(OptionLoop(P, Start(args)).st.largs + OptionLoop(P, Start(args)).st.rargs, args)
  }

  lemma {:induction false} FindEqualsAfter(name: string, v: string)
    requires '=' !in name
    ensures FindEquals(name + "=" + v) == |name|
  {
    var arg := name + "=" + v;
    if name == "" {
      assert arg == "=" + v;
    } else {
      FindEqualsAfter(name[1..], v);
      assert arg[1..] == name[1..] + "=" + v;
      assert name[0] in name;
    }
  }

  // Appending to o's list would not fail.
  predicate Ready(o: Opt, st: State) {
    o.action.Append? && o.dest in st.opts ==> st.opts[o.dest].List?
  }

  lemma LonePositional(P: Config, st: State, text: string)
    requires st.rargs == [text] && st.largs == [] && !LooksLikeOption(P, text) && text != "--"
    ensures var r := OptionLoop(P, st); r.raised.None? && r.st.largs + r.st.rargs == [text]
  {
    if P.interspersed {
      var next := st.(largs := [text], rargs := []);
      assert OptionStep(P, st) == Continue(next) by { assert st.rargs[1..] == []; assert [] + [text] == [text]; }
      assert OptionLoop(P, next) == Fine(next);
    }
  }

  lemma OneStep(P: Config, arg: string, next: State)
    requires LooksLikeOption(P, arg) && arg != "--" && ProcessOpts(P, arg, Start([])) == Fine(next)
    ensures OptionLoop(P, Start([arg])) == OptionLoop(P, next)
  {
    var st := Start([arg]);
    assert st.(rargs := st.rargs[1..]) == Start([]);
    assert OptionStep(P, st) == Continue(next);
  }

  lemma UnsafeLong(P: Config, name: string)
    requires Valid(P) && name in P.longOpt && '=' !in name && !SafeOption(P.longOpt[name])
    ensures !ConservesTokens(P)
  {
    var arg := name + "=" + "";
    FindEqualsAfter(name, "");
    assert arg[..|name|] == name && arg[|name| + 1..] == "";
    assert arg[..1] == name[..1];
    var r := ProcessOpts(P, arg, Start([]));
    assert [""] + [] == [""];
    assert arg[|arg| - 1] == '=';
    OneStep(P, arg, r.st);
    LonePositional(P, r.st, "");
    NotTaken(P, arg, "");
  }

  lemma LongNameOfShort(P: Config, name: string, arg: string)
    requires Valid(P) && name in P.shortOpt && arg == name + "="
    ensures |name| == 2 && LongName(arg) == if name[0] == '=' then "" else if name[1] == '=' then [name[0]] else name
    ensures LongName(arg) !in P.longOpt <==> name[0] == '=' || name[1] != '=' || [name[0]] !in P.longOpt
    ensures arg[..1] in P.prefixes && arg[..2] == name && name !in P.prefixes
  {
    assert arg[..1] == name[..1];
    assert name[0] != name[1];
    if name[0] != '=' {
      assert arg[1..][0] == name[1];
      if name[1] != '=' {
        FindEqualsAfter(name, "");
        assert name + "=" + "" == arg;
      }
    }
  }

  lemma UnsafeShort(P: Config, name: string)
    requires Valid(P) && !P.ignoreUnknown && name in P.shortOpt && ShortReached(P, name) && !SafeOption(P.shortOpt[name])
    ensures !ConservesTokens(P)
  {
    var arg := name + "=";
    LongNameOfShort(P, name, arg);
    if LongName(arg) !in P.longOpt {
      UnsafeAlone(P, name);
    } else {
      var f :| f in P.shortOpt && FlagBefore(P, f, name);
      UnsafeBehind(P, f, name);
    }
  }

  lemma UnsafeAlone(P: Config, name: string)
    requires Valid(P) && name in P.shortOpt && !SafeOption(P.shortOpt[name]) && LongName(name + "=") !in P.longOpt
    ensures !ConservesTokens(P)
  {
    hide LongName;
    var arg := name + "=";
    LongNameOfShort(P, name, arg);
    assert [arg[0], arg[1]] == name && arg[2..] == "=";
    assert ["="] + [] == ["="];
    var r := ProcessOpts(P, arg, Start([]));
    assert r == MatchShort(P, arg, 1, "", Start([]));
    assert r.raised.None? && r.st.rargs == ["="] && r.st.largs == [];
    OneStep(P, arg, r.st);
    LonePositional(P, r.st, "=");
    NotTaken(P, arg, "=");
  }

  // The separator as an option letter, behind a flag that keeps the word from being a long option.
  lemma UnsafeBehind(P: Config, f: string, name: string)
    requires Valid(P) && f in P.shortOpt && name in P.shortOpt && FlagBefore(P, f, name)
    requires name[1] == '=' && name[0] != '=' && !SafeOption(P.shortOpt[name])
    ensures !ConservesTokens(P)
  {
    hide LongName;
    var arg := f + "=" + "=";
    LongNameOfShort(P, f, f + "=");
    FindEqualsAfter(f, "=");
    LongNameCut(arg, 2);
    assert arg[..2] == f && arg[..1] == f[..1] && [arg[0], arg[1]] == f && [arg[0], arg[2]] == name && arg[3..] == "=";
    var st := ProcessOption(P.shortOpt[f], Unset, Start([]));
    ProcessOptionFrame(P.shortOpt[f], Unset, Start([]));
    assert st.raised.None? && Ready(P.shortOpt[name], st.st);
    assert ["="] + [] == ["="];
    var r := ProcessOpts(P, arg, Start([]));
    assert MatchShort(P, arg, 1, "", Start([])) == MatchShort(P, arg, 2, "", st.st);
    assert r.raised.None? && r.st.rargs == ["="] && r.st.largs == [];
    OneStep(P, arg, r.st);
    LonePositional(P, r.st, "=");
    NotTaken(P, arg, "=");
  }

  lemma LongNameCut(arg: string, k: nat)
    requires FindEquals(arg) == k
    ensures LongName(arg) == arg[..k]
  {
  }

  lemma NotTaken(P: Config, arg: string, text: string)
    requires arg != text
    requires var r := OptionLoop(P, Start([arg])); r.raised.None? && r.st.largs + r.st.rargs == [text]
    ensures !ConservesTokens(P)
  {
    if IsSubseq([text], [arg]) {
      SubseqElement(text, [arg]);
    }
  }

  // Main result: without ignore_unknown_options, parsing conserves positionals on every argument list
  // if and only if each value-taking option that a command line can reach has nargs 1, or nargs above 1
  // and a mandatory value.
  lemma ConservationExactly(P: Config)
    requires Valid(P) && !P.ignoreUnknown
    ensures ConservesTokens(P) <==> AllSafe(P)
  {
    hide OptionLoop, IsSubseq, ShortReached;
    if AllSafe(P) {
      forall args: seq<string> | OptionLoop(P, Start(args)).raised.None?
        ensures IsSubseq(OptionLoop(P, Start(args)).st.largs + OptionLoop(P, Start(args)).st.rargs, args)
      {
        StartsInvariant(P, args);
        var _ := LoopConserves(P, args, Start(args), 0);
      }
    } else if n :| n in P.shortOpt && ShortReached(P, n) && !SafeOption(P.shortOpt[n]) {
      UnsafeShort(P, n);
    } else {
      var n :| n in P.longOpt && LongReached(n) && !SafeOption(P.longOpt[n]);
      UnsafeLong(P, n);
    }
  }

  lemma StartsInvariant(P: Config, args: seq<string>)
    ensures HeadInv(P, args, Start(args), 0)
  {
    assert args[0..] == args;
  }

  // ---------------------------------------------------------------- characters, for every parser

  function Flat(tokens: seq<string>): string {
    if tokens == [] then [] else tokens[0] + Flat(tokens[1..])
  }

  lemma {:induction false} FlatAppend(a: seq<string>, b: seq<string>)
    ensures Flat(a + b) == Flat(a) + Flat(b)
  {
    if a == [] {
      assert a + b == b;
    } else {
      FlatAppend(a[1..], b);
      ConcatTail(a, b);
      ConcatAssoc(a[0], Flat(a[1..]), Flat(b));
    }
  }

  lemma FlatOne(token: string)
    ensures Flat([token]) == token
  {
    assert [token][1..] == [];
  }

  // A tail of the tokens holds a subsequence of their characters.
  lemma FlatSuffix(rargs: seq<string>, tail: seq<string>, rest: seq<string>)
    requires IsSuffix(rargs, tail + rest)
    ensures IsSubseq(Flat(rargs), Flat(tail) + Flat(rest))
  {
    hide IsSubseq, Flat;
    var b := tail + rest;
    var k := |b| - |rargs|;
    FlatAppend(tail, rest);
    FlatAppend(b[..k], b[k..]);
    assert b == b[..k] + b[k..];
    var dropped, kept := Flat(b[..k]), Flat(rargs);
    SubseqPiece(dropped + kept, |dropped|, |dropped| + |kept|);
    assert (dropped + kept)[|dropped|..|dropped| + |kept|] == kept;
  }

  lemma Sandwich<T>(l: seq<T>, p: seq<T>, t: seq<T>, s: seq<T>, g: seq<T>, arg: seq<T>)
    requires IsSubseq(p + t, arg) && IsSubseq(g, t + s)
    ensures IsSubseq((l + p) + g, (l + arg) + s)
  {
    hide IsSubseq;
    SubseqRefl(l + p);
    SubseqRefl(l);
    SubseqRefl(s);
    SubseqAppend(l + p, l + p, g, t + s);
    SubseqAppend(l, l, p + t, arg);
    SubseqAppend(l + (p + t), l + arg, s, s);
    ConcatAssoc(l, p, t);
    ConcatAssoc(l + p, t, s);
    SubseqTrans((l + p) + g, (l + p) + (t + s), (l + arg) + s);
  }

  // The effect of processing arg: `reported` joins largs, and rargs is drawn from `tail + rest`.
  lemma Assemble(largs: seq<string>, reported: seq<string>, tail: string, rest: string, rargs: string, arg: string)
    requires IsSubseq(Flat(reported) + tail, arg) && IsSubseq(rargs, tail + rest)
    ensures IsSubseq(Flat(largs + reported) + rargs, Flat(largs) + arg + rest)
  {
    FlatAppend(largs, reported);
    Sandwich(Flat(largs), Flat(reported), tail, rest, rargs, arg);
  }

  ghost predicate TakesChars(before: State, arg: string, after: State) {
    IsSubseq(Flat(after.largs) + Flat(after.rargs), Flat(before.largs) + arg + Flat(before.rargs))
  }

  // Nothing reported, rargs a tail of what it was.
  lemma OnlyDrops(before: State, arg: string, after: State)
    requires after.largs == before.largs && IsSuffix(after.rargs, before.rargs)
    ensures TakesChars(before, arg, after)
  {
    assert [] + before.rargs == before.rargs && before.largs + [] == before.largs;
    assert Flat([]) + Flat([]) == [];
    FlatSuffix(after.rargs, [], before.rargs);
    Assemble(before.largs, [], Flat([]), Flat(before.rargs), Flat(after.rargs), arg);
  }

  // One piece of arg pushed back in front of rargs, of which a tail remains.
  lemma PushesBack(before: State, arg: string, k: nat, after: State)
    requires k <= |arg| && after.largs == before.largs && IsSuffix(after.rargs, [arg[k..]] + before.rargs)
    ensures TakesChars(before, arg, after)
  {
    SubseqPiece(arg, k, |arg|);
    FlatOne(arg[k..]);
    assert arg[k..|arg|] == arg[k..];
    assert before.largs + [] == before.largs && [] + arg[k..] == arg[k..];
    FlatSuffix(after.rargs, [arg[k..]], before.rargs);
    Assemble(before.largs, [], Flat([arg[k..]]), Flat(before.rargs), Flat(after.rargs), arg);
  }

  // The unknown letters before letter i and a later piece of the cluster do not overlap.
  lemma Disjoint(arg: string, i: nat, unknown: string, k: nat)
    requires 1 <= i <= k <= |arg| && IsSubseq([arg[0]] + unknown, arg[..i])
    ensures IsSubseq([arg[0]] + unknown + arg[k..], arg) && IsSubseq(arg[k..], arg)
  {
    SubseqPiece(arg, k, |arg|);
    assert arg[k..|arg|] == arg[k..];
    SubseqPiece(arg[i..], k - i, |arg| - i);
    assert arg[i..][k - i..|arg| - i] == arg[k..];
    SubseqAppend([arg[0]] + unknown, arg[..i], arg[k..], arg[i..]);
    assert arg == arg[..i] + arg[i..];
  }

  lemma Reports(P: Config, before: State, arg: string, i: nat, unknown: string, k: nat, after: State)
    requires 1 <= i <= k <= |arg| && IsSubseq([arg[0]] + unknown, arg[..i])
    requires after.largs == before.largs
    requires IsSuffix(after.rargs, (if k < |arg| then [arg[k..]] else []) + before.rargs)
    ensures TakesChars(before, arg, ReportUnknown(P, arg, unknown, after))
  {
    hide IsSubseq, Flat, IsSuffix;
    var tail := if k < |arg| then [arg[k..]] else [];
    FlatSuffix(after.rargs, tail, before.rargs);
    Disjoint(arg, i, unknown, k);
    FlatTail(arg, k);
    if P.ignoreUnknown && unknown != "" {
      FlatOne([arg[0]] + unknown);
      Assemble(before.largs, [[arg[0]] + unknown], Flat(tail), Flat(before.rargs), Flat(after.rargs), arg);
    } else {
      FlatNil(Flat(tail));
      assert before.largs + [] == before.largs;
      Assemble(before.largs, [], Flat(tail), Flat(before.rargs), Flat(after.rargs), arg);
    }
  }

  lemma FlatNil(s: string)
    ensures Flat([]) + s == s
  {
  }

  lemma FlatTail(arg: string, k: nat)
    requires k <= |arg|
    ensures Flat(if k < |arg| then [arg[k..]] else []) == arg[k..]
  {
    if k < |arg| {
      FlatOne(arg[k..]);
    }
  }

  // A value option met in a cluster before letter k: it takes the rest of the cluster ...
  lemma ClusterTailChars(P: Config, arg: string, i: nat, unknown: string, k: nat, st: State, name: string, o: Opt)
    requires 1 <= i <= k < |arg| && IsSubseq([arg[0]] + unknown, arg[..i])
    ensures var r := TakeValue(P, name, o, st.(rargs := [arg[k..]] + st.rargs));
            TakesChars(st, arg, r.st) && TakesChars(st, arg, ReportUnknown(P, arg, unknown, r.st))
  {
    hide TakeValue, TakesChars, IsSubseq, ReportUnknown, IsSuffix, Flat;
    var pushed := st.(rargs := [arg[k..]] + st.rargs);
    TakeValueFrame(P, name, o, pushed);
    var r := TakeValue(P, name, o, pushed);
    PushesBack(st, arg, k, r.st);
    Reports(P, st, arg, i, unknown, k, r.st);
  }

  // ... or, as the last letter, the next argument.
  lemma ClusterLastChars(P: Config, arg: string, i: nat, unknown: string, st: State, name: string, o: Opt)
    requires 1 <= i <= |arg| && IsSubseq([arg[0]] + unknown, arg[..i])
    ensures var r := TakeValue(P, name, o, st);
            TakesChars(st, arg, r.st) && TakesChars(st, arg, ReportUnknown(P, arg, unknown, r.st))
  {
    hide TakeValue, TakesChars, IsSubseq, ReportUnknown, IsSuffix, Flat;
    TakeValueFrame(P, name, o, st);
    var r := TakeValue(P, name, o, st);
    assert [] + st.rargs == st.rargs;
    OnlyDrops(st, arg, r.st);
    Reports(P, st, arg, i, unknown, |arg|, r.st);
  }

  lemma {:induction false} MatchShortChars(P: Config, arg: string, i: nat, unknown: string, st: State)
    requires 1 <= i <= |arg| && IsSubseq([arg[0]] + unknown, arg[..i])
    ensures TakesChars(st, arg, MatchShort(P, arg, i, unknown, st).st)
    decreases |arg| - i
  {
    hide ProcessOption, TakeValue, TakesChars, IsSubseq, ReportUnknown;
    OnlyDrops(st, arg, st);
    assert [] + st.rargs == st.rargs;
    if i == |arg| {
      Reports(P, st, arg, i, unknown, i, st);
    } else {
      var name := [arg[0], arg[i]];
      KeepLetter(arg, i, unknown);
      if name !in P.shortOpt {
        if P.ignoreUnknown {
          MatchShortChars(P, arg, i + 1, unknown + [arg[i]], st);
        }
      } else {
        var o := P.shortOpt[name];
        if o.TakesValue() {
          if i + 1 < |arg| {
            ClusterTailChars(P, arg, i, unknown, i + 1, st, name, o);
          } else {
            ClusterLastChars(P, arg, i, unknown, st, name, o);
          }
        } else {
          ProcessOptionFrame(o, Unset, st);
          var r := ProcessOption(o, Unset, st);
          OnlyDrops(st, arg, r.st);
          if r.raised.None? {
            MatchShortChars(P, arg, i + 1, unknown, r.st);
            SameTokens(st, r.st, arg, MatchShort(P, arg, i + 1, unknown, r.st).st);
          }
        }
      }
    }
  }

  lemma SameTokens(a: State, b: State, arg: string, after: State)
    requires a.largs == b.largs && a.rargs == b.rargs && TakesChars(b, arg, after)
    ensures TakesChars(a, arg, after)
  {
  }

  lemma KeepLetter(arg: string, i: nat, unknown: string)
    requires 1 <= i < |arg| && IsSubseq([arg[0]] + unknown, arg[..i])
    ensures IsSubseq([arg[0]] + (unknown + [arg[i]]), arg[..i + 1])
    ensures IsSubseq([arg[0]] + unknown, arg[..i + 1])
  {
    SubseqRefl([arg[i]]);
    SubseqAppend([arg[0]] + unknown, arg[..i], [arg[i]], [arg[i]]);
    SubseqAppend([arg[0]] + unknown, arg[..i], [], [arg[i]]);
    assert arg[..i + 1] == arg[..i] + [arg[i]];
    assert [arg[0]] + unknown + [] == [arg[0]] + unknown;
    ConcatAssoc([arg[0]], unknown, [arg[i]]);
  }

  lemma ProcessOptsChars(P: Config, arg: string, st: State)
    requires |arg| > 1
    ensures TakesChars(st, arg, ProcessOpts(P, arg, st).st)
  {
    hide ProcessOption, TakeValue, TakesChars, MatchShort, IsSubseq;
    var name, explicit := LongName(arg), Explicit(arg);
    OnlyDrops(st, arg, st);
    if name in P.longOpt {
      var o := P.longOpt[name];
      if !o.TakesValue() {
        if explicit.None? {
          ProcessOptionFrame(o, Unset, st);
          OnlyDrops(st, arg, ProcessOption(o, Unset, st).st);
        }
      } else if explicit.Some? {
        var pushed := st.(rargs := [explicit.value] + st.rargs);
        TakeValueFrame(P, name, o, pushed);
        PushesBack(st, arg, FindEquals(arg) + 1, TakeValue(P, name, o, pushed).st);
      } else {
        TakeValueFrame(P, name, o, st);
        OnlyDrops(st, arg, TakeValue(P, name, o, st).st);
      }
    } else if arg[..2] !in P.prefixes {
      SubseqRefl(arg[..1]);
      assert [arg[0]] + "" == arg[..1];
      MatchShortChars(P, arg, 1, "", st);
    } else if P.ignoreUnknown {
      PassOn(st, arg);
    }
  }

  lemma PassOn(st: State, arg: string)
    ensures TakesChars(st, arg, st.(largs := st.largs + [arg]))
  {
    assert [] + st.rargs == st.rargs;
    FlatOne(arg);
    assert arg + Flat([]) == arg;
    SubseqRefl(arg);
    FlatSuffix(st.rargs, [], st.rargs);
    Assemble(st.largs, [arg], Flat([]), Flat(st.rargs), Flat(st.rargs), arg);
  }

  // One pass of the loop.
  lemma StepChars(P: Config, st: State)
    requires st.rargs != []
    ensures var next := OptionStep(P, st).st;
            IsSubseq(Flat(next.largs + next.rargs), Flat(st.largs + st.rargs))
  {
    hide IsSubseq, ProcessOpts, Flat;
    var arg, rest := st.rargs[0], st.(rargs := st.rargs[1..]);
    var next := OptionStep(P, st).st;
    assert st.rargs == [arg] + rest.rargs;
    FlatAppend(st.largs, st.rargs);
    FlatAppend([arg], rest.rargs);
    FlatOne(arg);
    ConcatAssoc(Flat(st.largs), arg, Flat(rest.rargs));
    FlatAppend(next.largs, next.rargs);
    SubseqRefl(Flat(st.largs + st.rargs));
    if arg == "--" {
      OnlyDrops(rest, arg, rest);
    } else if LooksLikeOption(P, arg) {
      LooksLong(P, arg);
      ProcessOptsChars(P, arg, rest);
    } else if P.interspersed {
      PassOn(rest, arg);
    }
  }

  // Main result: for every parser and every argument list, also when parsing fails, what largs and
  // rargs hold is obtained from the arguments by deleting characters, in order.
  lemma {:induction false} LoopConservesChars(P: Config, st: State)
    ensures var r := OptionLoop(P, st).st; IsSubseq(Flat(r.largs + r.rargs), Flat(st.largs + st.rargs))
    decreases Weight(st.rargs)
  {
    hide OptionStep, IsSubseq;
    SubseqRefl(Flat(st.largs + st.rargs));
    if st.rargs != [] {
      StepWeight(P, st);
      StepChars(P, st);
      var step := OptionStep(P, st);
      if step.Continue? {
        LoopConservesChars(P, step.st);
        var r := OptionLoop(P, step.st).st;
        SubseqTrans(Flat(r.largs + r.rargs), Flat(step.st.largs + step.st.rargs), Flat(st.largs + st.rargs));
      }
    }
  }
}
