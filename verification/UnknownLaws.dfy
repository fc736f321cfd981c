/** Conservation of positionals by parsers that pass unknown options on. */
module UnknownLaws {
  import opened CliValues
  import opened Subsequences
  import opened Parser
  import opened ParserLaws

  predicate CarefulOption(o: Opt) {
    o.TakesValue() ==> o.nargs >= 1 && !o.flagNeedsValue
  }

  // A letter that can open a cluster behind prefix p without being an option.
  predicate Free(P: Config, p: char, u: char) {
    [p, u] !in P.shortOpt && [p, u] !in P.prefixes && (u == '=' && p != '=' ==> [p] !in P.longOpt)
  }

  // An option whose letter can open a cluster.
  predicate FirstReached(P: Config, n: string)
    requires |n| == 2
  {
    n[1] != '=' || n[0] == '=' || [n[0]] !in P.longOpt
  }

  // No unknown letter can share a cluster with an option, and every value-taking option has a value
  // that it cannot omit.
  ghost predicate Careful(P: Config) {
    && (forall n :: n in P.shortOpt && |n| == 2 ==>
          && (forall u :: !Free(P, n[0], u))
          && (FirstReached(P, n) ==> P.shortOpt[n].TakesValue() && CarefulOption(P.shortOpt[n])))
    && (forall n :: n in P.longOpt && LongReached(n) ==> CarefulOption(P.longOpt[n]))
  }

  // Unregistered letters of a cluster are collected one by one.
  lemma {:induction false} UnknownLetters(P: Config, arg: string, i: nat, j: nat, unknown: string, st: State)
    requires P.ignoreUnknown && 1 <= i <= j <= |arg|
    requires forall t :: i <= t < j ==> [arg[0], arg[t]] !in P.shortOpt
    ensures MatchShort(P, arg, i, unknown, st) == MatchShort(P, arg, j, unknown + arg[i..j], st)
    decreases j - i
  {
    if i == j {
      assert unknown + arg[i..j] == unknown;
    } else {
      UnknownLetters(P, arg, i + 1, j, unknown + [arg[i]], st);
      assert unknown + arg[i..j] == unknown + [arg[i]] + arg[i + 1..j];
    }
  }

  lemma WholeCluster(P: Config, arg: string, st: State)
    requires P.ignoreUnknown && |arg| > 1 && forall t :: 1 <= t < |arg| ==> [arg[0], arg[t]] !in P.shortOpt
    ensures MatchShort(P, arg, 1, "", st) == Fine(st.(largs := st.largs + [arg]))
  {
    UnknownLetters(P, arg, 1, |arg|, "", st);
    assert "" + arg[1..|arg|] == arg[1..] && [arg[0]] + arg[1..] == arg;
  }

  // ---------------------------------------------------------------- careful parsers conserve

  lemma Dropped(l: seq<string>, arg: string, r: seq<string>, k: nat)
    requires k <= |r|
    ensures IsSubseq(l + r[k..], l + [arg] + r)
  {
    SubseqRefl(l);
    SubseqRefl(r[k..]);
    SubseqAppend([], [arg] + r[..k], r[k..], r[k..]);
    assert [arg] + r[..k] + r[k..] == [arg] + r && [] + r[k..] == r[k..];
    SubseqAppend(l, l, r[k..], [arg] + r);
    ConcatAssoc(l, [arg], r);
  }

  // What a careful option leaves of rargs, possibly behind an injected value, is a tail of them.
  lemma CarefulTake(P: Config, name: string, o: Opt, st: State)
    requires o.TakesValue() && CarefulOption(o)
    ensures var r := TakeValue(P, name, o, st);
            && r.st.largs == st.largs
            && (r.raised.None? ==> 1 <= o.nargs <= |st.rargs| && r.st.rargs == st.rargs[o.nargs..])
  {
  }

  // The first letter of a cluster is a careful option, or none of its letters is an option.
  lemma ClusterOpens(P: Config, arg: string)
    requires Valid(P) && Careful(P) && |arg| > 1 && LongName(arg) !in P.longOpt && arg[..2] !in P.prefixes
    ensures [arg[0], arg[1]] in P.shortOpt ==>
              P.shortOpt[[arg[0], arg[1]]].TakesValue() && CarefulOption(P.shortOpt[[arg[0], arg[1]]])
    ensures [arg[0], arg[1]] !in P.shortOpt ==> forall t :: 1 <= t < |arg| ==> [arg[0], arg[t]] !in P.shortOpt
  {
    var n := [arg[0], arg[1]];
    if arg[1] == '=' {
      ShortLongName(arg);
    }
    assert arg[..2] == n;
    if n !in P.shortOpt {
      assert Free(P, arg[0], arg[1]);
      forall t | 1 <= t < |arg| ensures [arg[0], arg[t]] !in P.shortOpt {
        assert [arg[0], arg[t]][0] == arg[0];
      }
    }
  }

  lemma CarefulCluster(P: Config, arg: string, st: State)
    requires Valid(P) && Careful(P) && P.ignoreUnknown && |arg| > 1 && LongName(arg) !in P.longOpt && arg[..2] !in P.prefixes
    requires MatchShort(P, arg, 1, "", st).raised.None?
    ensures var r := MatchShort(P, arg, 1, "", st).st; IsSubseq(r.largs + r.rargs, st.largs + [arg] + st.rargs)
  {
    hide TakeValue, IsSubseq, Careful, Valid, LongName;
    ClusterOpens(P, arg);
    var name := [arg[0], arg[1]];
    if name !in P.shortOpt {
      WholeCluster(P, arg, st);
      SubseqRefl(st.largs + [arg] + st.rargs);
    } else {
      var o := P.shortOpt[name];
      var pushed := if |arg| > 2 then st.(rargs := [arg[2..]] + st.rargs) else st;
      CarefulTake(P, name, o, pushed);
      var k := if |arg| > 2 then o.nargs - 1 else o.nargs;
      assert TakeValue(P, name, o, pushed).raised.None?;
      assert pushed.rargs[o.nargs..] == st.rargs[k..];
      Dropped(st.largs, arg, st.rargs, k);
    }
  }

  lemma CarefulOpts(P: Config, arg: string, st: State)
    requires Valid(P) && Careful(P) && P.ignoreUnknown && |arg| > 1 && ProcessOpts(P, arg, st).raised.None?
    ensures var r := ProcessOpts(P, arg, st).st; IsSubseq(r.largs + r.rargs, st.largs + [arg] + st.rargs)
  {
    hide TakeValue, ProcessOption, IsSubseq, MatchShort, Free, Valid;
    var name, explicit := LongName(arg), Explicit(arg);
    Dropped(st.largs, arg, st.rargs, 0);
    if name in P.longOpt {
      var o := P.longOpt[name];
      assert LongReached(name);
      ProcessOptionFrame(o, Unset, st);
      if o.TakesValue() {
        var pushed := if explicit.Some? then st.(rargs := [explicit.value] + st.rargs) else st;
        CarefulTake(P, name, o, pushed);
        var k := if explicit.Some? then o.nargs - 1 else o.nargs;
        assert pushed.rargs[o.nargs..] == st.rargs[k..];
        Dropped(st.largs, arg, st.rargs, k);
      }
    } else if arg[..2] !in P.prefixes {
      CarefulCluster(P, arg, st);
    } else {
      SubseqRefl(st.largs + [arg] + st.rargs);
    }
  }

  lemma CarefulStep(P: Config, st: State)
    requires Valid(P) && Careful(P) && P.ignoreUnknown && st.rargs != [] && !OptionStep(P, st).Fail?
    ensures var r := OptionStep(P, st).st; IsSubseq(r.largs + r.rargs, st.largs + st.rargs)
  {
    hide ProcessOpts, IsSubseq, Careful, Valid;
    var arg, rest := st.rargs[0], st.rargs[1..];
    assert st.rargs == [arg] + rest;
    ConcatAssoc(st.largs, [arg], rest);
    if arg == "--" {
      Dropped(st.largs, arg, rest, 0);
    } else if LooksLikeOption(P, arg) {
      CarefulOpts(P, arg, st.(rargs := rest));
    } else {
      SubseqRefl(st.largs + st.rargs);
    }
  }

  lemma {:induction false} CarefulLoop(P: Config, st: State)
    requires Valid(P) && Careful(P) && P.ignoreUnknown && OptionLoop(P, st).raised.None?
    ensures var r := OptionLoop(P, st).st; IsSubseq(r.largs + r.rargs, st.largs + st.rargs)
    decreases Weight(st.rargs)
  {
    hide OptionStep, IsSubseq, Careful, Valid;
    if st.rargs == [] {
      SubseqRefl(st.largs + st.rargs);
    } else {
      StepWeight(P, st);
      var step := OptionStep(P, st);
      CarefulStep(P, st);
      if step.Continue? {
        CarefulLoop(P, step.st);
        var r := OptionLoop(P, st).st;
        SubseqTrans(r.largs + r.rargs, step.st.largs + step.st.rargs, st.largs + st.rargs);
      }
    }
  }

  // ---------------------------------------------------------------- the others do not

  function Repeat<T>(x: T, n: nat): (r: seq<T>)
    ensures |r| == n && forall i :: 0 <= i < n ==> r[i] == x
  {
    seq(n, _ => x)
  }

  lemma {:induction false} LongerThan(names: set<string>) returns (k: nat)
    ensures k > 0 && forall n :: n in names ==> |n| < k
    decreases names
  {
    k := 1;
    if names != {} {
      var n :| n in names;
      k := LongerThan(names - {n});
      k := if |n| < k then k else |n| + 1;
    }
  }

  lemma Invented(P: Config, args: seq<string>, token: string)
    requires token !in args
    requires var r := OptionLoop(P, Start(args)); r.raised.None? && r.st.largs == [token] && r.st.rargs == []
    ensures !ConservesTokens(P)
  {
    assert [token] + [] == [token];
    if IsSubseq([token], args) {
      SubseqElement(token, args);
    }
  }

  // A cluster so long that no long option has its name.
  lemma NoLongOption(P: Config, arg: string, k: nat)
    requires |arg| > k > 0 && forall n :: n in P.longOpt ==> |n| < k
    requires "" !in P.longOpt && (arg[0] != '=' && arg[1] == '=' ==> [arg[0]] !in P.longOpt)
    requires arg[0] != '=' && arg[1] != '=' ==> '=' !in arg[..k]
    ensures LongName(arg) !in P.longOpt
  {
    var e := FindEquals(arg);
    if arg[1] == '=' {
      ShortLongName(arg);
    } else {
      assert e < k ==> arg[e] == arg[..k][e];
    }
  }

  // Enough plain values for one option.
  function Values(o: Opt): seq<string> {
    Repeat("x", if o.TakesValue() && o.nargs > 0 then o.nargs else 0)
  }

  lemma TakesAll(P: Config, name: string, o: Opt)
    ensures var st := Start(Values(o));
            var r := if o.TakesValue() then TakeValue(P, name, o, st) else ProcessOption(o, Unset, st);
            r.raised.None? && r.st.rargs == [] && r.st.largs == []
  {
  }

  // The last letter of a cluster of unknown ones is an option: the others are reported as a new token.
  lemma KnownAmongUnknown(P: Config, name: string, u: char, k: nat)
    requires Valid(P) && P.ignoreUnknown && name in P.shortOpt && Free(P, name[0], u) && k > 0
    ensures var arg := [name[0]] + Repeat(u, k) + [name[1]];
            var r := MatchShort(P, arg, 1, "", Start(Values(P.shortOpt[name])));
            r.raised.None? && r.st.largs == [[name[0]] + Repeat(u, k)] && r.st.rargs == []
  {
    var o := P.shortOpt[name];
    var us, st := Repeat(u, k), Start(Values(o));
    var arg := [name[0]] + us + [name[1]];
    UnknownLetters(P, arg, 1, k + 1, "", st);
    assert "" + arg[1..k + 1] == us;
    assert [arg[0], arg[k + 1]] == name;
    TakesAll(P, name, o);
    var s := if o.TakesValue() then TakeValue(P, name, o, st) else ProcessOption(o, Unset, st);
    assert MatchShort(P, arg, k + 1, us, st) == MatchShort(P, arg, k + 2, us, s.st);
    assert [] + [[arg[0]] + us] == [[arg[0]] + us];
  }

  lemma FreeInvents(P: Config, name: string, u: char)
    requires Valid(P) && P.ignoreUnknown && name in P.shortOpt && Free(P, name[0], u)
    ensures !ConservesTokens(P)
  {
    hide LongName;
    var k := LongerThan(P.longOpt.Keys);
    var us := Repeat(u, k);
    var arg := [name[0]] + us + [name[1]];
    NoLongOption(P, arg, k);
    assert arg[..1] == name[..1] && arg[..2] == [name[0], u];
    var values := Values(P.shortOpt[name]);
    KnownAmongUnknown(P, name, u, k);
    var args, token := [arg] + values, [name[0]] + us;
    var next := ProcessOpts(P, arg, Start(values));
    assert Start(args).(rargs := args[1..]) == Start(values);
    assert OptionStep(P, Start(args)) == Continue(next.st);
    assert OptionLoop(P, next.st) == Fine(next.st);
    assert |token| == k + 1 && |arg| == k + 2;
    Invented(P, args, token);
  }

  // A flag and then its own prefix, which is never an option letter.
  lemma FlagThenPrefix(P: Config, name: string, k: nat)
    requires Valid(P) && P.ignoreUnknown && name in P.shortOpt && !P.shortOpt[name].TakesValue() && k > 0
    ensures var arg := name + Repeat(name[0], k);
            var r := MatchShort(P, arg, 1, "", Start([]));
            r.raised.None? && r.st.largs == [[name[0]] + Repeat(name[0], k)] && r.st.rargs == []
  {
    var o, ps := P.shortOpt[name], Repeat(name[0], k);
    var arg := name + ps;
    var st := ProcessOption(o, Unset, Start([])).st;
    assert [arg[0], arg[1]] == name;
    assert MatchShort(P, arg, 1, "", Start([])) == MatchShort(P, arg, 2, "", st);
    assert [name[0], name[0]] !in P.shortOpt;
    UnknownLetters(P, arg, 2, |arg|, "", st);
    assert "" + arg[2..|arg|] == ps && [] + [[arg[0]] + ps] == [[arg[0]] + ps];
  }

  lemma FlagInvents(P: Config, name: string)
    requires Valid(P) && P.ignoreUnknown && name in P.shortOpt && FirstReached(P, name) && !P.shortOpt[name].TakesValue()
    ensures !ConservesTokens(P)
  {
    hide LongName;
    var k := LongerThan(P.longOpt.Keys);
    var ps := Repeat(name[0], k);
    var arg := name + ps;
    assert name[0] != name[1];
    NoLongOption(P, arg, k);
    assert arg[..1] == name[..1] && arg[..2] == name;
    FlagThenPrefix(P, name, k);
    var r := ProcessOpts(P, arg, Start([]));
    OneStep(P, arg, r.st);
    assert OptionLoop(P, r.st) == Fine(r.st);
    assert |arg| == k + 2;
    Invented(P, [arg], [name[0]] + ps);
  }

  // A word with a double prefix that no long option has: it is passed on as it stands.
  lemma LastUnknown(P: Config, st: State, v: string)
    requires Valid(P) && P.ignoreUnknown && st.rargs == [v] && st.largs == []
    requires |v| > 2 && v[..2] == "--" && LongName(v) !in P.longOpt
    ensures var r := OptionLoop(P, st); r.raised.None? && r.st.largs == [v] && r.st.rargs == []
  {
    assert v[0] == v[..2][0] && v[..1] == "-";
    var last := st.(rargs := [], largs := [v]);
    assert [] + [v] == [v] && st.rargs[1..] == [];
    assert OptionStep(P, st) == Continue(last);
    assert OptionLoop(P, last) == Fine(last);
  }

  // Once an option has passed over the attached word v, the loop makes a positional of it.
  lemma OmittedInvents(P: Config, arg: string, v: string, k: nat)
    requires Valid(P) && P.ignoreUnknown && k > 0 && (forall n :: n in P.longOpt ==> |n| < k) && v == "--" + Repeat('x', k)
    requires |arg| > |v| && LooksLikeOption(P, arg)
    requires var r := ProcessOpts(P, arg, Start([])); r.raised.None? && r.st.rargs == [v] && r.st.largs == []
    ensures !ConservesTokens(P)
  {
    hide LongName, ProcessOpts, OptionLoop;
    NoLongOption(P, v, k);
    assert v[..2] == "--";
    var r := ProcessOpts(P, arg, Start([]));
    OneStep(P, arg, r.st);
    LastUnknown(P, r.st, v);
    Invented(P, [arg], v);
  }

  lemma WordLooks(P: Config, v: string, k: nat)
    requires Valid(P) && v == "--" + Repeat('x', k)
    ensures LooksLikeOption(P, v)
  {
    assert v[..1] == "-";
  }

  lemma LongOmits(P: Config, name: string)
    requires Valid(P) && P.ignoreUnknown && name in P.longOpt && '=' !in name
    requires var o := P.longOpt[name]; o.TakesValue() && o.nargs == 1 && o.flagNeedsValue
    ensures !ConservesTokens(P)
  {
    var k := LongerThan(P.longOpt.Keys);
    var v := "--" + Repeat('x', k);
    var arg := name + "=" + v;
    WordLooks(P, v, k);
    FindEqualsAfter(name, v);
    assert arg[..|name|] == name && arg[|name| + 1..] == v && arg[..1] == name[..1] && [v] + [] == [v];
    OmittedInvents(P, arg, v, k);
  }

  lemma ShortOmits(P: Config, name: string)
    requires Valid(P) && P.ignoreUnknown && name in P.shortOpt && FirstReached(P, name)
    requires var o := P.shortOpt[name]; o.TakesValue() && o.nargs == 1 && o.flagNeedsValue
    ensures !ConservesTokens(P)
  {
    hide LongName;
    var k := LongerThan(P.longOpt.Keys);
    var v := "--" + Repeat('x', k);
    var arg := name + v;
    WordLooks(P, v, k);
    NoLongOption(P, arg, k);
    assert name[0] != name[1];
    assert arg[..1] == name[..1] && arg[..2] == name && [arg[0], arg[1]] == name && arg[2..] == v && [v] + [] == [v];
    OmittedInvents(P, arg, v, k);
  }

  // Main result: with ignore_unknown_options, parsing conserves positionals on every argument list if
  // and only if no unknown letter can share a cluster with an option, no flag can open one, and every
  // value-taking option that can be reached has a value that it cannot omit.
  lemma UnknownConservationExactly(P: Config)
    requires Valid(P) && P.ignoreUnknown
    ensures ConservesTokens(P) <==> Careful(P)
  {
    if Careful(P) {
      hide OptionLoop, IsSubseq;
      forall args: seq<string> | OptionLoop(P, Start(args)).raised.None?
        ensures IsSubseq(OptionLoop(P, Start(args)).st.largs + OptionLoop(P, Start(args)).st.rargs, args)
      {
        CarefulLoop(P, Start(args));
        assert [] + args == args;
      }
    } else {
      CarelessInvents(P);
    }
  }

  lemma CarelessInvents(P: Config)
    requires Valid(P) && P.ignoreUnknown && !Careful(P)
    ensures !ConservesTokens(P)
  {
    hide ConservesTokens, LongName, Free;
    if n :| n in P.longOpt && LongReached(n) && !CarefulOption(P.longOpt[n]) {
      if SafeOption(P.longOpt[n]) {
        LongOmits(P, n);
      } else {
        UnsafeLong(P, n);
      }
    } else {
      var n :| n in P.shortOpt && |n| == 2 && !((forall u :: !Free(P, n[0], u))
        && (FirstReached(P, n) ==> P.shortOpt[n].TakesValue() && CarefulOption(P.shortOpt[n])));
      if u :| Free(P, n[0], u) {
        FreeInvents(P, n, u);
      } else if !P.shortOpt[n].TakesValue() {
        FlagInvents(P, n);
      } else if SafeOption(P.shortOpt[n]) {
        ShortOmits(P, n);
      } else {
        LongNameOfShort(P, n, n + "=");
        UnsafeAlone(P, n);
      }
    }
  }

  // ---------------------------------------------------------------- what is passed on

  // The unknown letters of a cluster from the i-th on, up to a letter that takes what follows it.
  function UnknownIn(P: Config, arg: string, i: nat): string
    requires 1 <= i <= |arg|
    decreases |arg| - i
  {
    if i == |arg| then ""
    else if [arg[0], arg[i]] !in P.shortOpt then [arg[i]] + UnknownIn(P, arg, i + 1)
    else if P.shortOpt[[arg[0], arg[i]]].TakesValue() then ""
    else UnknownIn(P, arg, i + 1)
  }

  function ReportOf(prefix: char, unknown: string): seq<string> {
    if unknown == "" then [] else [[prefix] + unknown]
  }

  // What an option token passes on.
  function PassedOn(P: Config, arg: string): seq<string>
    requires |arg| > 1
  {
    if !P.ignoreUnknown || LongName(arg) in P.longOpt then []
    else if arg[..2] in P.prefixes then [arg]
    else ReportOf(arg[0], UnknownIn(P, arg, 1))
  }

  lemma {:induction false} ClusterReports(P: Config, arg: string, i: nat, unknown: string, st: State)
    requires 1 <= i <= |arg| && MatchShort(P, arg, i, unknown, st).raised.None?
    ensures MatchShort(P, arg, i, unknown, st).st.largs
            == st.largs + if P.ignoreUnknown then ReportOf(arg[0], unknown + UnknownIn(P, arg, i)) else []
    decreases |arg| - i
  {
    hide ProcessOption, TakeValue;
    assert unknown + "" == unknown && st.largs + [] == st.largs;
    if i < |arg| {
      var name := [arg[0], arg[i]];
      if name !in P.shortOpt {
        ClusterReports(P, arg, i + 1, unknown + [arg[i]], st);
        ConcatAssoc(unknown, [arg[i]], UnknownIn(P, arg, i + 1));
      } else {
        var o := P.shortOpt[name];
        if !o.TakesValue() {
          ProcessOptionFrame(o, Unset, st);
          ClusterReports(P, arg, i + 1, unknown, ProcessOption(o, Unset, st).st);
        } else {
          var pushed := if i + 1 < |arg| then st.(rargs := [arg[i + 1..]] + st.rargs) else st;
          TakeValueFrame(P, name, o, pushed);
          if i + 1 == |arg| {
            ClusterReports(P, arg, i + 1, unknown, TakeValue(P, name, o, st).st);
          }
        }
      }
    }
  }

  lemma OptionPassesOn(P: Config, arg: string, st: State)
    requires |arg| > 1 && ProcessOpts(P, arg, st).raised.None?
    ensures ProcessOpts(P, arg, st).st.largs == st.largs + PassedOn(P, arg)
  {
    hide ProcessOption, TakeValue, MatchShort, UnknownIn;
    assert st.largs + [] == st.largs;
    if LongName(arg) in P.longOpt {
      var o, pushed := P.longOpt[LongName(arg)], if Explicit(arg).Some? then st.(rargs := [Explicit(arg).value] + st.rargs) else st;
      TakeValueFrame(P, LongName(arg), o, pushed);
      ProcessOptionFrame(o, Unset, st);
    } else if arg[..2] !in P.prefixes {
      ClusterReports(P, arg, 1, "", st);
      assert "" + UnknownIn(P, arg, 1) == UnknownIn(P, arg, 1);
    }
  }

  // What a loop head adds to the positionals: a word, or what an option token passes on.
  function Collects(P: Config, h: State): seq<string> {
    if h.rargs == [] || h.rargs[0] == "--" then []
    else if LooksLikeOption(P, h.rargs[0]) then PassedOn(P, h.rargs[0])
    else if P.interspersed then [h.rargs[0]]
    else []
  }

  function AllCollected(P: Config, heads: seq<State>): seq<string> {
    if heads == [] then [] else Collects(P, heads[0]) + AllCollected(P, heads[1..])
  }

  // Main result: in every successful run the positionals are, in order, the words read and what the
  // option tokens pass on: unknown long options whole, and of each cluster every unknown letter, also
  // where an option behind them takes the rest of the cluster.
  lemma {:induction false} LoopCollects(P: Config, st: State)
    requires OptionLoop(P, st).raised.None?
    ensures OptionLoop(P, st).st.largs == st.largs + AllCollected(P, LoopHeads(P, st))
    decreases Weight(st.rargs)
  {
    hide ProcessOpts, PassedOn;
    assert st.largs + [] == st.largs;
    if st.rargs != [] {
      StepWeight(P, st);
      var arg, rest := st.rargs[0], st.(rargs := st.rargs[1..]);
      if arg != "--" && LooksLikeOption(P, arg) {
        OptionPassesOn(P, arg, rest);
      }
      if OptionStep(P, st).Continue? {
        var next := OptionStep(P, st).st;
        LoopCollects(P, next);
        assert ([st] + LoopHeads(P, next))[1..] == LoopHeads(P, next);
        ConcatAssoc(st.largs, Collects(P, st), AllCollected(P, LoopHeads(P, next)));
      } else {
        assert [st][1..] == [];
        assert Collects(P, st) + [] == Collects(P, st);
      }
    } else {
      assert [st][1..] == [];
    }
  }
}
