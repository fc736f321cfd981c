/** Different spellings of one command line parse alike: Guidelines 5 and 10 of section 12.2 of
    IEEE Std 1003.1-2017, and the `--name=value` form. */
module Spelling {
  import opened CliValues
  import opened Subsequences
  import opened Parser
  import opened ParserLaws

  // After a raise only opts, largs, order and the error are ever looked at again.
  ghost predicate SameOutcome(a: Outcome, b: Outcome) {
    && a.raised == b.raised
    && a.st.opts == b.st.opts && a.st.largs == b.st.largs && a.st.order == b.st.order
    && (a.raised.None? ==> a.st.rargs == b.st.rargs)
  }

  // Go on with the loop after a token has been processed.
  function Resume(P: Config, r: Outcome): Outcome {
    if r.raised.Some? then r else OptionLoop(P, r.st)
  }

  lemma LoopOnOption(P: Config, token: string, rest: seq<string>, st: State)
    requires LooksLikeOption(P, token) && token != "--"
    ensures |token| > 1
    ensures OptionLoop(P, st.(rargs := [token] + rest)) == Resume(P, ProcessOpts(P, token, st.(rargs := rest)))
  {
    hide ProcessOpts, LooksLikeOption;
    LooksLong(P, token);
    var s := st.(rargs := [token] + rest);
    assert s.rargs[1..] == rest;
    assert s.(rargs := s.rargs[1..]) == st.(rargs := rest);
  }

  // ---------------------------------------------------------------- --name=value and --name value

  // Main result: `name=value` and `name value` lead to the very same outcome, also when the value is
  // omitted because it looks like an option, and also when parsing fails.
  lemma LongSpelling(P: Config, name: string, value: string, rest: seq<string>, st: State)
    requires Valid(P) && name in P.longOpt && P.longOpt[name].TakesValue()
    requires '=' !in name && |name| > 1 && name != "--"
    ensures OptionLoop(P, st.(rargs := [name + "=" + value] + rest)) == OptionLoop(P, st.(rargs := [name, value] + rest))
  {
    hide OptionLoop, TakeValue;
    var glued := name + "=" + value;
    FindEqualsAfter(name, value);
    assert glued[..|name|] == name && glued[|name| + 1..] == value && glued[..1] == name[..1];
    assert glued[|name|] == '=';
    LoopOnOption(P, glued, rest, st);
    NoEquals(name);
    assert name[..|name|] == name;
    assert [name, value] + rest == [name] + ([value] + rest);
    LoopOnOption(P, name, [value] + rest, st);
  }

  lemma {:induction false} NoEquals(name: string)
    requires '=' !in name
    ensures FindEquals(name) == |name|
  {
    if name != "" {
      assert name[0] in name;
      NoEquals(name[1..]);
    }
  }

  // ---------------------------------------------------------------- clusters

  // token is a cluster: letters 1..m-1 are flags, and letter m, if there is one, takes a value.
  ghost predicate IsCluster(P: Config, token: string, m: nat) {
    && |token| >= 2 && 1 <= m <= |token|
    && (forall k :: 1 <= k < m ==> [token[0], token[k]] in P.shortOpt && !P.shortOpt[[token[0], token[k]]].TakesValue())
    && (m < |token| ==> [token[0], token[m]] in P.shortOpt && P.shortOpt[[token[0], token[m]]].TakesValue())
    // No long option matches the cluster, nor the bare prefix that a letter `=` would make it name.
    && LongName(token) !in P.longOpt
    && ('=' in token ==> [token[0]] !in P.longOpt)
  }

  // The flags from letter i on, one token each, then the value option and its attached value.
  function Spelled(token: string, i: nat, m: nat): seq<string>
    requires 1 <= i <= m <= |token|
    decreases m - i
  {
    if i < m then [[token[0], token[i]]] + Spelled(token, i + 1, m)
    else if m == |token| then []
    else [[token[0], token[m]]] + (if m + 1 < |token| then [token[m + 1..]] else [])
  }

  lemma ShortToken(P: Config, name: string)
    requires Valid(P) && name in P.shortOpt
    ensures |name| == 2 && name[0] != name[1] && name[..1] in P.prefixes && LooksLikeOption(P, name) && name != "--"
    ensures name !in P.longOpt && name[..2] !in P.prefixes
  {
    assert name[..2] == name;
  }

  // One short option standing alone.
  lemma LoopOnShort(P: Config, name: string, rest: seq<string>, st: State)
    requires Valid(P) && name in P.shortOpt && |name| > 1 && (name[1] == '=' ==> name[..1] !in P.longOpt)
    ensures var o, s := P.shortOpt[name], st.(rargs := rest);
            OptionLoop(P, st.(rargs := [name] + rest)) ==
              Resume(P, if o.TakesValue() then TakeValue(P, name, o, s) else ProcessOption(o, Unset, s))
  {
    hide OptionLoop, TakeValue, ProcessOption;
    ShortToken(P, name);
    LoopOnOption(P, name, rest, st);
    LongNameOfTwo(name);
    assert [name[0], name[1]] == name;
    var s := st.(rargs := rest);
    assert LongName(name) !in P.longOpt;
    assert ProcessOpts(P, name, s) == MatchShort(P, name, 1, "", s);
    AloneInCluster(P, name, s);
  }

  lemma AloneInCluster(P: Config, name: string, s: State)
    requires |name| == 2 && name in P.shortOpt
    ensures var o := P.shortOpt[name];
            MatchShort(P, name, 1, "", s) == if o.TakesValue() then TakeValue(P, name, o, s) else ProcessOption(o, Unset, s)
  {
    hide TakeValue, ProcessOption;
    var o := P.shortOpt[name];
    assert [name[0], name[1]] == name;
    var r := if o.TakesValue() then TakeValue(P, name, o, s) else ProcessOption(o, Unset, s);
    assert MatchShort(P, name, 2, "", r.st) == Fine(r.st);
  }

  lemma LongNameOfTwo(name: string)
    requires |name| == 2
    ensures LongName(name) == name || LongName(name) == "" || (LongName(name) == name[..1] && name[1] == '=')
  {
  }

  // The state a cluster continues with is the one its letters lead to one by one.
  lemma {:induction false} ClusterLetters(P: Config, token: string, i: nat, m: nat, rest: seq<string>, st: State)
    requires Valid(P) && IsCluster(P, token, m) && 1 <= i <= m
    ensures SameOutcome(Resume(P, MatchShort(P, token, i, "", st.(rargs := rest))),
                        OptionLoop(P, st.(rargs := Spelled(token, i, m) + rest)))
    decreases m - i
  {
    hide OptionLoop, TakeValue, ProcessOption, Valid;
    var s := st.(rargs := rest);
    if i == |token| {
      assert Spelled(token, i, m) + rest == rest;
    } else if i < m {
      var name := [token[0], token[i]];
      ClusterFlag(P, token, i, m, rest, st);
      var r := ProcessOption(P.shortOpt[name], Unset, s);
      if r.raised.None? {
        ProcessOptionFrame(P.shortOpt[name], Unset, s);
        assert r.st.(rargs := rest) == r.st;
        ClusterLetters(P, token, i + 1, m, rest, r.st);
      }
    } else {
      ClusterLast(P, token, m, rest, st);
    }
  }

  // The letter that takes the rest of the cluster, or the next token, as its value.
  lemma ClusterLast(P: Config, token: string, m: nat, rest: seq<string>, st: State)
    requires Valid(P) && IsCluster(P, token, m) && m < |token|
    ensures Resume(P, MatchShort(P, token, m, "", st.(rargs := rest))) == OptionLoop(P, st.(rargs := Spelled(token, m, m) + rest))
  {
    hide OptionLoop, TakeValue, ProcessOption, Valid;
    var name := [token[0], token[m]];
    var value := if m + 1 < |token| then [token[m + 1..]] else [];
    assert name[..1] == [token[0]];
    assert Spelled(token, m, m) + rest == [name] + (value + rest);
    LoopOnShort(P, name, value + rest, st);
    if value == [] {
      assert value + rest == rest;
      var r := TakeValue(P, name, P.shortOpt[name], st.(rargs := rest));
      assert MatchShort(P, token, m + 1, "", r.st) == Fine(r.st);
    }
  }

  // Reading the first flag: the loop goes on with the remaining letters spelled out.
  lemma ClusterFlag(P: Config, token: string, i: nat, m: nat, rest: seq<string>, st: State)
    requires Valid(P) && IsCluster(P, token, m) && 1 <= i < m
    ensures var name := [token[0], token[i]];
            && name in P.shortOpt
            && var r := ProcessOption(P.shortOpt[name], Unset, st.(rargs := rest));
            var spelled := OptionLoop(P, st.(rargs := Spelled(token, i, m) + rest));
            if r.raised.Some? then SameOutcome(r, spelled)
            else spelled == OptionLoop(P, r.st.(rargs := Spelled(token, i + 1, m) + rest))
  {
    hide OptionLoop;
    var name, tail := [token[0], token[i]], Spelled(token, i + 1, m) + rest;
    assert name[..1] == [token[0]];
    assert Spelled(token, i, m) + rest == [name] + tail by {
      ConcatAssoc([name], Spelled(token, i + 1, m), rest);
    }
    LoopOnShort(P, name, tail, st);
  }

  // Main result (Guideline 5): `-abcVALUE` leads to the same outcome as `-a -b -c VALUE`, and a
  // cluster of flags to the same outcome as the flags one by one.
  lemma ClusterSpelling(P: Config, token: string, m: nat, rest: seq<string>, st: State)
    requires Valid(P) && IsCluster(P, token, m)
    ensures SameOutcome(OptionLoop(P, st.(rargs := [token] + rest)),
                        OptionLoop(P, st.(rargs := Spelled(token, 1, m) + rest)))
  {
    hide OptionLoop, MatchShort;
    var name := [token[0], token[1]];
    ShortToken(P, name);
    assert token[..1] == name[..1] && token[..2] == name;
    LoopOnOption(P, token, rest, st);
    ClusterLetters(P, token, 1, m, rest, st);
  }

  // ---------------------------------------------------------------- the -- terminator

  // The loop reads st to its end, without meeting a `--` or stopping early.
  predicate Exhausts(P: Config, st: State)
    decreases Weight(st.rargs)
  {
    st.rargs == [] ||
    (StepWeight(P, st); OptionStep(P, st).Continue? && Exhausts(P, OptionStep(P, st).st))
  }

  function Before(st: State, post: seq<string>): State {
    st.(rargs := st.rargs + (["--"] + post))
  }

  lemma DashesLook(P: Config)
    requires Valid(P)
    ensures LooksLikeOption(P, "--")
  {
    assert "--"[..1] == "-";
  }

  // An option whose value does not depend on what follows a `--`.
  predicate AlikeOption(o: Opt) {
    o.TakesValue() ==> o.nargs == 0 || SafeOption(o)
  }

  ghost predicate AllAlike(P: Config) {
    && (forall n :: n in P.shortOpt && ShortReached(P, n) ==> AlikeOption(P.shortOpt[n]))
    && (forall n :: n in P.longOpt && LongReached(n) ==> AlikeOption(P.longOpt[n]))
  }

  // A value is fetched alike whether or not `--` follows.
  lemma FetchBefore(P: Config, o: Opt, rargs: seq<string>, post: seq<string>)
    requires Valid(P) && AlikeOption(o) && o.TakesValue() && FetchValue(P, o, rargs).Got?
    ensures var f := FetchValue(P, o, rargs);
            FetchValue(P, o, rargs + (["--"] + post)) == Got(f.value, f.rest + (["--"] + post))
  {
    hide LooksLikeOption, Texts;
    var all := rargs + (["--"] + post);
    DashesLook(P);
    if o.nargs == 1 {
      if rargs != [] {
        ConcatTail(rargs, ["--"] + post);
      }
    } else {
      assert all[..o.nargs] == rargs[..o.nargs] && all[o.nargs..] == rargs[o.nargs..] + (["--"] + post);
    }
  }

  lemma TakeBefore(P: Config, name: string, o: Opt, st: State, post: seq<string>)
    requires Valid(P) && AlikeOption(o) && o.TakesValue() && TakeValue(P, name, o, st).raised.None?
    ensures TakeValue(P, name, o, Before(st, post)) == Fine(Before(TakeValue(P, name, o, st).st, post))
  {
    hide FetchValue;
    FetchBefore(P, o, st.rargs, post);
  }

  // A value option that a cluster processes without failing can be reached, so it is alike.
  lemma ProcessedAlike(P: Config, arg: string, i: nat, st: State, rargs: seq<string>)
    requires AllAlike(P) && 1 <= i < |arg| && InCluster(P, arg, i, st) && [arg[0], arg[i]] in P.shortOpt
    requires P.shortOpt[[arg[0], arg[i]]].TakesValue()
    requires TakeValue(P, [arg[0], arg[i]], P.shortOpt[[arg[0], arg[i]]], st.(rargs := rargs)).raised.None?
    ensures AlikeOption(P.shortOpt[[arg[0], arg[i]]])
  {
    hide ShortReached, TakeValue, InCluster, AlikeOption;
    var name := [arg[0], arg[i]];
    if !ShortReached(P, name) {
      UnreachedRaises(P, arg, i, st, rargs);
    }
  }

  lemma {:induction false} MatchShortBefore(P: Config, arg: string, i: nat, unknown: string, st: State, post: seq<string>)
    requires Valid(P) && AllAlike(P) && 1 <= i <= |arg| && InCluster(P, arg, i, st)
    requires MatchShort(P, arg, i, unknown, st).raised.None?
    ensures MatchShort(P, arg, i, unknown, Before(st, post)) == Fine(Before(MatchShort(P, arg, i, unknown, st).st, post))
    decreases |arg| - i
  {
    hide TakeValue, AllAlike, ShortReached, AlikeOption, Left;
    if i < |arg| {
      var name := [arg[0], arg[i]];
      if name !in P.shortOpt {
        MatchShortBefore(P, arg, i + 1, unknown + [arg[i]], st, post);
      } else {
        var o := P.shortOpt[name];
        if !o.TakesValue() {
          FlagLeaves(o, st);
          MatchShortBefore(P, arg, i + 1, unknown, ProcessOption(o, Unset, st).st, post);
        } else if i + 1 < |arg| {
          var pushed := st.(rargs := [arg[i + 1..]] + st.rargs);
          ProcessedAlike(P, arg, i, st, pushed.rargs);
          TakeBefore(P, name, o, pushed, post);
          ConcatAssoc([arg[i + 1..]], st.rargs, ["--"] + post);
        } else {
          assert st.(rargs := st.rargs) == st;
          ProcessedAlike(P, arg, i, st, st.rargs);
          TakeBefore(P, name, o, st, post);
          EndsCluster(P, arg, i, unknown, st, name, o);
          EndsCluster(P, arg, i, unknown, Before(st, post), name, o);
        }
      }
    }
  }

  // A value option as the last letter.
  lemma EndsCluster(P: Config, arg: string, i: nat, unknown: string, st: State, name: string, o: Opt)
    requires 1 <= i && i + 1 == |arg| && name == [arg[0], arg[i]] && name in P.shortOpt && o == P.shortOpt[name] && o.TakesValue()
    ensures var r := TakeValue(P, name, o, st);
            MatchShort(P, arg, i, unknown, st) == if r.raised.Some? then r else Fine(ReportUnknown(P, arg, unknown, r.st))
  {
    hide TakeValue;
  }

  lemma ProcessOptsBefore(P: Config, arg: string, st: State, post: seq<string>)
    requires Valid(P) && AllAlike(P) && |arg| > 1 && ProcessOpts(P, arg, st).raised.None?
    ensures ProcessOpts(P, arg, Before(st, post)) == Fine(Before(ProcessOpts(P, arg, st).st, post))
  {
    hide TakeValue, MatchShort, ShortReached, AlikeOption, InCluster;
    var name, explicit := LongName(arg), Explicit(arg);
    if name in P.longOpt {
      assert LongReached(name);
      var o := P.longOpt[name];
      if o.TakesValue() {
        var pushed := if explicit.Some? then st.(rargs := [explicit.value] + st.rargs) else st;
        TakeBefore(P, name, o, pushed, post);
        if explicit.Some? {
          ConcatAssoc([explicit.value], st.rargs, ["--"] + post);
        }
      }
    } else if arg[..2] !in P.prefixes {
      ClusterStarts(P, arg, st);
      MatchShortBefore(P, arg, 1, "", st, post);
    }
  }

  lemma StepBefore(P: Config, st: State, post: seq<string>)
    requires Valid(P) && AllAlike(P) && st.rargs != [] && OptionStep(P, st).Continue?
    ensures OptionStep(P, Before(st, post)) == Continue(Before(OptionStep(P, st).st, post))
  {
    hide ProcessOpts, AllAlike;
    ConcatTail(st.rargs, ["--"] + post);
    var arg, rest := st.rargs[0], st.(rargs := st.rargs[1..]);
    if LooksLikeOption(P, arg) {
      ProcessOptsBefore(P, arg, rest, post);
    }
  }

  // Guideline 10: what precedes an effective `--` is parsed as if nothing followed, and everything
  // after it is handed on verbatim.
  lemma {:induction false} DashDash(P: Config, st: State, post: seq<string>)
    requires Valid(P) && AllAlike(P) && Exhausts(P, st)
    ensures OptionLoop(P, st).raised.None? && OptionLoop(P, st).st.rargs == []
    ensures OptionLoop(P, Before(st, post)) == Fine(OptionLoop(P, st).st.(rargs := post))
    decreases Weight(st.rargs)
  {
    hide ProcessOpts, AllAlike;
    if st.rargs == [] {
      assert [] + (["--"] + post) == ["--"] + post;
      assert (["--"] + post)[1..] == post;
    } else {
      StepWeight(P, st);
      StepBefore(P, st, post);
      DashDash(P, OptionStep(P, st).st, post);
      assert Before(st, post).rargs != [];
    }
  }

  // ---------------------------------------------------------------- exactly which parsers heed the --

  ghost predicate HeedsDashes(P: Config) {
    forall st: State, post: seq<string> :: Exhausts(P, st) ==> Heeded(P, st, post)
  }

  predicate Heeded(P: Config, st: State, post: seq<string>) {
    OptionLoop(P, Before(st, post)) == Fine(OptionLoop(P, st).st.(rargs := post))
  }

  predicate Plain(tokens: seq<string>) {
    forall t :: t in tokens ==> t == "x"
  }

  function Plains(n: nat): (r: seq<string>)
    ensures |r| == n && Plain(r)
  {
    seq(n, _ => "x")
  }

  lemma {:induction false} PlainLoop(P: Config, st: State)
    requires Plain(st.rargs)
    ensures OptionLoop(P, st).st.opts == st.opts
    decreases |st.rargs|
  {
    if st.rargs != [] {
      assert st.rargs[0] in st.rargs && forall t :: t in st.rargs[1..] ==> t in st.rargs;
      if P.interspersed {
        PlainLoop(P, OptionStep(P, st).st);
      }
    }
  }

  // What may stand between an option and the `--`: nothing, or an empty text attached to the option.
  predicate IsLead(lead: seq<string>) {
    lead == [] || lead == [""]
  }

  // An option that is not alike takes up a `--` that stands right behind it, and more.
  lemma TakesDashes(P: Config, o: Opt, lead: seq<string>) returns (post: seq<string>)
    requires o.TakesValue() && !AlikeOption(o) && IsLead(lead)
    ensures var a, b := FetchValue(P, o, lead), FetchValue(P, o, lead + (["--"] + post));
            a.Got? && b.Got? && a.value != b.value && a.rest == lead && Plain(b.rest)
  {
    post := Plains(if o.nargs < 0 then -o.nargs else o.nargs - 1 - |lead|);
    var all := lead + (["--"] + post);
    assert lead[0..] == lead;
    if o.nargs < 0 {
      assert all[|lead| + 1..] == post;
    } else {
      assert all[o.nargs..] == [];
    }
  }

  lemma TakesThem(P: Config, name: string, o: Opt, st: State, lead: seq<string>) returns (post: seq<string>)
    requires o.TakesValue() && !AlikeOption(o) && Ready(o, st) && IsLead(lead)
    ensures var a, b := TakeValue(P, name, o, st.(rargs := lead)), TakeValue(P, name, o, st.(rargs := lead + (["--"] + post)));
            && a.raised.None? && b.raised.None? && a.st.rargs == lead && Plain(b.st.rargs)
            && a.st.opts != b.st.opts
  {
    hide FetchValue;
    post := TakesDashes(P, o, lead);
    var a, b := TakeValue(P, name, o, st.(rargs := lead)), TakeValue(P, name, o, st.(rargs := lead + (["--"] + post)));
    var x, y := FetchValue(P, o, lead).value, FetchValue(P, o, lead + (["--"] + post)).value;
    if o.action.Append? {
      var prior := if o.dest in st.opts then st.opts[o.dest].items else [];
      assert (prior + [x])[|prior|] != (prior + [y])[|prior|];
      assert a.st.opts[o.dest] == List(prior + [x]) && b.st.opts[o.dest] == List(prior + [y]);
    } else {
      assert a.st.opts[o.dest] == x && b.st.opts[o.dest] == y;
    }
  }

  // The loop ends soon where no more than an empty word is left.
  lemma EndsSoon(P: Config, a: State)
    requires a.rargs == [] || (P.interspersed && a.rargs == [""])
    ensures Exhausts(P, a) && OptionLoop(P, a).raised.None? && OptionLoop(P, a).st.opts == a.opts
  {
    if a.rargs != [] {
      assert a.rargs[1..] == [];
      var next := a.(rargs := [], largs := a.largs + [""]);
      assert OptionStep(P, a) == Continue(next);
      assert Exhausts(P, next) && OptionLoop(P, next) == Fine(next);
    }
  }

  // |arg| read with nothing behind it, and with `--` and plain words behind it, leaves different values.
  lemma NotHeeded(P: Config, arg: string, post: seq<string>, a: State, b: State)
    requires LooksLikeOption(P, arg) && arg != "--" && |arg| > 1 && Plain(b.rargs) && a.opts != b.opts
    requires a.rargs == [] || (P.interspersed && a.rargs == [""])
    requires ProcessOpts(P, arg, Start([])) == Fine(a) && ProcessOpts(P, arg, Start(["--"] + post)) == Fine(b)
    ensures !HeedsDashes(P)
  {
    hide ProcessOpts, LooksLikeOption;
    var st := Start([arg]);
    StepOn(P, arg, []);
    StepOn(P, arg, ["--"] + post);
    assert [arg] + [] == [arg];
    EndsSoon(P, a);
    assert Exhausts(P, st);
    assert OptionLoop(P, st) == OptionLoop(P, a);
    var c := Before(st, post);
    assert c == Start([arg] + (["--"] + post));
    PlainLoop(P, b);
    assert OptionLoop(P, c) == OptionLoop(P, b);
    assert !Heeded(P, st, post);
  }

  lemma StepOn(P: Config, arg: string, rest: seq<string>)
    requires |arg| > 1 && LooksLikeOption(P, arg) && arg != "--" && ProcessOpts(P, arg, Start(rest)).raised.None?
    ensures OptionStep(P, Start([arg] + rest)) == Continue(ProcessOpts(P, arg, Start(rest)).st)
  {
    hide ProcessOpts, LooksLikeOption;
    assert ([arg] + rest)[1..] == rest && Start([arg] + rest).(rargs := rest) == Start(rest);
  }

  // No long option is named by a prefix alone.
  ghost predicate NamedOptions(P: Config) {
    forall n :: n in P.longOpt ==> |n| > 1 && n != "--"
  }

  lemma LongLeads(P: Config, name: string)
    requires Valid(P) && |name| > 1 && name != "--" && name in P.longOpt && LongReached(name)
    requires P.longOpt[name].TakesValue() && !AlikeOption(P.longOpt[name])
    ensures !HeedsDashes(P)
  {
    hide TakeValue, AlikeOption, HeedsDashes, OptionLoop, Exhausts;
    var o := P.longOpt[name];
    NoEquals(name);
    assert name[..|name|] == name;
    var post := TakesThem(P, name, o, Start([]), []);
    assert [] + (["--"] + post) == ["--"] + post;
    NotHeeded(P, name, post, TakeValue(P, name, o, Start([])).st, TakeValue(P, name, o, Start(["--"] + post)).st);
  }

  // The same with an empty text attached, where the name alone may be no option.
  lemma AttachedLeads(P: Config, name: string)
    requires Valid(P) && P.interspersed && name in P.longOpt && LongReached(name)
    requires P.longOpt[name].TakesValue() && !AlikeOption(P.longOpt[name])
    ensures !HeedsDashes(P)
  {
    hide TakeValue, AlikeOption, HeedsDashes, OptionLoop, Exhausts;
    var o, arg := P.longOpt[name], name + "=";
    FindEqualsAfter(name, "");
    assert name + "=" + "" == arg && arg[..|name|] == name && arg[..1] == name[..1];
    assert arg[|name|] == '=' && arg[|name| + 1..] == "";
    var post := TakesThem(P, name, o, Start([]), [""]);
    AttachedOpts(P, arg, name, []);
    AttachedOpts(P, arg, name, ["--"] + post);
    assert [""] + [] == [""];
    NotHeeded(P, arg, post, TakeValue(P, name, o, Start([""])).st, TakeValue(P, name, o, Start([""] + (["--"] + post))).st);
  }

  lemma AttachedOpts(P: Config, arg: string, name: string, rest: seq<string>)
    requires |arg| > 1 && LongName(arg) == name && Explicit(arg) == Some("") && name in P.longOpt && P.longOpt[name].TakesValue()
    ensures ProcessOpts(P, arg, Start(rest)) == TakeValue(P, name, P.longOpt[name], Start([""] + rest))
  {
    hide TakeValue, LongName, Explicit;
    assert Start(rest).(rargs := [""] + rest) == Start([""] + rest);
  }

  lemma ShortLeads(P: Config, name: string)
    requires Valid(P) && name in P.shortOpt && P.shortOpt[name].TakesValue() && !AlikeOption(P.shortOpt[name])
    requires LongName(name) !in P.longOpt
    ensures !HeedsDashes(P)
  {
    hide TakeValue, LongName, AlikeOption, HeedsDashes;
    var o := P.shortOpt[name];
    ShortToken(P, name);
    assert name == [name[0], name[1]];
    var post := TakesThem(P, name, o, Start([]), []);
    assert [] + (["--"] + post) == ["--"] + post;
    EndsCluster(P, name, 1, "", Start([]), name, o);
    EndsCluster(P, name, 1, "", Start(["--"] + post), name, o);
    NotHeeded(P, name, post, TakeValue(P, name, o, Start([])).st, TakeValue(P, name, o, Start(["--"] + post)).st);
  }

  // The separator as an option letter, behind a flag.
  lemma BehindLeads(P: Config, f: string, name: string)
    requires Valid(P) && f in P.shortOpt && name in P.shortOpt && FlagBefore(P, f, name) && name[0] != '=' && name[1] == '='
    requires P.shortOpt[name].TakesValue() && !AlikeOption(P.shortOpt[name])
    ensures !HeedsDashes(P)
  {
    hide TakeValue, LongName, AlikeOption, HeedsDashes, OptionLoop, Exhausts;
    var o, flag, arg := P.shortOpt[name], P.shortOpt[f], f + "=";
    LongNameOfShort(P, f, arg);
    assert [arg[0], arg[1]] == f && [arg[0], arg[2]] == name;
    var pre := ProcessOption(flag, Unset, Start([])).st;
    var post := TakesThem(P, name, o, pre, []);
    assert [] + (["--"] + post) == ["--"] + post;
    FlagThenLast(P, arg, f, name, []);
    FlagThenLast(P, arg, f, name, ["--"] + post);
    NotHeeded(P, arg, post, TakeValue(P, name, o, pre.(rargs := [])).st, TakeValue(P, name, o, pre.(rargs := ["--"] + post)).st);
  }

  lemma FlagThenLast(P: Config, arg: string, f: string, name: string, rargs: seq<string>)
    requires |arg| == 3 && [arg[0], arg[1]] == f && [arg[0], arg[2]] == name && f in P.shortOpt && name in P.shortOpt
    requires !P.shortOpt[f].TakesValue() && P.shortOpt[name].TakesValue()
    ensures var pre := ProcessOption(P.shortOpt[f], Unset, Start([])).st;
            var r := TakeValue(P, name, P.shortOpt[name], pre.(rargs := rargs));
            r.raised.None? ==> MatchShort(P, arg, 1, "", Start(rargs)) == r
  {
    hide TakeValue;
    var pre := ProcessOption(P.shortOpt[f], Unset, Start([])).st;
    assert ProcessOption(P.shortOpt[f], Unset, Start(rargs)) == Fine(pre.(rargs := rargs));
    assert MatchShort(P, arg, 1, "", Start(rargs)) == MatchShort(P, arg, 2, "", pre.(rargs := rargs));
    EndsCluster(P, arg, 2, "", pre.(rargs := rargs), name, P.shortOpt[name]);
  }

  // A short option standing alone is read as a cluster unless its prefix is a long option by itself.
  lemma AloneName(P: Config, name: string)
    requires Valid(P) && name in P.shortOpt
    ensures |name| == 2
    ensures LongName(name) !in P.longOpt <==> name[0] == '=' || name[1] != '=' || [name[0]] !in P.longOpt
  {
    assert name[0] != name[1] && name[..2] == name;
    if name[1] == '=' {
      ShortLongName(name);
    } else if name[0] != '=' {
      NoEquals(name);
    }
  }

  // Main result (Guideline 10): whatever precedes an effective `--` is parsed as if nothing followed,
  // and everything after it handed on verbatim, if and only if each value-taking option that a command
  // line can reach has nargs 0 or 1, or nargs above 1 and a mandatory value.  This is for parsers as
  // they are by default, and for any others without a long option that is a prefix alone.
  lemma DashDashExactly(P: Config)
    requires Valid(P) && (NamedOptions(P) || (P.interspersed && !P.ignoreUnknown))
    ensures HeedsDashes(P) <==> AllAlike(P)
  {
    hide OptionLoop, Exhausts, AlikeOption;
    if AllAlike(P) {
      forall st: State, post: seq<string> | Exhausts(P, st) ensures Heeded(P, st, post) {
        DashDash(P, st, post);
      }
    } else if n :| n in P.shortOpt && ShortReached(P, n) && !AlikeOption(P.shortOpt[n]) {
      NotAlikeTakes(P.shortOpt[n]);
      AloneName(P, n);
      if LongName(n) !in P.longOpt {
        ShortLeads(P, n);
      } else {
        var f :| f in P.shortOpt && FlagBefore(P, f, n);
        BehindLeads(P, f, n);
      }
    } else {
      var n :| n in P.longOpt && LongReached(n) && !AlikeOption(P.longOpt[n]);
      NotAlikeTakes(P.longOpt[n]);
      if P.interspersed {
        AttachedLeads(P, n);
      } else {
        LongLeads(P, n);
      }
    }
  }

  lemma NotAlikeTakes(o: Opt)
    requires !AlikeOption(o)
    ensures o.TakesValue()
  {
  }
}
