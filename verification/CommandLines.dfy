/** From a command line to what the parser reads in it: options and positional words written out in
    any order parse back to exactly what was written. */
module CommandLines {
  import opened CliValues
  import opened Subsequences
  import opened Unpack
  import opened Parser
  import opened ParserLaws
  import opened ParseLaws
  import opened Spelling

  // ---------------------------------------------------------------- what is written

  /** An option with the values behind its name, or a positional word. */
  datatype Item = Use(name: string, values: seq<string>) | Word(word: string)

  /** How the options end: with the line, at a `--`, or at the first word of a parser that stops there. */
  datatype End = Nothing | Dashes(words: seq<string>) | Stops(words: seq<string>)

  function EndTokens(end: End): seq<string> {
    match end
    case Nothing => []
    case Dashes(words) => ["--"] + words
    case Stops(words) => words
  }

  function EndWords(end: End): seq<string> {
    if end.Nothing? then [] else end.words
  }

  function Tokens(item: Item): seq<string> {
    if item.Use? then [item.name] + item.values else [item.word]
  }

  // The command line.
  function Line(items: seq<Item>, end: End): seq<string> {
    if items == [] then EndTokens(end) else Tokens(items[0]) + Line(items[1..], end)
  }

  // The name, standing alone, is an option's.
  predicate Named(P: Config, name: string) {
    || (name in P.longOpt && '=' !in name && |name| > 1 && name != "--")
    || (name in P.shortOpt && |name| > 1 && (name[1] == '=' ==> name[..1] !in P.longOpt))
  }

  function OptionOf(P: Config, name: string): Opt
    requires Named(P, name)
  {
    if name in P.longOpt then P.longOpt[name] else P.shortOpt[name]
  }

  // The value may be left out before these tokens.
  predicate MayOmit(P: Config, o: Opt, rest: seq<string>) {
    o.flagNeedsValue && (|rest| < o.nargs || (o.nargs == 1 && LooksLikeOption(P, rest[0])))
  }

  predicate Takes(P: Config, o: Opt, values: seq<string>, rest: seq<string>) {
    if !o.TakesValue() then values == []
    else if values == [] && o.nargs != 0 then MayOmit(P, o, rest)
    else |values| == o.nargs && (o.nargs == 1 && o.flagNeedsValue ==> !LooksLikeOption(P, values[0]))
  }

  predicate Written(P: Config, item: Item, rest: seq<string>) {
    match item
    case Use(name, values) => Named(P, name) && Takes(P, OptionOf(P, name), values, rest)
    case Word(word) => P.interspersed && !LooksLikeOption(P, word)
  }

  predicate Ended(P: Config, end: End) {
    end.Stops? ==> !P.interspersed && end.words != [] && !LooksLikeOption(P, end.words[0])
  }

  // Each option has the values it takes, and each word looks like one.
  predicate WellFormed(P: Config, items: seq<Item>, end: End) {
    if items == [] then Ended(P, end)
    else Written(P, items[0], Line(items[1..], end)) && WellFormed(P, items[1..], end)
  }

  // ---------------------------------------------------------------- what is meant

  // What one use gives: its text, its tuple, the mark of an omitted value, or the option's constant.
  function Given(o: Opt, values: seq<string>): Value {
    if !o.TakesValue() then o.constant
    else if values == [] && o.nargs != 0 then FlagNeedsValue
    else if o.nargs == 1 && values != [] then Text(values[0])
    else Tuple(Texts(values))
  }

  // A destination holds the last of its values, all of them, or their number.
  datatype Kind = Latest | Every | Tally

  function KindOf(o: Opt): Kind {
    match o.action
    case Store => Latest
    case StoreConst => Latest
    case Append => Every
    case AppendConst => Every
    case Count => Tally
  }

  function Held(kind: Kind, given: seq<Value>): Value
    requires given != []
  {
    match kind
    case Latest => given[|given| - 1]
    case Every => List(given)
    case Tally => Number(|given|)
  }

  predicate UsesOf(P: Config, item: Item, dest: string) {
    item.Use? && Named(P, item.name) && OptionOf(P, item.name).dest == dest
  }

  // What the uses with one destination give, in order.
  function AllGiven(P: Config, items: seq<Item>, dest: string): seq<Value> {
    if items == [] then []
    else (if UsesOf(P, items[0], dest) then [Given(OptionOf(P, items[0].name), items[0].values)] else []) + AllGiven(P, items[1..], dest)
  }

  function WordOf(item: Item): seq<string> {
    if item.Word? then [item.word] else []
  }

  function WordsOf(items: seq<Item>): seq<string> {
    if items == [] then [] else WordOf(items[0]) + WordsOf(items[1..])
  }

  // The options used, in order.
  function Used(P: Config, items: seq<Item>): seq<nat> {
    if items == [] then [] else UsedBy(P, items[0]) + Used(P, items[1..])
  }

  function UsedBy(P: Config, item: Item): seq<nat> {
    if item.Use? && Named(P, item.name) then [OptionOf(P, item.name).obj] else []
  }

  // Uses with one destination are of one kind.
  ghost predicate Agreeing(P: Config, items: seq<Item>) {
    forall u, v :: u in items && v in items && u.Use? && v.Use? && Named(P, u.name) && Named(P, v.name)
                   && OptionOf(P, u.name).dest == OptionOf(P, v.name).dest ==>
                     KindOf(OptionOf(P, u.name)) == KindOf(OptionOf(P, v.name))
  }

  // The destinations show what the items give.
  ghost predicate Shows(P: Config, items: seq<Item>, opts: map<string, Value>) {
    && (forall d :: d in opts <==> AllGiven(P, items, d) != [])
    && (forall u :: u in items && u.Use? && Named(P, u.name) ==>
          var o := OptionOf(P, u.name);
          o.dest in opts && AllGiven(P, items, o.dest) != [] && opts[o.dest] == Held(KindOf(o), AllGiven(P, items, o.dest)))
  }

  lemma {:induction false} AllGivenSnoc(P: Config, items: seq<Item>, item: Item, dest: string)
    ensures AllGiven(P, items + [item], dest)
            == AllGiven(P, items, dest) + if UsesOf(P, item, dest) then [Given(OptionOf(P, item.name), item.values)] else []
  {
    if items == [] {
      assert [] + [item] == [item];
    } else {
      AllGivenSnoc(P, items[1..], item, dest);
      ConcatTail(items, [item]);
    }
  }

  lemma {:induction false} SomeUse(P: Config, items: seq<Item>, dest: string)
    requires AllGiven(P, items, dest) != []
    ensures exists u :: u in items && UsesOf(P, u, dest)
  {
    if !UsesOf(P, items[0], dest) {
      SomeUse(P, items[1..], dest);
    }
  }

  // ---------------------------------------------------------------- fetching a value

  // A fetch conserves what it reads: the value holds the first nargs tokens, in order, and the others
  // are left; where the value is omitted all of them are.  It fails exactly when there are too few and
  // the value may not be omitted.
  lemma FetchConserves(P: Config, o: Opt, rargs: seq<string>)
    requires o.nargs >= 1
    ensures FetchValue(P, o, rargs).Missing? <==> |rargs| < o.nargs && !o.flagNeedsValue
    ensures var f := FetchValue(P, o, rargs);
            f.Got? ==>
              && (f.value == FlagNeedsValue <==> MayOmit(P, o, rargs))
              && (f.value == FlagNeedsValue ==> f.rest == rargs)
              && (f.value != FlagNeedsValue ==>
                    && SlotTokens(f.value) + f.rest == rargs && |SlotTokens(f.value)| == o.nargs
                    && (if o.nargs == 1 then f.value.Text? else f.value.Tuple?))
  {
    hide LooksLikeOption, CellTokens, Texts;
    if |rargs| >= o.nargs {
      if o.nargs > 1 {
        TextsTokens(rargs[..o.nargs]);
      }
      assert rargs[..o.nargs] + rargs[o.nargs..] == rargs;
    }
  }

  lemma FetchGiven(P: Config, o: Opt, values: seq<string>, rest: seq<string>)
    requires o.TakesValue() && Takes(P, o, values, rest)
    ensures FetchValue(P, o, values + rest) == Got(Given(o, values), rest)
  {
    hide LooksLikeOption, Texts;
    var all := values + rest;
    if values == [] {
      assert all == rest;
    } else {
      assert all[..|values|] == values && all[|values|..] == rest && all[0] == values[0];
    }
    if o.nargs == 0 {
      assert all[..0] == values && all[0..] == rest;
    }
  }

  // ---------------------------------------------------------------- one item

  lemma LoopOnUse(P: Config, name: string, rest: seq<string>, st: State)
    requires Valid(P) && Named(P, name)
    ensures var o, s := OptionOf(P, name), st.(rargs := rest);
            OptionLoop(P, st.(rargs := [name] + rest)) ==
              Resume(P, if o.TakesValue() then TakeValue(P, name, o, s) else ProcessOption(o, Unset, s))
  {
    hide OptionLoop, TakeValue, ProcessOption;
    if name in P.longOpt && '=' !in name && |name| > 1 && name != "--" {
      assert name[..1] in P.prefixes;
      LoopOnOption(P, name, rest, st);
      NoEquals(name);
      assert name[..|name|] == name;
    } else {
      ShortToken(P, name);
      LoopOnShort(P, name, rest, st);
    }
  }

  // The destination shows |before| already, and now |v| too.
  lemma ProcessHeld(o: Opt, v: Value, before: seq<Value>, st: State)
    requires !o.TakesValue() ==> v == o.constant
    requires if before == [] then o.dest !in st.opts else o.dest in st.opts && st.opts[o.dest] == Held(KindOf(o), before)
    ensures ProcessOption(o, if o.TakesValue() then v else Unset, st)
            == Fine(st.(opts := st.opts[o.dest := Held(KindOf(o), before + [v])], order := st.order + [o.obj]))
  {
    assert before == [] ==> before + [v] == [v];
  }

  lemma GivenConstant(o: Opt, values: seq<string>)
    ensures !o.TakesValue() ==> Given(o, values) == o.constant
  {
  }

  // Processing a value adds it to what the destination shows.
  lemma UseShown(P: Config, done: seq<Item>, u: Item, st: State)
    requires u.Use? && Named(P, u.name) && Agreeing(P, done + [u]) && Shows(P, done, st.opts)
    ensures var o := OptionOf(P, u.name);
            var r := ProcessOption(o, if o.TakesValue() then Given(o, u.values) else Unset, st);
            && r.raised.None? && Shows(P, done + [u], r.st.opts) && r.st.order == st.order + [o.obj]
            && r.st.largs == st.largs && r.st.rargs == st.rargs
  {
    hide Named, OptionOf, Given, Held, KindOf, ProcessOption;
    var o := OptionOf(P, u.name);
    var v, before := Given(o, u.values), AllGiven(P, done, o.dest);
    forall d ensures AllGiven(P, done + [u], d) == AllGiven(P, done, d) + if d == o.dest then [v] else [] {
      AllGivenSnoc(P, done, u, d);
    }
    if before != [] {
      SomeUse(P, done, o.dest);
      var w :| w in done && UsesOf(P, w, o.dest);
      assert w in done + [u] && u in done + [u];
    }
    GivenConstant(o, u.values);
    ProcessHeld(o, v, before, st);
    var opts := st.opts[o.dest := Held(KindOf(o), before + [v])];
    forall x | x in done + [u] && x.Use? && Named(P, x.name)
      ensures var p := OptionOf(P, x.name); var all := AllGiven(P, done + [u], p.dest);
              p.dest in opts && all != [] && opts[p.dest] == Held(KindOf(p), all)
    {
      assert x in done || x == u;
      assert u in done + [u];
      var p := OptionOf(P, x.name);
      if p.dest == o.dest {
        assert KindOf(p) == KindOf(o);
      } else {
        assert AllGiven(P, done + [u], p.dest) == AllGiven(P, done, p.dest);
      }
    }
  }

  // ---------------------------------------------------------------- the whole line

  lemma LineEnds(P: Config, end: End, st: State)
    requires Valid(P) && Ended(P, end) && st.rargs == EndTokens(end)
    ensures OptionLoop(P, st) == Fine(st.(rargs := EndWords(end)))
  {
    hide LooksLikeOption;
    if end.Dashes? {
      assert st.rargs[1..] == end.words;
    } else if end.Stops? {
      DashesLook(P);
    }
  }

  lemma LoopOnWord(P: Config, word: string, rest: seq<string>, st: State)
    requires Valid(P) && P.interspersed && !LooksLikeOption(P, word)
    ensures OptionLoop(P, st.(rargs := [word] + rest)) == OptionLoop(P, st.(largs := st.largs + [word], rargs := rest))
  {
    hide LooksLikeOption;
    DashesLook(P);
    var s := st.(rargs := [word] + rest);
    assert s.rargs[1..] == rest;
    assert OptionStep(P, s) == Continue(st.(largs := st.largs + [word], rargs := rest));
  }

  // Main result: the option loop reads a line as it was written.  Every word is collected, in order,
  // what follows the options is left, each destination shows what its uses give, and the options are
  // recorded in the order of their use.
  lemma {:induction false} LoopReads(P: Config, done: seq<Item>, items: seq<Item>, end: End, st: State)
    requires Valid(P) && WellFormed(P, items, end) && Agreeing(P, done + items) && Shows(P, done, st.opts)
    requires st.rargs == Line(items, end)
    ensures var r := OptionLoop(P, st);
            && r.raised.None? && r.st.largs == st.largs + WordsOf(items) && r.st.rargs == EndWords(end)
            && Shows(P, done + items, r.st.opts) && r.st.order == st.order + Used(P, items)
    decreases |items|
  {
    hide OptionLoop, Shows, Agreeing, Written, Ended, EndTokens, Tokens, WordOf, UsedBy;
    if items == [] {
      assert done + items == done && st.largs + [] == st.largs && st.order + [] == st.order;
      LineEnds(P, end, st);
    } else {
      var item, rest := items[0], Line(items[1..], end);
      assert done + items == (done + [item]) + items[1..];
      AgreeingPrefix(P, done + [item], items[1..]);
      var next := ItemRead(P, done, item, rest, st);
      LoopReads(P, done + [item], items[1..], end, next);
      ConcatAssoc(st.largs, WordOf(item), WordsOf(items[1..]));
      ConcatAssoc(st.order, UsedBy(P, item), Used(P, items[1..]));
    }
  }

  lemma AgreeingPrefix(P: Config, a: seq<Item>, b: seq<Item>)
    requires Agreeing(P, a + b)
    ensures Agreeing(P, a)
  {
    assert forall u :: u in a ==> u in a + b;
  }

  lemma ShowsWord(P: Config, done: seq<Item>, word: string, opts: map<string, Value>)
    requires Shows(P, done, opts)
    ensures Shows(P, done + [Word(word)], opts)
  {
    hide Named, OptionOf, Given, Held, KindOf;
    forall d ensures AllGiven(P, done + [Word(word)], d) == AllGiven(P, done, d) {
      AllGivenSnoc(P, done, Word(word), d);
    }
    assert forall u :: u in done + [Word(word)] && u.Use? ==> u in done;
  }

  lemma ItemRead(P: Config, done: seq<Item>, item: Item, rest: seq<string>, st: State) returns (next: State)
    requires Valid(P) && Written(P, item, rest) && Agreeing(P, done + [item]) && Shows(P, done, st.opts)
    requires st.rargs == Tokens(item) + rest
    ensures OptionLoop(P, st) == OptionLoop(P, next) && next.rargs == rest && Shows(P, done + [item], next.opts)
    ensures next.largs == st.largs + WordOf(item) && next.order == st.order + UsedBy(P, item)
  {
    hide OptionLoop, Shows, Agreeing, Named, OptionOf, LooksLikeOption, ProcessOption, FetchValue;
    match item
    case Word(word) =>
      next := st.(largs := st.largs + [word], rargs := rest);
      LoopOnWord(P, word, rest, st);
      assert st == st.(rargs := [word] + rest);
      ShowsWord(P, done, word, st.opts);
    case Use(name, values) =>
      var o, s := OptionOf(P, name), st.(rargs := rest);
      assert st == st.(rargs := [name] + (values + rest)) by {
        ConcatAssoc([name], values, rest);
      }
      LoopOnUse(P, name, values + rest, st);
      if o.TakesValue() {
        FetchGiven(P, o, values, rest);
      } else {
        assert values + rest == rest;
      }
      UseShown(P, done, item, s);
      next := ProcessOption(o, if o.TakesValue() then Given(o, values) else Unset, s).st;
  }

  // ---------------------------------------------------------------- the positional words

  // The words have run out before the i-th argument: what is unlimited has got none either.
  predicate RunOut(spec: seq<int>, pieces: seq<seq<string>>, i: nat) {
    forall j :: 0 <= j < |pieces| && (i <= j || FirstWild(spec) <= j) ==> pieces[j] == []
  }

  // The words are shared out: each argument gets as many as it asks for, the unlimited one any number,
  // unless the words run out; what is over is left if no argument is unlimited.
  predicate Shared(spec: seq<int>, pieces: seq<seq<string>>, over: seq<string>) {
    && |pieces| == |spec|
    && (forall i :: 0 <= i < |spec| ==> spec[i] != 0)
    && (forall i, j :: 0 <= i < j < |spec| ==> spec[i] > 0 || spec[j] > 0)
    && (forall i :: 0 <= i < |spec| && spec[i] > 0 ==>
          |pieces[i]| == spec[i] || (pieces[i] == [] && over == [] && RunOut(spec, pieces, i)))
    && (HasWild(spec) ==> over == [])
  }

  // What an argument shows of its words.
  function Filled(nargs: int, piece: seq<string>): Value {
    if piece == [] then Unset else if nargs == 1 then Text(piece[0]) else Tuple(Texts(piece))
  }

  // The fixed arguments from a to b have all their words.
  lemma {:induction false} DemandOf(spec: seq<int>, pieces: seq<seq<string>>)
    requires |pieces| == |spec| && forall i :: 0 <= i < |spec| ==> spec[i] > 0 && |pieces[i]| == spec[i]
    ensures |Concat(pieces)| == Demand(spec)
  {
    if spec != [] {
      DemandOf(spec[1..], pieces[1..]);
    }
  }

  // The pieces up to i ask for no less than they hold; for exactly that if none of them is short.
  lemma {:induction false} DemandAtLeast(spec: seq<int>, pieces: seq<seq<string>>)
    requires |pieces| == |spec| && forall i :: 0 <= i < |spec| ==> spec[i] > 0 && (|pieces[i]| == spec[i] || pieces[i] == [])
    ensures |Concat(pieces)| <= Demand(spec)
  {
    if spec != [] {
      DemandAtLeast(spec[1..], pieces[1..]);
    }
  }

  lemma CellsTexts(tokens: seq<string>, start: nat, n: nat)
    requires start + n <= |tokens|
    ensures Cells(tokens, start, n) == Texts(tokens[start..start + n])
  {
  }

  lemma SlotFilled(a: Arg, tokens: seq<string>, start: nat, piece: seq<string>)
    requires a.nargs > 0 && |piece| == a.nargs && start + |piece| <= |tokens| && tokens[start..start + |piece|] == piece
    ensures ArgumentValue(a, Slot(Cells(tokens, start, a.nargs))) == Ok(Filled(a.nargs, piece))
  {
    hide Cells, CountUnset;
    CellsTexts(tokens, start, a.nargs);
    NoneUnset(piece);
  }

  lemma {:induction false} NoneUnset(tokens: seq<string>)
    ensures CountUnset(Texts(tokens)) == 0
  {
    if tokens != [] {
      NoneUnset(tokens[1..]);
      assert Texts(tokens)[1..] == Texts(tokens[1..]);
    }
  }

  lemma SlotEmpty(a: Arg, tokens: seq<string>, start: int)
    requires a.nargs > 0 && (start >= |tokens| || start + a.nargs <= 0)
    ensures ArgumentValue(a, Slot(Cells(tokens, start, a.nargs))) == Ok(Filled(a.nargs, []))
  {
    hide CountUnset;
    var cells := Cells(tokens, start, a.nargs);
    EveryUnset(cells);
  }

  lemma {:induction false} EveryUnset(items: seq<Value>)
    requires forall i :: 0 <= i < |items| ==> items[i].Unset?
    ensures CountUnset(items) == |items|
  {
    if items != [] {
      EveryUnset(items[1..]);
    }
  }

  // The arguments before the n-th are limited and have all their words.
  ghost predicate Full(spec: seq<int>, pieces: seq<seq<string>>, n: nat)
    requires n <= |spec| == |pieces|
  {
    forall i :: 0 <= i < n ==> spec[i] > 0 && |pieces[i]| == spec[i]
  }

  lemma {:induction false} NoneLeft<T>(pieces: seq<seq<T>>)
    requires forall i :: 0 <= i < |pieces| ==> pieces[i] == []
    ensures Concat(pieces) == []
  {
    if pieces != [] {
      NoneLeft(pieces[1..]);
    }
  }

  // What is left behind the front arguments.
  lemma FrontTaken(spec: seq<int>, pieces: seq<seq<string>>, over: seq<string>, n: nat)
    requires Shared(spec, pieces, over) && n <= FirstWild(spec)
    ensures Full(spec, pieces, n) ==>
              Demand(spec[..n]) == |Concat(pieces[..n])| && AfterFront(Concat(pieces) + over, Demand(spec[..n])) == Concat(pieces[n..]) + over
    ensures !Full(spec, pieces, n) ==> over == [] && |Concat(pieces)| <= Demand(spec[..n])
  {
    ConcatAppend(pieces[..n], pieces[n..]);
    assert pieces == pieces[..n] + pieces[n..];
    if Full(spec, pieces, n) {
      DemandOf(spec[..n], pieces[..n]);
      hide Demand, Concat, Shared, Full;
      ConcatAssoc(Concat(pieces[..n]), Concat(pieces[n..]), over);
      Dropped(Concat(pieces[..n]), Concat(pieces[n..]) + over);
    } else {
      DemandAtLeast(spec[..n], pieces[..n]);
      var i :| 0 <= i < n && |pieces[i]| != spec[i];
      assert RunOut(spec, pieces, i);
      hide Demand, Concat;
      NoneLeft(pieces[n..]);
    }
  }

  lemma Dropped(a: seq<string>, b: seq<string>)
    ensures AfterFront(a + b, |a|) == b
  {
  }

  // Where the words of an argument before the unlimited one lie; or they have run out.
  lemma FrontPiece(spec: seq<int>, pieces: seq<seq<string>>, over: seq<string>, i: nat)
    requires Shared(spec, pieces, over) && i < FirstWild(spec)
    ensures var tokens, start := Concat(pieces) + over, Demand(spec[..i]);
            if |pieces[i]| == spec[i] then start + |pieces[i]| <= |tokens| && tokens[start..start + |pieces[i]|] == pieces[i]
            else pieces[i] == [] && |tokens| <= start
  {
    FrontTaken(spec, pieces, over, i);
    if |pieces[i]| == spec[i] {
      assert Full(spec, pieces, i);
      hide Demand, Concat, Shared, Full;
      PieceAt(pieces, i);
      StartsAt(Concat(pieces[..i]), pieces[i], Concat(pieces[i + 1..]), over);
    } else {
      assert RunOut(spec, pieces, i);
      hide Demand, Concat, Full;
      ConcatAppend(pieces[..i], pieces[i..]);
      assert pieces == pieces[..i] + pieces[i..];
      NoneLeft(pieces[i..]);
    }
  }

  lemma StartsAt<T>(a: seq<T>, b: seq<T>, c: seq<T>, d: seq<T>)
    ensures var s := a + (b + c) + d; |a| + |b| <= |s| && s[|a|..|a| + |b|] == b
  {
  }

  // The i-th slot before what is unlimited.
  lemma FrontShare(args: seq<Arg>, pieces: seq<seq<string>>, over: seq<string>, i: nat)
    requires Shared(NargsSpec(args), pieces, over) && i < FirstWild(NargsSpec(args))
    ensures var tokens, spec := Concat(pieces) + over, NargsSpec(args);
            ArgumentValue(args[i], Slot(Cells(tokens, Demand(spec[..i]), spec[i]))) == Ok(Filled(spec[i], pieces[i]))
  {
    hide Demand, Cells, ArgumentValue, Filled, Slot, Concat, RunOut;
    var tokens, spec := Concat(pieces) + over, NargsSpec(args);
    FrontPiece(spec, pieces, over, i);
    if |pieces[i]| == spec[i] {
      SlotFilled(args[i], tokens, Demand(spec[..i]), pieces[i]);
    } else {
      SlotEmpty(args[i], tokens, Demand(spec[..i]));
    }
  }

  // What is left for the arguments from the unlimited one on.
  lemma BehindFront(spec: seq<int>, pieces: seq<seq<string>>, over: seq<string>)
    requires Shared(spec, pieces, over) && HasWild(spec)
    ensures AfterFront(Concat(pieces) + over, Demand(spec[..FirstWild(spec)])) == Concat(pieces[FirstWild(spec)..])
  {
    hide Demand;
    var w := FirstWild(spec);
    FrontTaken(spec, pieces, over, w);
    if Full(spec, pieces, w) {
      assert Concat(pieces[w..]) + [] == Concat(pieces[w..]);
    } else {
      var i :| 0 <= i < w && |pieces[i]| != spec[i];
      assert RunOut(spec, pieces, i);
      NoneLeft(pieces[w..]);
      assert Concat(pieces) + over == Concat(pieces);
    }
  }

  // The arguments from the i-th on, behind the unlimited one, either have all their words or there are none.
  lemma BackShare(spec: seq<int>, pieces: seq<seq<string>>, over: seq<string>, i: nat)
    requires Shared(spec, pieces, over) && FirstWild(spec) < i <= |spec|
    ensures |Concat(pieces[i..])| == Demand(spec[i..]) || Concat(pieces[FirstWild(spec)..]) == []
  {
    var w := FirstWild(spec);
    if forall j :: i <= j < |spec| ==> |pieces[j]| == spec[j] {
      DemandOf(spec[i..], pieces[i..]);
    } else {
      var j :| i <= j < |spec| && |pieces[j]| != spec[j];
      assert RunOut(spec, pieces, j);
      NoneLeft(pieces[w..]);
    }
  }

  lemma WildShare(args: seq<Arg>, pieces: seq<seq<string>>, over: seq<string>, w: nat)
    requires Shared(NargsSpec(args), pieces, over) && w < |args| && w == FirstWild(NargsSpec(args))
    ensures var tokens, spec := Concat(pieces) + over, NargsSpec(args);
            var rest := AfterFront(tokens, Demand(spec[..w]));
            ArgumentValue(args[w], Tuple(Texts(BeforeBack(rest, Demand(spec[w + 1..]))))) == Ok(Filled(spec[w], pieces[w]))
  {
    hide Demand;
    var spec := NargsSpec(args);
    BehindFront(spec, pieces, over);
    BackShare(spec, pieces, over, w + 1);
    assert pieces[w..][1..] == pieces[w + 1..];
    var rest, back := Concat(pieces[w..]), Concat(pieces[w + 1..]);
    assert rest == pieces[w] + back;
    if rest != [] {
      assert rest[..|rest| - Demand(spec[w + 1..])] == pieces[w];
    }
  }

  // Where the words of an argument behind the unlimited one lie, counted from the last word.
  lemma TailPiece(spec: seq<int>, pieces: seq<seq<string>>, over: seq<string>, i: nat)
    requires Shared(spec, pieces, over) && FirstWild(spec) < i < |spec| && spec[i] > 0
    ensures var rest := Concat(pieces[FirstWild(spec)..]);
            if rest == [] then pieces[i] == []
            else var start := |rest| - Demand(spec[i..]);
                 |pieces[i]| == spec[i] && 0 <= start <= start + |pieces[i]| <= |rest| && rest[start..start + |pieces[i]|] == pieces[i]
  {
    hide Demand, Concat, RunOut;
    var w := FirstWild(spec);
    var late := pieces[w..];
    BackShare(spec, pieces, over, i);
    PieceAt(late, i - w);
    var front, tail := late[..i - w], Concat(late[i - w + 1..]);
    assert late[i - w] == pieces[i] && late[i - w + 1..] == pieces[i + 1..];
    assert Concat(pieces[i..]) == pieces[i] + tail by {
      PieceAt(pieces[i..], 0);
      assert pieces[i..][0] == pieces[i] && pieces[i..][1..] == pieces[i + 1..] && pieces[i..][..0] == [];
      NoneLeft<string>([]);
    }
    if Concat(late) != [] {
      ShareIsFull(spec, pieces, over, i);
      InBetween(Concat(front), pieces[i], tail);
    }
  }

  lemma ShareIsFull(spec: seq<int>, pieces: seq<seq<string>>, over: seq<string>, i: nat)
    requires Shared(spec, pieces, over) && FirstWild(spec) < i < |spec| && spec[i] > 0
    requires Concat(pieces[FirstWild(spec)..]) != []
    ensures |pieces[i]| == spec[i]
  {
    if |pieces[i]| != spec[i] {
      assert RunOut(spec, pieces, i);
      NoneLeft(pieces[FirstWild(spec)..]);
    }
  }

  lemma InBetween<T>(a: seq<T>, b: seq<T>, c: seq<T>)
    ensures var s, start := a + (b + c), |a + (b + c)| - |b + c|; start == |a| && s[start..start + |b|] == b
  {
  }

  lemma TailShare(args: seq<Arg>, pieces: seq<seq<string>>, over: seq<string>, i: nat)
    requires Shared(NargsSpec(args), pieces, over) && FirstWild(NargsSpec(args)) < i < |args| && args[i].nargs > 0
    ensures var tokens, spec := Concat(pieces) + over, NargsSpec(args);
            var rest := AfterFront(tokens, Demand(spec[..FirstWild(spec)]));
            ArgumentValue(args[i], Slot(Cells(rest, |rest| - Demand(spec[i..]), spec[i]))) == Ok(Filled(spec[i], pieces[i]))
  {
    var spec := NargsSpec(args);
    hide Demand, Cells, ArgumentValue, Filled, Slot, Concat, RunOut, AfterFront;
    var w := FirstWild(spec);
    BehindFront(spec, pieces, over);
    TailPiece(spec, pieces, over, i);
    DemandSplit(spec, i);
    var rest := Concat(pieces[w..]);
    if rest == [] {
      SlotEmpty(args[i], rest, 0 - Demand(spec[i..]));
    } else {
      SlotFilled(args[i], rest, |rest| - Demand(spec[i..]), pieces[i]);
    }
  }

  // The split gives each argument its share.
  lemma SharesReach(args: seq<Arg>, pieces: seq<seq<string>>, over: seq<string>, i: nat)
    requires Shared(NargsSpec(args), pieces, over) && i < |args|
    ensures var split := Split(Concat(pieces) + over, NargsSpec(args));
            && split.Ok? && |split.value.slots| == |args|
            && ArgumentValue(args[i], split.value.slots[i]) == Ok(Filled(args[i].nargs, pieces[i]))
  {
    hide Demand, Cells, Slot, ArgumentValue, Filled, Split, AfterFront, BeforeBack, Concat, RunOut;
    var tokens, spec := Concat(pieces) + over, NargsSpec(args);
    SplitFailsExactly(tokens, spec);
    SlotIsSlice(tokens, spec, i);
    var w := FirstWild(spec);
    if i < w {
      FrontShare(args, pieces, over, i);
    } else if i == w {
      WildShare(args, pieces, over, i);
    } else {
      TailShare(args, pieces, over, i);
    }
  }

  lemma RestIsOver(spec: seq<int>, pieces: seq<seq<string>>, over: seq<string>)
    requires Shared(spec, pieces, over)
    ensures Split(Concat(pieces) + over, spec).Ok? && Split(Concat(pieces) + over, spec).value.rest == over
  {
    hide Demand, FrontSlots, BackSlots, RunOut;
    var tokens, n := Concat(pieces) + over, |spec|;
    SplitFailsExactly(tokens, spec);
    SplitParts(tokens, spec);
    if !HasWild(spec) {
      FrontTaken(spec, pieces, over, n);
      assert pieces[n..] == [] && [] + over == over;
    }
  }

  lemma {:induction false} PhaseFills(args: seq<Arg>, slots: seq<Value>, i: nat, st: State)
    requires i <= |args| == |slots| && forall j :: i <= j < |args| ==> ArgumentValue(args[j], slots[j]).Ok?
    ensures ProcessArguments(args, slots, i, st).raised.None?
    ensures forall d :: d in ProcessArguments(args, slots, i, st).st.opts <==> d in st.opts || exists j :: i <= j < |args| && args[j].dest == d
    decreases |args| - i
  {
    hide ArgumentValue;
    if i < |args| {
      var v := ArgumentValue(args[i], slots[i]).value;
      PhaseFills(args, slots, i + 1, st.(opts := st.opts[args[i].dest := v], order := st.order + [args[i].obj]));
    }
  }

  ghost predicate IsArgument(args: seq<Arg>, d: string) {
    exists j :: 0 <= j < |args| && args[j].dest == d
  }

  // What a line and the shares of its words say about the values.
  ghost predicate Tells(P: Config, items: seq<Item>, pieces: seq<seq<string>>, opts: map<string, Value>)
    requires |pieces| == |P.args|
  {
    && (forall d :: d in opts <==> AllGiven(P, items, d) != [] || IsArgument(P.args, d))
    && (forall j :: 0 <= j < |P.args| && Last(P.args, j) ==>
          P.args[j].dest in opts && opts[P.args[j].dest] == Filled(P.args[j].nargs, pieces[j]))
    && (forall u :: u in items && u.Use? && Named(P, u.name) && !IsArgument(P.args, OptionOf(P, u.name).dest) ==>
          var o := OptionOf(P, u.name);
          o.dest in opts && AllGiven(P, items, o.dest) != [] && opts[o.dest] == Held(KindOf(o), AllGiven(P, items, o.dest)))
  }

  // The arguments show their shares, and other destinations are left alone.
  ghost predicate ArgumentsShow(args: seq<Arg>, pieces: seq<seq<string>>, before: map<string, Value>, opts: map<string, Value>)
    requires |pieces| == |args|
  {
    && (forall d :: d in opts <==> d in before || IsArgument(args, d))
    && (forall j :: 0 <= j < |args| && Last(args, j) ==>
          args[j].dest in opts && opts[args[j].dest] == Filled(args[j].nargs, pieces[j]))
    && (forall d :: d in before && !IsArgument(args, d) ==> d in opts && opts[d] == before[d])
  }

  lemma SlotsShow(args: seq<Arg>, slots: seq<Value>, pieces: seq<seq<string>>, st: State)
    requires |slots| == |args| == |pieces|
    requires forall j :: 0 <= j < |args| ==> ArgumentValue(args[j], slots[j]) == Ok(Filled(args[j].nargs, pieces[j]))
    ensures var r := ProcessArguments(args, slots, 0, st);
            && r.raised.None? && ArgumentsShow(args, pieces, st.opts, r.st.opts) && r.st.order == st.order + Objs(args)
            && r.st.largs == st.largs && r.st.rargs == st.rargs
  {
    hide ProcessArguments, ArgumentValue, Filled;
    PhaseFills(args, slots, 0, st);
    ProcessArgumentsRecords(args, slots, 0, st);
    assert args[0..] == args;
    var opts := ProcessArguments(args, slots, 0, st).st.opts;
    forall j | 0 <= j < |args| && Last(args, j)
      ensures args[j].dest in opts && opts[args[j].dest] == Filled(args[j].nargs, pieces[j])
    {
      ProcessArgumentsStores(args, slots, 0, st, j);
    }
  }

  lemma PhaseShows(P: Config, pieces: seq<seq<string>>, over: seq<string>, st: State)
    requires Shared(NargsSpec(P.args), pieces, over) && st.largs + st.rargs == Concat(pieces) + over
    ensures var r := ArgumentPhase(P, st);
            && r.raised.None? && r.st.largs == over && ArgumentsShow(P.args, pieces, st.opts, r.st.opts)
            && r.st.order == st.order + Objs(P.args)
  {
    hide Split, ProcessArguments, ArgumentValue, Filled, RunOut, FirstWild, ArgumentsShow, Concat;
    var spec := NargsSpec(P.args);
    NonZeroSame(spec);
    RestIsOver(spec, pieces, over);
    SplitConserves(Concat(pieces) + over, spec);
    var slots := Split(Concat(pieces) + over, spec).value.slots;
    forall j | 0 <= j < |P.args| ensures ArgumentValue(P.args[j], slots[j]) == Ok(Filled(P.args[j].nargs, pieces[j])) {
      SharesReach(P.args, pieces, over, j);
    }
    SlotsShow(P.args, slots, pieces, st);
  }

  lemma ShowsTell(P: Config, items: seq<Item>, pieces: seq<seq<string>>, before: map<string, Value>, opts: map<string, Value>)
    requires |pieces| == |P.args| && Shows(P, items, before) && ArgumentsShow(P.args, pieces, before, opts)
    ensures Tells(P, items, pieces, opts)
  {
    hide Named, OptionOf, Held, Filled, IsArgument, AllGiven;
  }

  // Main result, the round trip: writing options, their values and the words for the arguments as a
  // command line, in any order, and parsing it gives back what was written, nothing else, and in order.
  lemma ParsesBack(P: Config, items: seq<Item>, end: End, pieces: seq<seq<string>>, over: seq<string>)
    requires Valid(P) && WellFormed(P, items, end) && Agreeing(P, items)
    requires Shared(NargsSpec(P.args), pieces, over) && WordsOf(items) + EndWords(end) == Concat(pieces) + over
    ensures var parsed := ParseArgs(P, Line(items, end));
            && ParseState(P, Line(items, end)).raised.None? && parsed.Ok? && parsed.value.leftovers == over
            && Tells(P, items, pieces, parsed.value.opts)
            && parsed.value.order == Used(P, items) + Objs(P.args)
  {
    assert |pieces| == |P.args|;
    hide OptionLoop, ArgumentPhase, Named, OptionOf, WellFormed, Shows, Agreeing, Shared, Tells, ArgumentsShow, Concat;
    assert [] + items == items && [] + WordsOf(items) == WordsOf(items) && [] + Used(P, items) == Used(P, items);
    NothingShown(P);
    LoopReads(P, [], items, end, Start(Line(items, end)));
    var loop := OptionLoop(P, Start(Line(items, end))).st;
    PhaseShows(P, pieces, over, loop);
    ShowsTell(P, items, pieces, loop.opts, ArgumentPhase(P, loop).st.opts);
  }

  lemma NothingShown(P: Config)
    ensures Shows(P, [], map[])
  {
  }
}
