/** What a whole `parse_args` call promises about positionals. */
module ParseLaws {
  import opened CliValues
  import opened Subsequences
  import opened Unpack
  import opened Parser
  import opened ParserLaws
  import opened UnknownLaws

  // No later argument stores under the same destination.
  predicate Last(args: seq<Arg>, j: nat)
    requires j < |args|
  {
    forall m :: j < m < |args| ==> args[m].dest != args[j].dest
  }

  function Objs(args: seq<Arg>): (r: seq<nat>)
    ensures |r| == |args| && forall i :: 0 <= i < |args| ==> r[i] == args[i].obj
  {
    seq(|args|, i requires 0 <= i < |args| => args[i].obj)
  }

  // Every declared argument accepts its slot and is recorded once, in declaration order; destinations
  // of no argument are not touched.
  lemma {:induction false} ProcessArgumentsRecords(args: seq<Arg>, slots: seq<Value>, i: nat, st: State)
    requires i <= |args|
    requires ProcessArguments(args, slots, i, st).raised.None?
    ensures var r := ProcessArguments(args, slots, i, st).st;
            && (i < |args| ==> |args| <= |slots|)
            && (forall j :: i <= j < |args| && j < |slots| ==> ArgumentValue(args[j], slots[j]).Ok?)
            && (forall d :: d in st.opts && (forall j :: i <= j < |args| ==> args[j].dest != d) ==> d in r.opts && r.opts[d] == st.opts[d])
            && r.order == st.order + Objs(args[i..])
            && r.largs == st.largs && r.rargs == st.rargs
    decreases |args| - i
  {
    if i == |args| {
      assert st.order + Objs([]) == st.order;
    } else {
      var v := ArgumentValue(args[i], slots[i]).value;
      var next := st.(opts := st.opts[args[i].dest := v], order := st.order + [args[i].obj]);
      ProcessArgumentsRecords(args, slots, i + 1, next);
      assert Objs(args[i..]) == [args[i].obj] + Objs(args[i + 1..]);
      ConcatAssoc(st.order, [args[i].obj], Objs(args[i + 1..]));
    }
  }

  // Each destination holds the value of the last argument declared for it, from that argument's own slot.
  lemma {:induction false} ProcessArgumentsStores(args: seq<Arg>, slots: seq<Value>, i: nat, st: State, j: nat)
    requires i <= j < |args| && Last(args, j) && ProcessArguments(args, slots, i, st).raised.None?
    ensures var r := ProcessArguments(args, slots, i, st).st;
            j < |slots| && args[j].dest in r.opts && ArgumentValue(args[j], slots[j]) == Ok(r.opts[args[j].dest])
    decreases |args| - i
  {
    hide ArgumentValue;
    var v := ArgumentValue(args[i], slots[i]).value;
    var next := st.(opts := st.opts[args[i].dest := v], order := st.order + [args[i].obj]);
    if i == j {
      ProcessArgumentsRecords(args, slots, i + 1, next);
    } else {
      ProcessArgumentsStores(args, slots, i + 1, next, j);
    }
  }

  lemma {:induction false} AllUnset(items: seq<Value>)
    requires CountUnset(items) == |items|
    ensures CellTokens(items) == []
  {
    if items != [] {
      AllUnset(items[1..]);
    }
  }

  lemma ArgumentValueTokens(a: Arg, slot: Value)
    requires ArgumentValue(a, slot).Ok? && (a.nargs > 1 ==> slot.Tuple?)
    ensures SlotTokens(ArgumentValue(a, slot).value) == SlotTokens(slot)
  {
    if a.nargs > 1 && CountUnset(slot.items) == |slot.items| {
      AllUnset(slot.items);
    }
  }

  // The positional strings found under the arguments' destinations, in declaration order.
  function ArgTokens(args: seq<Arg>, opts: map<string, Value>, i: nat): seq<string>
    requires i <= |args|
    decreases |args| - i
  {
    if i == |args| then []
    else (if Last(args, i) && args[i].dest in opts then SlotTokens(opts[args[i].dest]) else []) + ArgTokens(args, opts, i + 1)
  }

  // An argument whose destination a later one takes over received nothing.
  ghost predicate NothingLost(args: seq<Arg>, slots: seq<Value>, i: nat)
    requires i <= |args| == |slots|
  {
    forall j :: i <= j < |args| && !Last(args, j) ==> SlotTokens(slots[j]) == []
  }

  lemma {:induction false} StoredTokens(args: seq<Arg>, slots: seq<Value>, opts: map<string, Value>, i: nat)
    requires i <= |args| == |slots|
    requires forall j :: i <= j < |args| ==> (args[j].nargs > 1 ==> slots[j].Tuple?)
    requires forall j :: i <= j < |args| && Last(args, j) ==>
               args[j].dest in opts && ArgumentValue(args[j], slots[j]) == Ok(opts[args[j].dest])
    ensures var found, given := ArgTokens(args, opts, i), Positionals(slots[i..]);
            && |found| <= |given| && IsSubseq(found, given)
            && (found == given <==> NothingLost(args, slots, i))
    decreases |args| - i
  {
    hide Last, IsSubseq;
    if i == |args| {
      SubseqRefl<string>([]);
    } else {
      var piece, rest, left := SlotTokens(slots[i]), Positionals(slots[i + 1..]), ArgTokens(args, opts, i + 1);
      StoredTokens(args, slots, opts, i + 1);
      assert slots[i..][1..] == slots[i + 1..];
      if Last(args, i) {
        ArgumentValueTokens(args[i], slots[i]);
        SubseqRefl(piece);
        SubseqAppend(piece, piece, left, rest);
        assert (piece + left)[|piece|..] == left && (piece + rest)[|piece|..] == rest;
      } else {
        SubseqAppend([], piece, left, rest);
        assert [] + left == left;
        if piece == [] {
          assert piece + rest == rest;
        }
      }
      assert NothingLost(args, slots, i) <==> NothingLost(args, slots, i + 1) && (Last(args, i) || piece == []);
    }
  }

  lemma {:induction false} NonZeroSame(spec: seq<int>)
    requires forall i :: 0 <= i < |spec| ==> spec[i] != 0
    ensures NonZero(spec) == spec
  {
    if spec != [] {
      NonZeroSame(spec[1..]);
    }
  }

  lemma SlotOfMany(cells: seq<Value>)
    requires |cells| > 1
    ensures Slot(cells).Tuple?
  {
  }

  lemma ManySlotsAreTuples(tokens: seq<string>, spec: seq<int>, i: nat)
    requires forall j :: 0 <= j < |spec| ==> spec[j] != 0
    requires Split(tokens, spec).Ok? && i < |spec| && spec[i] > 1
    ensures var slots := Split(tokens, spec).value.slots; |slots| == |spec| && slots[i].Tuple?
  {
    hide Split, Slot, Cells, Demand, AfterFront, BeforeBack;
    SlotIsSlice(tokens, spec, i);
    var w := FirstWild(spec);
    if i < w {
      SlotOfMany(Cells(tokens, Demand(spec[..i]), spec[i]));
    } else if i > w {
      var rest := AfterFront(tokens, Demand(spec[..w]));
      SlotOfMany(Cells(rest, |rest| - Demand(spec[i..]), spec[i]));
    }
  }

  lemma {:induction false} NonZeroShorter(spec: seq<int>, i: nat)
    requires i < |spec| && spec[i] == 0
    ensures |NonZero(spec)| < |spec|
  {
    if i > 0 {
      NonZeroShorter(spec[1..], i - 1);
    }
    NonZeroNoLonger(spec[1..]);
  }

  lemma {:induction false} NonZeroNoLonger(spec: seq<int>)
    ensures |NonZero(spec)| <= |spec|
  {
    if spec != [] {
      NonZeroNoLonger(spec[1..]);
    }
  }

  // A phase that succeeds has met no argument with nargs 0: one slot would have been missing.
  lemma SucceedsNonZero(P: Config, st: State)
    requires ArgumentPhase(P, st).raised.None?
    ensures forall i :: 0 <= i < |P.args| ==> P.args[i].nargs != 0
  {
    hide ArgumentValue, ProcessArguments, Split;
    var tokens, spec := st.largs + st.rargs, NargsSpec(P.args);
    if i :| 0 <= i < |P.args| && P.args[i].nargs == 0 {
      NonZeroShorter(spec, i);
      SplitConserves(tokens, NonZero(spec));
      ProcessArgumentsRecords(P.args, Split(tokens, NonZero(spec)).value.slots, 0, st);
    }
  }

  // The positional phase hands out largs followed by rargs, all of it, once, in order; what the
  // destinations show of it is all of it if and only if no argument that received something has its
  // destination taken over by a later one.
  lemma ArgumentPhaseConserves(P: Config, st: State)
    requires ArgumentPhase(P, st).raised.None?
    ensures var r, spec := ArgumentPhase(P, st).st, NargsSpec(P.args);
            var split := Split(st.largs + st.rargs, NonZero(spec));
            && split.Ok? && |split.value.slots| == |P.args|
            && Positionals(split.value.slots) + r.largs == st.largs + st.rargs
            && IsSubseq(ArgTokens(P.args, r.opts, 0), Positionals(split.value.slots))
            && (ArgTokens(P.args, r.opts, 0) + r.largs == st.largs + st.rargs <==> NothingLost(P.args, split.value.slots, 0))
            && r.rargs == [] && r.order == st.order + Objs(P.args)
  {
    hide Split, ArgumentValue, NonZero, ProcessArguments, Last, IsSubseq;
    var tokens, spec := st.largs + st.rargs, NargsSpec(P.args);
    SucceedsNonZero(P, st);
    NonZeroSame(spec);
    SplitConserves(tokens, spec);
    var u := Split(tokens, spec).value;
    ProcessArgumentsRecords(P.args, u.slots, 0, st);
    forall j | 0 <= j < |P.args| && Last(P.args, j)
      ensures var opts := ProcessArguments(P.args, u.slots, 0, st).st.opts;
              P.args[j].dest in opts && ArgumentValue(P.args[j], u.slots[j]) == Ok(opts[P.args[j].dest])
    {
      ProcessArgumentsStores(P.args, u.slots, 0, st, j);
    }
    assert P.args[0..] == P.args && u.slots[0..] == u.slots;
    forall j | 0 <= j < |P.args| && P.args[j].nargs > 1 ensures u.slots[j].Tuple? {
      ManySlotsAreTuples(tokens, spec, j);
    }
    var r := ProcessArguments(P.args, u.slots, 0, st).st;
    StoredTokens(P.args, u.slots, r.opts, 0);
    CancelRight(ArgTokens(P.args, r.opts, 0), Positionals(u.slots), u.rest);
  }

  lemma CancelRight(a: seq<string>, b: seq<string>, c: seq<string>)
    ensures a + c == b + c <==> a == b
  {
    if a + c == b + c {
      assert (a + c)[..|a|] == a && (b + c)[..|b|] == b;
    }
  }

  // The exact condition under which the option loop conserves positionals, with unknown options
  // refused or passed on.
  ghost predicate Conserving(P: Config) {
    if P.ignoreUnknown then Valid(P) && Careful(P) else AllSafe(P)
  }

  lemma ConservingLoop(P: Config, args: seq<string>)
    requires Conserving(P) && OptionLoop(P, Start(args)).raised.None?
    ensures var loop := OptionLoop(P, Start(args)).st; IsSubseq(loop.largs + loop.rargs, args)
  {
    hide OptionLoop, IsSubseq, AllSafe, Valid, Careful;
    if P.ignoreUnknown {
      CarefulLoop(P, Start(args));
      assert [] + args == args;
    } else {
      StartsInvariant(P, args);
      var _ := LoopConserves(P, args, Start(args), 0);
    }
  }

  // Main result: after a successful parse, the positional values in declaration order followed by
  // the leftovers are a subsequence of the command line, and they are all that the option loop passed
  // on unless an argument that received something shares its destination with a later one.
  lemma ParseConserves(P: Config, args: seq<string>)
    requires Conserving(P)
    requires ParseState(P, args).raised.None?
    ensures var loop, r := OptionLoop(P, Start(args)).st, ParseState(P, args).st;
            var slots := Split(loop.largs + loop.rargs, NonZero(NargsSpec(P.args))).value.slots;
            && |slots| == |P.args|
            && (ArgTokens(P.args, r.opts, 0) + r.largs == loop.largs + loop.rargs <==> NothingLost(P.args, slots, 0))
            && IsSubseq(ArgTokens(P.args, r.opts, 0) + r.largs, args)
            && r.order == loop.order + Objs(P.args)
            && ParseArgs(P, args) == Ok(Parsed(r.opts, r.largs, r.order))
  {
    hide OptionLoop, ArgumentPhase, IsSubseq, ArgTokens, NothingLost, Split, Conserving;
    ConservingLoop(P, args);
    var loop, r := OptionLoop(P, Start(args)).st, ParseState(P, args).st;
    ArgumentPhaseConserves(P, loop);
    var found, given := ArgTokens(P.args, r.opts, 0), Positionals(Split(loop.largs + loop.rargs, NonZero(NargsSpec(P.args))).value.slots);
    SubseqRefl(r.largs);
    SubseqAppend(found, given, r.largs, r.largs);
    SubseqTrans(found + r.largs, given + r.largs, args);
  }
}
