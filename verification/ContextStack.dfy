/** The thread's stack of contexts, context depths and close callbacks: `Context.__enter__`,
    `__exit__`, `scope`, `close` and `globals.push_context`/`pop_context`. */
module ContextStack {
  import opened CliValues
  import opened Subsequences

  // A callback of `call_on_close` is quiet or raises; a resource of `with_resource` may also
  // suppress the exception it is told about.
  datatype Effect = Quiet | Raises | Suppresses

  datatype Entry = Entry(id: nat, effect: Effect)

  datatype Ctx = Ctx(depth: int, pending: seq<Entry>)

  datatype Event = Registered(c: nat, entry: Entry) | Ran(c: nat, entry: Entry)

  // |skipped| counts the exits that left the stack alone because closing raised.
  datatype State = State(stack: seq<nat>, ctxs: seq<Ctx>, events: seq<Event>, skipped: nat)

  datatype Outcome = Outcome(st: State, raised: bool)

  // What user code does with contexts: `with ctx`, `with ctx.scope(...)`, registering, closing,
  // raising, and catching.
  datatype Prog =
    | Skip
    | Seq(first: Prog, second: Prog)
    | With(c: nat, body: Prog)
    | Scope(c: nat, cleanup: bool, body: Prog)
    | Register(c: nat, entry: Entry)
    | Close(c: nat)
    | Raise
    | Try(body: Prog)

  predicate InRange(p: Prog, n: nat) {
    match p
    case Skip => true
    case Seq(a, b) => InRange(a, n) && InRange(b, n)
    case With(c, b) => c < n && InRange(b, n)
    case Scope(c, _, b) => c < n && InRange(b, n)
    case Register(c, _) => c < n
    case Close(c) => c < n
    case Raise => true
    case Try(b) => InRange(b, n)
  }

  // `ExitStack.__exit__`: every entry runs, last registered first; |raises| is the exception pending.
  datatype Unwound = Unwound(raises: bool, suppressed: bool)

  function Unwind(entries: seq<Entry>, u: Unwound): Unwound {
    if entries == [] then u
    else
      var front := entries[..|entries| - 1];
      match entries[|entries| - 1].effect
      case Quiet => Unwind(front, u)
      case Raises => Unwind(front, u.(raises := true))
      case Suppresses => Unwind(front, Unwound(false, true))
  }

  // Main result: closing raises exactly when the earliest registered entry that is not quiet raises.
  lemma {:induction false} UnwindExactly(entries: seq<Entry>, u: Unwound)
    ensures var i := FirstLoud(entries);
            Unwind(entries, u).raises <==> if i < |entries| then entries[i].effect == Raises else u.raises
    decreases |entries|
  {
    if entries != [] {
      var n := |entries| - 1;
      assert entries == entries[..n] + [entries[n]];
      FirstLoudSnoc(entries[..n], entries[n]);
      UnwindExactly(entries[..n], u);
      UnwindExactly(entries[..n], u.(raises := true));
      UnwindExactly(entries[..n], Unwound(false, true));
    }
  }

  function FirstLoud(entries: seq<Entry>): (i: nat)
    ensures i <= |entries|
    ensures i < |entries| ==> entries[i].effect != Quiet
    ensures forall j :: 0 <= j < i ==> entries[j].effect == Quiet
  {
    if entries == [] || entries[0].effect != Quiet then 0 else 1 + FirstLoud(entries[1..])
  }

  lemma FirstLoudSnoc(front: seq<Entry>, e: Entry)
    ensures FirstLoud(front + [e]) == if FirstLoud(front) < |front| then FirstLoud(front) else if e.effect != Quiet then |front| else |front| + 1
  {
    var i, j, s := FirstLoud(front), FirstLoud(front + [e]), front + [e];
    assert i < |front| ==> s[i] == front[i];
    assert forall k :: 0 <= k < |front| ==> s[k] == front[k];
    assert s[|front|] == e;
  }

  function RanAll(c: nat, entries: seq<Entry>): seq<Event> {
    if entries == [] then [] else [Ran(c, entries[|entries| - 1])] + RanAll(c, entries[..|entries| - 1])
  }

  function Deepen(st: State, c: nat, change: int): (r: State)
    requires c < |st.ctxs|
    ensures |r.ctxs| == |st.ctxs|
  {
    st.(ctxs := st.ctxs[c := st.ctxs[c].(depth := st.ctxs[c].depth + change)])
  }

  function Enter(st: State, c: nat): (r: State)
    requires c < |st.ctxs|
    ensures |r.ctxs| == |st.ctxs|
  {
    var d := Deepen(st, c, 1);
    d.(stack := d.stack + [c])
  }

  // `_close_with_exception_info`, and what unwinding amounts to.
  function CloseCtx(st: State, c: nat): (r: State)
    requires c < |st.ctxs|
    ensures |r.ctxs| == |st.ctxs|
  {
    st.(ctxs := st.ctxs[c := st.ctxs[c].(pending := [])], events := st.events + RanAll(c, st.ctxs[c].pending))
  }

  function Closing(st: State, c: nat): Unwound
    requires c < |st.ctxs|
  {
    Unwind(st.ctxs[c].pending, Unwound(false, false))
  }

  // `pop_context`, on the way out of a block that is raising or not.
  function Pop(st: State, raised: bool): (r: Outcome)
    ensures |r.st.ctxs| == |st.ctxs|
  {
    if st.stack == [] then Outcome(st, true) else Outcome(st.(stack := st.stack[..|st.stack| - 1]), raised)
  }

  // `__exit__`, given whether the body raised.
  function Exit(st: State, c: nat, raised: bool): (r: Outcome)
    requires c < |st.ctxs|
    ensures |r.st.ctxs| == |st.ctxs|
  {
    var d := Deepen(st, c, -1);
    if d.ctxs[c].depth != 0 then Pop(d, raised)
    else
      var u := Closing(d, c);
      var closed := CloseCtx(d, c);
      if u.raises then Outcome(closed.(skipped := closed.skipped + 1), true)
      else Pop(closed, raised && !u.suppressed)
  }

  function Run(p: Prog, st: State): (r: Outcome)
    requires InRange(p, |st.ctxs|)
    ensures |r.st.ctxs| == |st.ctxs|
    decreases p
  {
    match p
    case Skip => Outcome(st, false)
    case Seq(a, b) =>
      var r := Run(a, st);
      if r.raised then r else Run(b, r.st)
    case With(c, body) =>
      var r := Run(body, Enter(st, c));
      Exit(r.st, c, r.raised)
    case Scope(c, cleanup, body) =>
      var r := Run(body, Enter(if cleanup then st else Deepen(st, c, 1), c));
      var x := Exit(r.st, c, r.raised);
      if cleanup then x else Outcome(Deepen(x.st, c, -1), x.raised)
    case Register(c, e) =>
      Outcome(st.(ctxs := st.ctxs[c := st.ctxs[c].(pending := st.ctxs[c].pending + [e])],
                  events := st.events + [Registered(c, e)]), false)
    case Close(c) => Outcome(CloseCtx(st, c), Closing(st, c).raises)
    case Raise => Outcome(st, true)
    case Try(body) => Outcome(Run(body, st).st, false)
  }

  // ---------------------------------------------------------------- depths and the stack

  predicate SameDepths(st: State, r: State) {
    |r.ctxs| == |st.ctxs| && forall c :: 0 <= c < |st.ctxs| ==> r.ctxs[c].depth == st.ctxs[c].depth
  }

  lemma ExitDepth(st: State, entered: State, r: State, c: nat, raised: bool)
    requires c < |st.ctxs| == |entered.ctxs| && SameDepths(entered, r) && SameDepths(Deepen(st, c, 1), entered)
    ensures SameDepths(st, Exit(r, c, raised).st)
  {
  }

  // Main result: whatever is raised, caught or suppressed, every depth comes back.
  lemma {:induction false} DepthsRestored(p: Prog, st: State)
    requires InRange(p, |st.ctxs|)
    ensures SameDepths(st, Run(p, st).st)
    decreases p
  {
    hide Exit, CloseCtx, Closing;
    match p
    case Seq(a, b) =>
      DepthsRestored(a, st);
      if !Run(a, st).raised { DepthsRestored(b, Run(a, st).st); }
    case With(c, body) =>
      var r := Run(body, Enter(st, c));
      DepthsRestored(body, Enter(st, c));
      ExitDepth(st, Enter(st, c), r.st, c, r.raised);
    case Scope(c, cleanup, body) =>
      var start := if cleanup then st else Deepen(st, c, 1);
      var r := Run(body, Enter(start, c));
      DepthsRestored(body, Enter(start, c));
      ExitDepth(start, Enter(start, c), r.st, c, r.raised);
    case Close(c) => CloseDepths(st, c);
    case Try(body) => DepthsRestored(body, st);
    case _ =>
  }

  lemma CloseDepths(st: State, c: nat)
    requires c < |st.ctxs|
    ensures SameDepths(st, CloseCtx(st, c))
  {
  }

  // |r| was reached from |st|: nothing that was on the stack is popped, and each skipped pop leaves one
  // context behind.
  predicate Grown(st: State, r: State) {
    st.stack <= r.stack && st.skipped <= r.skipped && |r.stack| == |st.stack| + r.skipped - st.skipped
  }

  lemma ExitGrows(st: State, entered: State, r: State, c: nat, raised: bool)
    requires c < |r.ctxs| && entered.stack == st.stack + [c] && entered.skipped == st.skipped && Grown(entered, r)
    ensures Grown(st, Exit(r, c, raised).st)
  {
    hide Unwind, RanAll;
    assert st.stack <= entered.stack;
  }

  lemma {:induction false} StackGrowth(p: Prog, st: State)
    requires InRange(p, |st.ctxs|)
    ensures Grown(st, Run(p, st).st)
    decreases p
  {
    hide Exit;
    match p
    case Seq(a, b) =>
      StackGrowth(a, st);
      if !Run(a, st).raised { StackGrowth(b, Run(a, st).st); }
    case With(c, body) =>
      var r := Run(body, Enter(st, c));
      StackGrowth(body, Enter(st, c));
      ExitGrows(st, Enter(st, c), r.st, c, r.raised);
    case Scope(c, cleanup, body) =>
      var entered := Enter(if cleanup then st else Deepen(st, c, 1), c);
      var r := Run(body, entered);
      StackGrowth(body, entered);
      ExitGrows(st, entered, r.st, c, r.raised);
    case Try(body) => StackGrowth(body, st);
    case _ =>
  }

  // Leaving the block now, the context's earliest registered entry that is not quiet raises.
  predicate BreaksOff(st: State, c: nat)
    requires c < |st.ctxs|
  {
    var i := FirstLoud(st.ctxs[c].pending);
    st.ctxs[c].depth == 1 && i < |st.ctxs[c].pending| && st.ctxs[c].pending[i].effect == Raises
  }

  // Main result: an exit pops its context exactly when it does not break off.
  lemma ExitPopsExactly(st: State, c: nat, raised: bool)
    requires c < |st.ctxs|
    ensures Exit(st, c, raised).st.skipped == st.skipped + if BreaksOff(st, c) then 1 else 0
    ensures st.stack != [] ==> (Exit(st, c, raised).st.stack == st.stack[..|st.stack| - 1] <==> !BreaksOff(st, c))
  {
    hide Unwind, RanAll;
    UnwindExactly(st.ctxs[c].pending, Unwound(false, false));
  }

  predicate AllQuiet(entries: seq<Entry>) {
    forall i :: 0 <= i < |entries| ==> entries[i].effect == Quiet
  }

  lemma {:induction false} SuppressedExactly(entries: seq<Entry>, u: Unwound)
    ensures Unwind(entries, u).suppressed <==> u.suppressed || exists i :: 0 <= i < |entries| && entries[i].effect == Suppresses
    decreases |entries|
  {
    if entries != [] {
      var n := |entries| - 1;
      SuppressedExactly(entries[..n], u);
      SuppressedExactly(entries[..n], u.(raises := true));
      SuppressedExactly(entries[..n], Unwound(false, true));
    }
  }

  // What comes out of an exit: what closing raises, or the block's own exception if nothing that is
  // closed suppresses it.
  lemma ExitRaisesExactly(st: State, c: nat, raised: bool)
    requires c < |st.ctxs| && st.stack != []
    ensures Exit(st, c, raised).raised
            <==> BreaksOff(st, c) || (raised && (st.ctxs[c].depth == 1 ==> AllQuiet(st.ctxs[c].pending)))
  {
    hide Unwind, RanAll;
    var entries := st.ctxs[c].pending;
    UnwindExactly(entries, Unwound(false, false));
    SuppressedExactly(entries, Unwound(false, false));
    var i := FirstLoud(entries);
    assert i == |entries| <==> AllQuiet(entries);
    if i < |entries| && entries[i].effect == Raises && st.ctxs[c].depth == 1 {
      assert BreaksOff(st, c);
    }
  }

  // An exception leaves the program: one of its own or one that closing raises, unless it is caught or
  // the outermost block it passes has something registered that is not quiet.
  predicate Escapes(p: Prog, st: State)
    requires InRange(p, |st.ctxs|)
  {
    match p
    case Skip => false
    case Seq(a, b) => Escapes(a, st) || Escapes(b, Run(a, st).st)
    case With(c, body) => BlockRaises(c, Run(body, Enter(st, c)).st, Escapes(body, Enter(st, c)), Enter(st, c).ctxs[c].depth == 1)
    case Scope(c, cleanup, body) =>
      var entered := Enter(if cleanup then st else Deepen(st, c, 1), c);
      BlockRaises(c, Run(body, entered).st, Escapes(body, entered), entered.ctxs[c].depth == 1)
    case Register(_, _) => false
    case Close(c) => ClosingRaises(st.ctxs[c].pending)
    case Raise => true
    case Try(_) => false
  }

  predicate ClosingRaises(entries: seq<Entry>) {
    var i := FirstLoud(entries);
    i < |entries| && entries[i].effect == Raises
  }

  predicate BlockRaises(c: nat, end: State, raised: bool, outermost: bool)
    requires c < |end.ctxs|
  {
    if outermost then ClosingRaises(end.ctxs[c].pending) || (raised && AllQuiet(end.ctxs[c].pending)) else raised
  }

  lemma ExitRaises(st: State, c: nat, raised: bool)
    requires c < |st.ctxs| && st.stack != []
    ensures Exit(st, c, raised).raised <==> BlockRaises(c, st, raised, st.ctxs[c].depth == 1)
  {
    hide Unwind, RanAll, Exit;
    ExitRaisesExactly(st, c, raised);
  }

  // The block is outermost at its end if it was so at its start, and something is on the stack.
  lemma BlockEnds(st: State, entered: State, c: nat, body: Prog)
    requires c < |st.ctxs| == |entered.ctxs| && InRange(body, |st.ctxs|)
    requires entered.stack != []
    ensures Run(body, entered).st.stack != [] && Run(body, entered).st.ctxs[c].depth == entered.ctxs[c].depth
  {
    hide Run;
    DepthsRestored(body, entered);
    StackGrowth(body, entered);
  }

  // Main result: over any run, an exception comes out exactly by these rules.
  lemma {:induction false} EscapesExactly(p: Prog, st: State)
    requires InRange(p, |st.ctxs|)
    ensures Run(p, st).raised <==> Escapes(p, st)
    decreases p
  {
    hide Exit, BlockRaises, AllQuiet, Unwind;
    match p
    case Seq(a, b) =>
      EscapesExactly(a, st);
      if !Run(a, st).raised { EscapesExactly(b, Run(a, st).st); }
    case With(c, body) =>
      var r := Run(body, Enter(st, c));
      EscapesExactly(body, Enter(st, c));
      BlockEnds(st, Enter(st, c), c, body);
      ExitRaises(r.st, c, r.raised);
    case Scope(c, cleanup, body) =>
      var entered := Enter(if cleanup then st else Deepen(st, c, 1), c);
      var r := Run(body, entered);
      EscapesExactly(body, entered);
      BlockEnds(st, entered, c, body);
      ExitRaises(r.st, c, r.raised);
    case Close(c) => UnwindExactly(st.ctxs[c].pending, Unwound(false, false));
    case Try(body) => EscapesExactly(body, st);
    case _ =>
  }

  // No exit that the run comes to breaks off.
  predicate Unbroken(p: Prog, st: State)
    requires InRange(p, |st.ctxs|)
  {
    match p
    case Seq(a, b) => Unbroken(a, st) && (Run(a, st).raised || Unbroken(b, Run(a, st).st))
    case With(c, body) => Unbroken(body, Enter(st, c)) && !BreaksOff(Run(body, Enter(st, c)).st, c)
    case Scope(c, cleanup, body) =>
      var entered := Enter(if cleanup then st else Deepen(st, c, 1), c);
      Unbroken(body, entered) && !BreaksOff(Run(body, entered).st, c)
    case Try(body) => Unbroken(body, st)
    case _ => true
  }

  lemma {:induction false} UnbrokenSkipsNothing(p: Prog, st: State)
    requires InRange(p, |st.ctxs|)
    ensures Run(p, st).st.skipped >= st.skipped
    ensures Run(p, st).st.skipped == st.skipped <==> Unbroken(p, st)
    decreases p
  {
    hide Exit, BreaksOff;
    match p
    case Seq(a, b) =>
      UnbrokenSkipsNothing(a, st);
      if !Run(a, st).raised { UnbrokenSkipsNothing(b, Run(a, st).st); }
    case With(c, body) =>
      var r := Run(body, Enter(st, c));
      UnbrokenSkipsNothing(body, Enter(st, c));
      ExitPopsExactly(r.st, c, r.raised);
    case Scope(c, cleanup, body) =>
      var entered := Enter(if cleanup then st else Deepen(st, c, 1), c);
      var r := Run(body, entered);
      UnbrokenSkipsNothing(body, entered);
      ExitPopsExactly(r.st, c, r.raised);
    case Try(body) => UnbrokenSkipsNothing(body, st);
    case _ =>
  }

  // Main result: over any run the stack comes back if and only if at no exit it comes to the earliest
  // registered entry of the context that is not quiet raises.
  lemma StackRestoredExactly(p: Prog, st: State)
    requires InRange(p, |st.ctxs|)
    ensures Run(p, st).st.stack == st.stack <==> Unbroken(p, st)
  {
    hide Run, Unbroken;
    StackGrowth(p, st);
    UnbrokenSkipsNothing(p, st);
    var r := Run(p, st).st;
    assert |r.stack| == |st.stack| ==> r.stack == st.stack;
  }

  predicate Calm(entries: seq<Entry>) {
    forall e :: e in entries ==> e.effect != Raises
  }

  predicate CalmProg(p: Prog) {
    match p
    case Seq(a, b) => CalmProg(a) && CalmProg(b)
    case With(_, b) => CalmProg(b)
    case Scope(_, _, b) => CalmProg(b)
    case Register(_, e) => e.effect != Raises
    case Try(b) => CalmProg(b)
    case _ => true
  }

  predicate CalmState(st: State) {
    forall c :: 0 <= c < |st.ctxs| ==> Calm(st.ctxs[c].pending)
  }

  lemma CalmExit(st: State, c: nat, raised: bool)
    requires CalmState(st) && c < |st.ctxs|
    ensures CalmState(Exit(st, c, raised).st) && !BreaksOff(st, c)
  {
    hide Unwind, RanAll;
    var entries := st.ctxs[c].pending;
    assert FirstLoud(entries) < |entries| ==> entries[FirstLoud(entries)] in entries;
  }

  // Main result: where nothing registered raises, the stack comes back, whatever the code itself raises.
  lemma CalmRunRestores(p: Prog, st: State)
    requires InRange(p, |st.ctxs|) && CalmProg(p) && CalmState(st)
    ensures CalmState(Run(p, st).st) && Run(p, st).st.stack == st.stack
  {
    hide Run, Unbroken;
    CalmRun(p, st);
    StackRestoredExactly(p, st);
  }

  lemma {:induction false} CalmRun(p: Prog, st: State)
    requires InRange(p, |st.ctxs|) && CalmProg(p) && CalmState(st)
    ensures CalmState(Run(p, st).st) && Unbroken(p, st)
    decreases p
  {
    hide Exit, BreaksOff;
    match p
    case Seq(a, b) =>
      CalmRun(a, st);
      if !Run(a, st).raised { CalmRun(b, Run(a, st).st); }
    case With(c, body) =>
      var r := Run(body, Enter(st, c));
      CalmRun(body, Enter(st, c));
      CalmExit(r.st, c, r.raised);
    case Scope(c, cleanup, body) =>
      var entered := Enter(if cleanup then st else Deepen(st, c, 1), c);
      var r := Run(body, entered);
      CalmRun(body, entered);
      CalmExit(r.st, c, r.raised);
    case Try(body) => CalmRun(body, st);
    case _ =>
  }

  // A close callback that raises leaves its context current after the block.
  lemma RaisingCloseLeaves(st: State, e: Entry)
    requires |st.ctxs| > 0 && st.ctxs[0] == Ctx(0, []) && e.effect == Raises
    ensures Run(With(0, Register(0, e)), st).st.stack == st.stack + [0]
  {
    assert [e][..0] == [] && Unwind([], Unwound(true, false)).raises;
    assert Unwind([e], Unwound(false, false)).raises;
  }

  // ---------------------------------------------------------------- callbacks

  // Registering pushes; running takes the entry on top, or the run is out of order.
  function Replay(events: seq<Event>, c: nat): Option<seq<Entry>> {
    if events == [] then Some([]) else Play(Replay(events[..|events| - 1], c), events[|events| - 1], c)
  }

  function Play(before: Option<seq<Entry>>, ev: Event, c: nat): Option<seq<Entry>> {
    if before.None? || ev.c != c then before
    else
      var s := before.value;
      if ev.Registered? then Some(s + [ev.entry])
      else if s != [] && s[|s| - 1] == ev.entry then Some(s[..|s| - 1])
      else None
  }

  ghost predicate Disciplined(st: State) {
    forall c :: 0 <= c < |st.ctxs| ==> Replay(st.events, c) == Some(st.ctxs[c].pending)
  }

  lemma ReplaySnoc(events: seq<Event>, ev: Event, c: nat)
    ensures Replay(events + [ev], c) == Play(Replay(events, c), ev, c)
  {
    assert (events + [ev])[..|events|] == events;
  }

  lemma {:induction false} ReplayRanAll(events: seq<Event>, c: nat, entries: seq<Entry>, d: nat)
    requires Replay(events, c) == Some(entries)
    ensures Replay(events + RanAll(c, entries), d) == if d == c then Some([]) else Replay(events, d)
    decreases |entries|
  {
    hide Replay;
    if entries == [] {
      assert events + [] == events;
    } else {
      var ev, front := Ran(c, entries[|entries| - 1]), entries[..|entries| - 1];
      ReplaySnoc(events, ev, c);
      ReplaySnoc(events, ev, d);
      ReplayRanAll(events + [ev], c, front, d);
      ConcatAssoc(events, [ev], RanAll(c, front));
    }
  }

  lemma CloseDisciplined(st: State, c: nat)
    requires Disciplined(st) && c < |st.ctxs|
    ensures Disciplined(CloseCtx(st, c))
  {
    forall d | 0 <= d < |st.ctxs| ensures Replay(CloseCtx(st, c).events, d) == Some(CloseCtx(st, c).ctxs[d].pending) {
      ReplayRanAll(st.events, c, st.ctxs[c].pending, d);
    }
  }

  lemma ExitDisciplined(st: State, c: nat, raised: bool)
    requires Disciplined(st) && c < |st.ctxs|
    ensures Disciplined(Exit(st, c, raised).st)
  {
    var d := Deepen(st, c, -1);
    assert Disciplined(d);
    CloseDisciplined(d, c);
  }

  // Main result: over any run, every context's callbacks run in reverse order of registration, each
  // registration at most once, and those not yet run are exactly the pending ones.
  lemma {:induction false} RunDisciplined(p: Prog, st: State)
    requires InRange(p, |st.ctxs|) && Disciplined(st)
    ensures Disciplined(Run(p, st).st)
    decreases p
  {
    hide Replay;
    match p
    case Seq(a, b) =>
      RunDisciplined(a, st);
      if !Run(a, st).raised { RunDisciplined(b, Run(a, st).st); }
    case With(c, body) =>
      RunDisciplined(body, Enter(st, c));
      ExitDisciplined(Run(body, Enter(st, c)).st, c, Run(body, Enter(st, c)).raised);
    case Scope(c, cleanup, body) =>
      var entered := Enter(if cleanup then st else Deepen(st, c, 1), c);
      RunDisciplined(body, entered);
      ExitDisciplined(Run(body, entered).st, c, Run(body, entered).raised);
    case Register(c, e) => RegisterDisciplined(st, c, e);
    case Close(c) => CloseDisciplined(st, c);
    case Try(body) => RunDisciplined(body, st);
    case _ =>
  }

  lemma RegisterDisciplined(st: State, c: nat, e: Entry)
    requires c < |st.ctxs| && Disciplined(st)
    ensures Disciplined(Run(Register(c, e), st).st)
  {
    ReplaySnoc(st.events, Registered(c, e), c);
  }

  // ---------------------------------------------------------------- when they run

  function RanOf(events: seq<Event>, c: nat): seq<Entry> {
    if events == [] then [] else RanOf(events[..|events| - 1], c) + RanIn(events[|events| - 1], c)
  }

  function RanIn(ev: Event, c: nat): seq<Entry> {
    if ev.Ran? && ev.c == c then [ev.entry] else []
  }

  function RegisteredOf(events: seq<Event>, c: nat): seq<Entry> {
    if events == [] then [] else RegisteredOf(events[..|events| - 1], c) + RegisteredIn(events[|events| - 1], c)
  }

  function RegisteredIn(ev: Event, c: nat): seq<Entry> {
    if ev.Registered? && ev.c == c then [ev.entry] else []
  }

  lemma EventsSnoc(events: seq<Event>, ev: Event, c: nat)
    ensures RanOf(events + [ev], c) == RanOf(events, c) + RanIn(ev, c)
    ensures RegisteredOf(events + [ev], c) == RegisteredOf(events, c) + RegisteredIn(ev, c)
  {
    assert (events + [ev])[..|events|] == events;
  }

  function Reverse<T>(s: seq<T>): seq<T> {
    if s == [] then [] else [s[|s| - 1]] + Reverse(s[..|s| - 1])
  }

  predicate Closes(p: Prog, c: nat) {
    match p
    case Seq(a, b) => Closes(a, c) || Closes(b, c)
    case With(_, b) => Closes(b, c)
    case Scope(_, _, b) => Closes(b, c)
    case Close(d) => d == c
    case Try(b) => Closes(b, c)
    case _ => false
  }

  // Between two states, callbacks of |c| were registered but none ran.
  predicate Deferred(st: State, r: State, c: nat)
    requires c < |st.ctxs| == |r.ctxs|
  {
    && st.ctxs[c].pending <= r.ctxs[c].pending
    && RanOf(r.events, c) == RanOf(st.events, c)
    && RegisteredOf(r.events, c) == RegisteredOf(st.events, c) + r.ctxs[c].pending[|st.ctxs[c].pending|..]
  }

  lemma {:induction false} EventsOfRanAll(events: seq<Event>, d: nat, entries: seq<Entry>, c: nat)
    ensures RegisteredOf(events + RanAll(d, entries), c) == RegisteredOf(events, c)
    ensures RanOf(events + RanAll(d, entries), c) == RanOf(events, c) + if d == c then Reverse(entries) else []
    decreases |entries|
  {
    hide RanOf, RegisteredOf;
    if entries == [] {
      assert events + [] == events && RanOf(events, c) + [] == RanOf(events, c);
    } else {
      var ev, front := Ran(d, entries[|entries| - 1]), entries[..|entries| - 1];
      EventsSnoc(events, ev, c);
      EventsOfRanAll(events + [ev], d, front, c);
      ConcatAssoc(events, [ev], RanAll(d, front));
      ConcatAssoc(RanOf(events, c), RanIn(ev, c), if d == c then Reverse(front) else []);
      assert RegisteredOf(events, c) + [] == RegisteredOf(events, c) && RanOf(events, c) + [] == RanOf(events, c);
    }
  }

  // An exit of another context, or one that does not reach depth zero, leaves the callbacks of |c| alone.
  lemma ExitDefers(st: State, d: nat, raised: bool, c: nat)
    requires c < |st.ctxs| && d < |st.ctxs| && (d == c ==> st.ctxs[c].depth > 1)
    ensures Deferred(st, Exit(st, d, raised).st, c)
  {
    hide RanOf, RegisteredOf, RanAll, Unwind, Reverse;
    EventsOfRanAll(st.events, d, st.ctxs[d].pending, c);
  }

  // Main result: while a context is entered anywhere outside, nothing inside runs its callbacks unless
  // it closes the context by name; they are only collected, in order.
  lemma {:induction false} NestedDefers(p: Prog, st: State, c: nat)
    requires InRange(p, |st.ctxs|) && c < |st.ctxs| && st.ctxs[c].depth > 0 && !Closes(p, c)
    ensures Deferred(st, Run(p, st).st, c)
    decreases p, 0
  {
    hide RanOf, RegisteredOf, Exit;
    match p
    case Seq(a, b) =>
      var r := Run(a, st);
      NestedDefers(a, st, c);
      if !r.raised {
        DepthsRestored(a, st);
        NestedDefers(b, r.st, c);
      }
    case With(d, body) => BlockDefers(st, Enter(st, d), d, body, c);
    case Scope(d, cleanup, body) => BlockDefers(st, Enter(if cleanup then st else Deepen(st, d, 1), d), d, body, c);
    case Register(d, e) => RegisterDefers(st, d, e, c);
    case Close(d) => CloseDefers(st, d, c);
    case Try(body) => NestedDefers(body, st, c);
    case _ =>
  }

  lemma {:induction false} BlockDefers(st: State, entered: State, d: nat, body: Prog, c: nat)
    requires |entered.ctxs| == |st.ctxs| && InRange(body, |st.ctxs|) && c < |st.ctxs| && d < |st.ctxs| && !Closes(body, c)
    requires entered.events == st.events && entered.ctxs[c].pending == st.ctxs[c].pending
    requires entered.ctxs[c].depth > 0 && (d == c ==> entered.ctxs[c].depth > 1)
    ensures Deferred(st, Exit(Run(body, entered).st, d, Run(body, entered).raised).st, c)
    decreases body, 1
  {
    hide RanOf, RegisteredOf, Exit;
    var r := Run(body, entered);
    NestedDefers(body, entered, c);
    DepthsRestored(body, entered);
    ExitDefers(r.st, d, r.raised, c);
  }

  lemma RegisterDefers(st: State, d: nat, e: Entry, c: nat)
    requires c < |st.ctxs| && d < |st.ctxs|
    ensures Deferred(st, Run(Register(d, e), st).st, c)
  {
    hide RanOf, RegisteredOf;
    EventsSnoc(st.events, Registered(d, e), c);
  }

  lemma CloseDefers(st: State, d: nat, c: nat)
    requires c < |st.ctxs| && d < |st.ctxs| && d != c
    ensures Deferred(st, CloseCtx(st, d), c)
  {
    EventsOfRanAll(st.events, d, st.ctxs[d].pending, c);
  }

  // Main result: a scope without cleanup runs no callback as it ends, whatever the depth and whatever
  // its body does; so nothing runs at all unless the body closes the context by name.
  lemma NoCleanupDefers(st: State, c: nat, body: Prog)
    requires c < |st.ctxs| && st.ctxs[c].depth >= 0 && InRange(body, |st.ctxs|)
    ensures var r, b := Run(Scope(c, false, body), st).st, Run(body, Enter(Deepen(st, c, 1), c)).st;
            r.events == b.events && r.ctxs[c].pending == b.ctxs[c].pending
    ensures !Closes(body, c) ==> Deferred(st, Run(Scope(c, false, body), st).st, c)
  {
    hide RanOf, RegisteredOf, RanAll, Unwind;
    var entered := Enter(Deepen(st, c, 1), c);
    DepthsRestored(body, entered);
    if !Closes(body, c) {
      BlockDefers(st, entered, c, body, c);
    }
  }

  // The callbacks of |c| pending at |st| and registered since have all run, last first.
  predicate AllRan(st: State, r: State, c: nat)
    requires c < |st.ctxs| == |r.ctxs|
  {
    var before, after := RegisteredOf(st.events, c), RegisteredOf(r.events, c);
    && r.ctxs[c].pending == []
    && before <= after
    && RanOf(r.events, c) == RanOf(st.events, c) + Reverse(st.ctxs[c].pending + after[|before|..])
  }

  lemma CloseRunsAll(st: State, b: State, c: nat)
    requires c < |st.ctxs| == |b.ctxs| && Deferred(st, b, c)
    ensures AllRan(st, CloseCtx(b, c), c)
  {
    hide RanOf, RegisteredOf, RanAll, Reverse;
    var pending, prior, before := b.ctxs[c].pending, st.ctxs[c].pending, RegisteredOf(st.events, c);
    EventsOfRanAll(b.events, c, pending, c);
    assert pending == prior + pending[|prior|..];
    assert (before + pending[|prior|..])[|before|..] == pending[|prior|..];
    assert before <= before + pending[|prior|..];
    assert RanOf(b.events, c) == RanOf(st.events, c);
  }

  lemma LastExitCloses(b: State, c: nat, raised: bool)
    requires c < |b.ctxs| && b.ctxs[c].depth == 1
    ensures var x, closed := Exit(b, c, raised).st, CloseCtx(b, c);
            x.events == closed.events && x.ctxs[c].pending == closed.ctxs[c].pending
  {
    hide Unwind, RanAll;
  }

  // Main result: however its body ends, the outermost block of a context runs, as it ends, every
  // callback then pending, last first, so that of a context in order nothing registered is left; and if
  // the body does not close the context by name, these are all that were pending before and registered
  // inside, each run once.
  lemma OutermostRunsAll(st: State, c: nat, body: Prog)
    requires c < |st.ctxs| && st.ctxs[c].depth == 0 && InRange(body, |st.ctxs|)
    ensures var r, b := Run(With(c, body), st).st, Run(body, Enter(st, c)).st;
            && r.ctxs[c].pending == []
            && RanOf(r.events, c) == RanOf(b.events, c) + Reverse(b.ctxs[c].pending)
            && (Disciplined(st) ==> Replay(r.events, c) == Some([]))
    ensures !Closes(body, c) ==> AllRan(st, Run(With(c, body), st).st, c)
    ensures Run(Scope(c, true, body), st) == Run(With(c, body), st)
  {
    hide RanOf, RegisteredOf, Reverse, Exit, Replay, RanAll;
    var b := Run(body, Enter(st, c));
    DepthsRestored(body, Enter(st, c));
    EventsOfRanAll(b.st.events, c, b.st.ctxs[c].pending, c);
    LastExitCloses(b.st, c, b.raised);
    if Disciplined(st) {
      RunDisciplined(With(c, body), st);
    }
    if !Closes(body, c) {
      NestedDefers(body, Enter(st, c), c);
      CloseRunsAll(st, b.st, c);
    }
  }
}
