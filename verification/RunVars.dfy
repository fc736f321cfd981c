/** Run variables and their tokens: `RunVar.get`, `set`, `reset` and `with var.set(...)`. */
module RunVars {
  import opened CliValues

  // NO_VALUE_SET stands for "no value" in a token, but nothing keeps a caller from storing it.
  datatype Val = NoValueSet | Val(id: nat)

  type Vars<!K> = map<K, Val>

  // `current_vars.get(self, NO_VALUE_SET)`
  function Held<K>(vars: Vars<K>, v: K): Val {
    if v in vars then vars[v] else NoValueSet
  }

  // What a reset writes back.
  function PutBack<K>(vars: Vars<K>, v: K, value: Val): Vars<K> {
    if value.NoValueSet? then vars - {v} else vars[v := value]
  }

  datatype Problem = ForeignToken | UsedToken

  // ---------------------------------------------------------------- the objects

  class RunVar {
    const initial: Val

    constructor (initial: Val)
      ensures this.initial == initial
    {
      this.initial := initial;
    }

    // None where the source raises LookupError.
    method Get(loops: EventLoops, loop: nat, alternative: Val) returns (r: Option<Val>)
      modifies loops
      ensures loops.runVars == old(loops.runVars)[loop := old(loops.Of(loop))]
      ensures r == if this in loops.Of(loop) then Some(loops.Of(loop)[this])
                   else if !alternative.NoValueSet? then Some(alternative)
                   else if !initial.NoValueSet? then Some(initial)
                   else None
    {
      var vars := loops.Current(loop);
      if this in vars {
        r := Some(vars[this]);
      } else if alternative != NoValueSet {
        r := Some(alternative);
      } else if initial != NoValueSet {
        r := Some(initial);
      } else {
        r := None;
      }
    }

    method Set(loops: EventLoops, loop: nat, value: Val) returns (token: RunvarToken)
      modifies loops
      ensures fresh(token) && token.variable == this && !token.redeemed
      ensures token.value == Held(old(loops.Of(loop)), this)
      ensures loops.runVars == old(loops.runVars)[loop := old(loops.Of(loop))[this := value]]
    {
      var vars := loops.Current(loop);
      token := new RunvarToken(this, Held(vars, this));
      loops.runVars := loops.runVars[loop := vars[this := value]];
    }

    // A token of another variable, or one already used, is refused and nothing changes.
    method Reset(loops: EventLoops, loop: nat, token: RunvarToken) returns (problem: Option<Problem>)
      modifies loops, token
      ensures problem == if token.variable != this then Some(ForeignToken) else if old(token.redeemed) then Some(UsedToken) else None
      ensures problem.Some? ==> loops.runVars == old(loops.runVars) && token.redeemed == old(token.redeemed)
      ensures problem.None? ==>
                token.redeemed && loops.runVars == old(loops.runVars)[loop := PutBack(old(loops.Of(loop)), this, token.value)]
    {
      if token.variable != this {
        return Some(ForeignToken);
      }
      if token.redeemed {
        return Some(UsedToken);
      }
      var vars := loops.Current(loop);
      if token.value == NoValueSet {
        loops.runVars := loops.runVars[loop := vars - {this}];
      } else {
        loops.runVars := loops.runVars[loop := vars[this := token.value]];
      }
      token.redeemed := true;
      problem := None;
    }
  }

  class RunvarToken {
    const variable: RunVar
    const value: Val
    var redeemed: bool

    constructor (variable: RunVar, value: Val)
      ensures this.variable == variable && this.value == value && !redeemed
    {
      this.variable, this.value, redeemed := variable, value, false;
    }
  }

  // `_run_vars`: one dictionary for each event loop, made when first asked for.
  class EventLoops {
    var runVars: map<nat, Vars<RunVar>>

    constructor ()
      ensures runVars == map[]
    {
      runVars := map[];
    }

    function Of(loop: nat): Vars<RunVar>
      reads this
    {
      if loop in runVars then runVars[loop] else map[]
    }

    method Current(loop: nat) returns (vars: Vars<RunVar>)
      modifies this
      ensures vars == old(Of(loop)) && runVars == old(runVars)[loop := vars]
    {
      if loop !in runVars {
        runVars := runVars[loop := map[]];
      }
      vars := runVars[loop];
    }
  }

  // ---------------------------------------------------------------- nested use on one event loop

  datatype Token = Token(variable: nat, value: Val, redeemed: bool)

  datatype State = State(vars: Vars<nat>, tokens: seq<Token>)

  datatype Outcome = Outcome(st: State, raised: bool)

  // `with v.set(x): body`, and attempts to reset some token by number.
  datatype Prog =
    | Skip
    | Seq(first: Prog, second: Prog)
    | With(v: nat, x: Val, body: Prog)
    | Attempt(v: nat, t: nat)
    | Raise
    | Try(body: Prog)

  function Set(st: State, v: nat, x: Val): State {
    State(st.vars[v := x], st.tokens + [Token(v, Held(st.vars, v), false)])
  }

  function Reset(st: State, v: nat, t: nat): Outcome
    requires t < |st.tokens|
  {
    var token := st.tokens[t];
    if token.variable != v || token.redeemed then Outcome(st, true)
    else Outcome(State(PutBack(st.vars, v, token.value), st.tokens[t := token.(redeemed := true)]), false)
  }

  function Run(p: Prog, st: State): (r: Outcome)
    ensures |r.st.tokens| >= |st.tokens|
  {
    match p
    case Skip => Outcome(st, false)
    case Seq(a, b) =>
      var r := Run(a, st);
      if r.raised then r else Run(b, r.st)
    case With(v, x, body) =>
      var r := Run(body, Set(st, v, x));
      var z := Reset(r.st, v, |st.tokens|);
      Outcome(z.st, r.raised || z.raised)
    case Attempt(v, t) => if t < |st.tokens| then Reset(st, v, t) else Outcome(st, true)
    case Raise => Outcome(st, true)
    case Try(body) => Outcome(Run(body, st).st, false)
  }

  // Every attempt the run makes is on a token that, at that moment, is used up or another variable's,
  // be it older than the run or issued in it.
  predicate OnlyRefused(p: Prog, st: State) {
    match p
    case Seq(a, b) => OnlyRefused(a, st) && (Run(a, st).raised || OnlyRefused(b, Run(a, st).st))
    case With(v, x, body) => OnlyRefused(body, Set(st, v, x))
    case Attempt(v, t) => t < |st.tokens| ==> st.tokens[t].redeemed || st.tokens[t].variable != v
    case Try(body) => OnlyRefused(body, st)
    case _ => true
  }

  // The program without the attempts that its run refuses: their exception is left.
  function Stripped(p: Prog, st: State): Prog {
    match p
    case Seq(a, b) => Seq(Stripped(a, st), if Run(a, st).raised then b else Stripped(b, Run(a, st).st))
    case With(v, x, body) => With(v, x, Stripped(body, Set(st, v, x)))
    case Attempt(v, t) => if t >= |st.tokens| || Reset(st, v, t).raised then Raise else p
    case Try(body) => Try(Stripped(body, st))
    case _ => p
  }

  // For any program, the attempts that are refused change neither the variables nor any token: the run
  // is the one without them.
  lemma {:induction false} RefusedAttemptsAreInert(p: Prog, st: State)
    ensures Run(p, st) == Run(Stripped(p, st), st)
    decreases p
  {
    match p
    case Seq(a, b) =>
      RefusedAttemptsAreInert(a, st);
      if !Run(a, st).raised { RefusedAttemptsAreInert(b, Run(a, st).st); }
    case With(v, x, body) => RefusedAttemptsAreInert(body, Set(st, v, x));
    case Try(body) => RefusedAttemptsAreInert(body, st);
    case _ =>
  }

  // An exception leaves the program: raised by its own code, by an attempt that is refused, or by the
  // end of a block whose token an attempt has used up already.
  predicate Escapes(p: Prog, st: State) {
    match p
    case Skip => false
    case Seq(a, b) => Escapes(a, st) || Escapes(b, Run(a, st).st)
    case With(v, x, body) => Escapes(body, Set(st, v, x)) || Run(body, Set(st, v, x)).st.tokens[|st.tokens|].redeemed
    case Attempt(v, t) => t >= |st.tokens| || st.tokens[t].redeemed || st.tokens[t].variable != v
    case Raise => true
    case Try(_) => false
  }

  // Main result: over any run, an exception comes out exactly by these rules; ending a block swallows
  // none.
  lemma {:induction false} EscapesExactly(p: Prog, st: State)
    ensures Run(p, st).raised <==> Escapes(p, st)
    decreases p
  {
    match p
    case Seq(a, b) =>
      EscapesExactly(a, st);
      if !Run(a, st).raised { EscapesExactly(b, Run(a, st).st); }
    case With(v, x, body) =>
      EscapesExactly(body, Set(st, v, x));
      TokensUsedOnce(body, Set(st, v, x));
    case Try(body) => EscapesExactly(body, st);
    case _ =>
  }

  // Older tokens keep what they remember and are never renewed; those issued since are used up.
  ghost predicate Spent(st: State, r: State) {
    && |st.tokens| <= |r.tokens|
    && (forall i :: 0 <= i < |st.tokens| ==> r.tokens[i] == st.tokens[i] || r.tokens[i] == st.tokens[i].(redeemed := true))
    && (forall i :: |st.tokens| <= i < |r.tokens| ==> r.tokens[i].redeemed)
  }

  // Main result: whatever a program attempts, accepted or not, no token is ever accepted twice, and
  // every token issued by a block is used up when the block is over.
  lemma {:induction false} TokensUsedOnce(p: Prog, st: State)
    ensures Spent(st, Run(p, st).st)
    decreases p
  {
    match p
    case Seq(a, b) =>
      TokensUsedOnce(a, st);
      if !Run(a, st).raised { TokensUsedOnce(b, Run(a, st).st); }
    case With(v, x, body) =>
      TokensUsedOnce(body, Set(st, v, x));
      var n, r := |st.tokens|, Run(body, Set(st, v, x)).st;
      assert r.tokens[n].variable == v;
    case Try(body) => TokensUsedOnce(body, st);
    case _ =>
  }

  // What a run leaves behind: old tokens as they were, new ones used up, values as they were.
  ghost predicate Back(st: State, r: State) {
    && |st.tokens| <= |r.tokens|
    && r.tokens[..|st.tokens|] == st.tokens
    && (forall i :: |st.tokens| <= i < |r.tokens| ==> r.tokens[i].redeemed)
    && (forall v :: Held(r.vars, v) == Held(st.vars, v))
  }

  lemma BackTrans(a: State, b: State, c: State)
    requires Back(a, b) && Back(b, c)
    ensures Back(a, c)
  {
    forall i | |a.tokens| <= i < |c.tokens| ensures c.tokens[i].redeemed {
      if i < |b.tokens| {
        assert c.tokens[..|b.tokens|][i] == c.tokens[i];
      }
    }
    assert c.tokens[..|a.tokens|] == c.tokens[..|b.tokens|][..|a.tokens|];
  }

  lemma WithBack(st: State, v: nat, x: Val, r: State)
    requires Back(Set(st, v, x), r)
    ensures var z := Reset(r, v, |st.tokens|);
            && !z.raised && Back(st, z.st)
            && z.st.vars == PutBack(r.vars, v, Held(st.vars, v))
  {
    var n := |st.tokens|;
    var s := Set(st, v, x);
    assert r.tokens[..n + 1][n] == r.tokens[n];
    var z := Reset(r, v, n).st;
    assert s.tokens[..n] == st.tokens;
    assert z.tokens[..n] == r.tokens[..n] == r.tokens[..n + 1][..n];
    forall u ensures Held(z.vars, u) == Held(st.vars, u) {
      assert Held(r.vars, u) == Held(s.vars, u);
    }
  }

  // Main result: after any nested use, whatever is raised or refused inside, every variable holds what
  // it held, or again nothing, and every token issued is used up.
  lemma {:induction false} NestedRestores(p: Prog, st: State)
    requires OnlyRefused(p, st)
    ensures Back(st, Run(p, st).st)
    decreases p
  {
    hide Back;
    match p
    case Seq(a, b) =>
      var r := Run(a, st);
      NestedRestores(a, st);
      if !r.raised {
        NestedRestores(b, r.st);
        BackTrans(st, r.st, Run(b, r.st).st);
      }
    case With(v, x, body) =>
      NestedRestores(body, Set(st, v, x));
      WithBack(st, v, x, Run(body, Set(st, v, x)).st);
    case Attempt(v, t) => BackSelf(st);
    case Try(body) => NestedRestores(body, st);
    case _ => BackSelf(st);
  }

  lemma BackSelf(st: State)
    ensures Back(st, st)
  {
  }

  // The run comes to a block on |v|.
  predicate Reaches(p: Prog, st: State, v: nat) {
    match p
    case Seq(a, b) => Reaches(a, st, v) || (!Run(a, st).raised && Reaches(b, Run(a, st).st, v))
    case With(u, x, body) => u == v || Reaches(body, Set(st, u, x), v)
    case Try(body) => Reaches(body, st, v)
    case _ => false
  }

  // The entry of |v| survives, unless it is the sentinel itself and a reset takes that for absence.
  lemma {:induction false} EntryKept(p: Prog, st: State, v: nat)
    requires OnlyRefused(p, st)
    ensures v in Run(p, st).st.vars <==> v in st.vars && !(st.vars[v].NoValueSet? && Reaches(p, st, v))
    decreases p
  {
    hide Back;
    match p
    case Seq(a, b) =>
      var r := Run(a, st);
      EntryKept(a, st, v);
      NestedRestores(a, st);
      BackHeld(st, r.st, v);
      if !r.raised {
        EntryKept(b, r.st, v);
      }
    case With(u, x, body) =>
      var s := Set(st, u, x);
      EntryKept(body, s, v);
      NestedRestores(body, s);
      WithBack(st, u, x, Run(body, s).st);
    case Try(body) => EntryKept(body, st, v);
    case _ =>
  }

  lemma BackHeld(a: State, b: State, v: nat)
    requires Back(a, b)
    ensures Held(b.vars, v) == Held(a.vars, v)
  {
  }

  lemma MapsAgree(a: Vars<nat>, b: Vars<nat>)
    requires forall v :: Held(a, v) == Held(b, v)
    requires forall v :: v in a <==> v in b
    ensures a == b
  {
    forall v | v in a ensures a[v] == b[v] {
      assert Held(a, v) == Held(b, v);
    }
  }

  // Main result: over any nested use, on any number of variables, the map itself comes back, absences
  // included, if and only if the run comes to no block on a variable that has the sentinel stored.
  lemma MapRestoredExactly(p: Prog, st: State)
    requires OnlyRefused(p, st)
    ensures Run(p, st).st.vars == st.vars <==> forall v :: v in st.vars && st.vars[v].NoValueSet? ==> !Reaches(p, st, v)
  {
    hide Run, Back;
    var r := Run(p, st).st;
    NestedRestores(p, st);
    forall v ensures v in r.vars <==> v in st.vars && !(st.vars[v].NoValueSet? && Reaches(p, st, v)) {
      EntryKept(p, st, v);
    }
    forall v ensures Held(r.vars, v) == Held(st.vars, v) {
      BackHeld(st, r, v);
    }
    if forall v :: v in st.vars && st.vars[v].NoValueSet? ==> !Reaches(p, st, v) {
      MapsAgree(r.vars, st.vars);
    }
  }
}
