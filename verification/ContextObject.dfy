/** The context objects themselves: fields that the methods update, and user code running over them. */
module ContextObjects {
  import opened ContextStack

  // `globals._local`: the thread's stack, with a record of what closing ran.
  class Local {
    var stack: seq<Context>
    ghost var events: seq<Event>
    ghost var skipped: nat

    constructor ()
      ensures stack == [] && events == [] && skipped == 0
    {
      stack, events, skipped := [], [], 0;
    }

    method PushContext(ctx: Context)
      modifies this`stack
      ensures stack == old(stack) + [ctx]
    {
      stack := stack + [ctx];
    }

    // False where Python raises IndexError.
    method PopContext() returns (ok: bool)
      modifies this`stack
      ensures ok == (old(stack) != [])
      ensures stack == if ok then old(stack)[..|old(stack)| - 1] else old(stack)
    {
      ok := stack != [];
      if ok {
        stack := stack[..|stack| - 1];
      }
    }
  }

  class Context {
    const id: nat
    var depth: int
    var exitStack: seq<Entry>

    constructor (id: nat)
      ensures this.id == id && depth == 0 && exitStack == []
    {
      this.id, depth, exitStack := id, 0, [];
    }

    method Enter(l: Local)
      modifies this`depth, l`stack
      ensures depth == old(depth) + 1 && l.stack == old(l.stack) + [this]
    {
      depth := depth + 1;
      l.PushContext(this);
    }

    method CallOnClose(l: Local, e: Entry)
      modifies this`exitStack, l`events
      ensures exitStack == old(exitStack) + [e] && l.events == old(l.events) + [Registered(id, e)]
    {
      exitStack := exitStack + [e];
      l.events := l.events + [Registered(id, e)];
    }

    method CloseWithExceptionInfo(l: Local) returns (u: Unwound)
      modifies this`exitStack, l`events
      ensures exitStack == [] && l.events == old(l.events) + RanAll(id, old(exitStack))
      ensures u == Unwind(old(exitStack), Unwound(false, false))
    {
      u := Unwound(false, false);
      while exitStack != []
        invariant Unwind(exitStack, u) == Unwind(old(exitStack), Unwound(false, false))
        invariant l.events + RanAll(id, exitStack) == old(l.events) + RanAll(id, old(exitStack))
        decreases |exitStack|
      {
        var last := exitStack[|exitStack| - 1];
        ghost var before := exitStack;
        exitStack := exitStack[..|exitStack| - 1];
        l.events := l.events + [Ran(id, last)];
        u := match last.effect
          case Quiet => u
          case Raises => u.(raises := true)
          case Suppresses => Unwound(false, true);
        assert RanAll(id, before) == [Ran(id, last)] + RanAll(id, exitStack);
      }
    }

    // |raised| says whether the block is leaving with an exception, before and after.
    method Exit(l: Local, received: bool) returns (raised: bool)
      modifies this, l
      ensures depth == old(depth) - 1
      ensures depth != 0 ==> exitStack == old(exitStack) && l.events == old(l.events)
      ensures depth == 0 ==> exitStack == [] && l.events == old(l.events) + RanAll(id, old(exitStack))
      ensures var u := Unwind(old(exitStack), Unwound(false, false));
              if depth == 0 && u.raises then
                l.stack == old(l.stack) && l.skipped == old(l.skipped) + 1 && raised
              else
                && l.skipped == old(l.skipped)
                && (old(l.stack) == [] ==> l.stack == [] && raised)
                && (old(l.stack) != [] ==>
                      l.stack == old(l.stack)[..|old(l.stack)| - 1] && raised == (received && !(depth == 0 && u.suppressed)))
    {
      depth := depth - 1;
      raised := received;
      if depth == 0 {
        var u := CloseWithExceptionInfo(l);
        if u.raises {
          l.skipped := l.skipped + 1;
          return true;
        }
        raised := received && !u.suppressed;
      }
      var ok := l.PopContext();
      if !ok {
        raised := true;
      }
    }
  }

  ghost predicate Valid(cs: seq<Context>) {
    forall i :: 0 <= i < |cs| ==> cs[i].id == i
  }

  function Ids(s: seq<Context>): (r: seq<nat>)
    ensures |r| == |s| && forall i :: 0 <= i < |s| ==> r[i] == s[i].id
  {
    seq(|s|, i requires 0 <= i < |s| => s[i].id)
  }

  ghost function Fields(cs: seq<Context>): (r: seq<Ctx>)
    reads cs
    ensures |r| == |cs| && forall i :: 0 <= i < |cs| ==> r[i] == Ctx(cs[i].depth, cs[i].exitStack)
  {
    seq(|cs|, i requires 0 <= i < |cs| reads cs => Ctx(cs[i].depth, cs[i].exitStack))
  }

  // The model state that the objects stand for.
  ghost function View(l: Local, cs: seq<Context>): (st: State)
    reads l, cs
    ensures |st.ctxs| == |cs|
  {
    State(Ids(l.stack), Fields(cs), l.events, l.skipped)
  }

  method EnterBlock(c: nat, cleanup: bool, l: Local, cs: seq<Context>)
    requires Valid(cs) && c < |cs|
    modifies l, cs[c]
    ensures var st := old(View(l, cs));
            View(l, cs) == ContextStack.Enter(if cleanup then st else Deepen(st, c, 1), c)
  {
    if !cleanup {
      cs[c].depth := cs[c].depth + 1;
    }
    cs[c].Enter(l);
  }

  method Leave(c: nat, received: bool, l: Local, cs: seq<Context>) returns (raised: bool)
    requires Valid(cs) && c < |cs|
    modifies l, cs[c]
    ensures View(l, cs) == ContextStack.Exit(old(View(l, cs)), c, received).st
    ensures raised == ContextStack.Exit(old(View(l, cs)), c, received).raised
  {
    hide Unwind, RanAll;
    raised := cs[c].Exit(l, received);
  }

  method ExitBlock(c: nat, cleanup: bool, received: bool, l: Local, cs: seq<Context>) returns (raised: bool)
    requires Valid(cs) && c < |cs|
    modifies l, cs[c]
    ensures var x := ContextStack.Exit(old(View(l, cs)), c, received);
            View(l, cs) == (if cleanup then x.st else Deepen(x.st, c, -1)) && raised == x.raised
  {
    raised := Leave(c, received, l, cs);
    if !cleanup {
      hide ContextStack.Exit;
      cs[c].depth := cs[c].depth - 1;
    }
  }

  // User code over the objects does to their fields what the model's run does to the state.
  method Execute(p: Prog, l: Local, cs: seq<Context>) returns (raised: bool)
    requires Valid(cs) && InRange(p, |cs|)
    modifies l, cs
    ensures View(l, cs) == Run(p, old(View(l, cs))).st && raised == Run(p, old(View(l, cs))).raised
    decreases p
  {
    match p
    case Skip => raised := false;
    case Seq(a, b) =>
      raised := Execute(a, l, cs);
      if !raised {
        raised := Execute(b, l, cs);
      }
    case With(c, body) =>
      EnterBlock(c, true, l, cs);
      raised := Execute(body, l, cs);
      raised := ExitBlock(c, true, raised, l, cs);
    case Scope(c, cleanup, body) =>
      EnterBlock(c, cleanup, l, cs);
      raised := Execute(body, l, cs);
      raised := ExitBlock(c, cleanup, raised, l, cs);
    case Register(c, e) =>
      cs[c].CallOnClose(l, e);
      raised := false;
    case Close(c) =>
      var u := cs[c].CloseWithExceptionInfo(l);
      raised := u.raises;
    case Raise => raised := true;
    case Try(body) =>
      raised := Execute(body, l, cs);
      raised := false;
  }
}
