/** `_unpack_args`: hand positional arguments out to slots, at most one of which is a wildcard.
    The two-ended loop is proved to compute a declarative split, about which the promises are then stated. */
module Unpack {
  import opened CliValues
  import opened Subsequences

  // ---------------------------------------------------------------- the declarative split

  ghost predicate Fixed(spec: seq<int>) {
    forall i :: 0 <= i < |spec| ==> spec[i] > 0
  }

  // How many arguments the fixed slots ask for.
  function Demand(spec: seq<int>): nat {
    if spec == [] then 0 else (if spec[0] > 0 then spec[0] else 0) + Demand(spec[1..])
  }

  // A slot with nargs 0 produces no entry at all.
  function NonZero(spec: seq<int>): (r: seq<int>)
    ensures forall i :: 0 <= i < |r| ==> r[i] != 0
  {
    if spec == [] then [] else if spec[0] == 0 then NonZero(spec[1..]) else [spec[0]] + NonZero(spec[1..])
  }

  // Position of the first wildcard, or |spec|.
  function FirstWild(spec: seq<int>): (w: nat)
    ensures w <= |spec|
    ensures w < |spec| ==> spec[w] < 0
    ensures forall i :: 0 <= i < w ==> spec[i] >= 0
  {
    if spec == [] || spec[0] < 0 then 0 else 1 + FirstWild(spec[1..])
  }

  predicate HasWild(spec: seq<int>) {
    FirstWild(spec) < |spec|
  }

  // The argument at a position, UNSET outside the arguments.
  function Cell(tokens: seq<string>, i: int): Value {
    if 0 <= i < |tokens| then Text(tokens[i]) else Unset
  }

  function Cells(tokens: seq<string>, start: int, n: nat): (cells: seq<Value>)
    ensures |cells| == n
    ensures forall i :: 0 <= i < n ==> cells[i] == Cell(tokens, start + i)
  {
    seq(n, i => Cell(tokens, start + i))
  }

  // n cells from the front of the arguments: UNSET fills up behind them.
  function FromFront(tokens: seq<string>, n: nat): (cells: seq<Value>)
    ensures |cells| == n
  {
    Cells(tokens, 0, n)
  }

  // n cells from the back of the arguments: UNSET fills up before them.
  function FromBack(tokens: seq<string>, n: nat): (cells: seq<Value>)
    ensures |cells| == n
  {
    Cells(tokens, |tokens| - n, n)
  }

  function AfterFront(tokens: seq<string>, n: nat): seq<string> {
    if n <= |tokens| then tokens[n..] else []
  }

  function BeforeBack(tokens: seq<string>, n: nat): seq<string> {
    if n <= |tokens| then tokens[..|tokens| - n] else []
  }

  function Slot(cells: seq<Value>): Value
    requires cells != []
  {
    if |cells| == 1 then cells[0] else Tuple(cells)
  }

  // Cut a row of cells into consecutive slots.
  function Cut(cells: seq<Value>, spec: seq<int>): (slots: seq<Value>)
    requires Fixed(spec) && |cells| == Demand(spec)
    ensures |slots| == |spec|
  {
    if spec == [] then [] else [Slot(cells[..spec[0]])] + Cut(cells[spec[0]..], spec[1..])
  }

  function FrontSlots(tokens: seq<string>, spec: seq<int>): (slots: seq<Value>)
    requires Fixed(spec)
    ensures |slots| == |spec|
  {
    Cut(FromFront(tokens, Demand(spec)), spec)
  }

  function BackSlots(tokens: seq<string>, spec: seq<int>): (slots: seq<Value>)
    requires Fixed(spec)
    ensures |slots| == |spec|
  {
    Cut(FromBack(tokens, Demand(spec)), spec)
  }

  datatype Unpacked = Unpacked(slots: seq<Value>, rest: seq<string>)

  // Slots before the wildcard read from the front, slots after it from the back, and the
  // wildcard holds exactly what lies between.
  function Split(tokens: seq<string>, spec: seq<int>): Result<Unpacked, Error>
    requires forall i :: 0 <= i < |spec| ==> spec[i] != 0
  {
    var w := FirstWild(spec);
    var front := spec[..w];
    var rest := AfterFront(tokens, Demand(front));
    if w == |spec| then Ok(Unpacked(FrontSlots(tokens, front), rest))
    else
      var back := spec[w + 1..];
      if HasWild(back) then Err(TypeError)
      else
        var middle := Tuple(Texts(BeforeBack(rest, Demand(back))));
        Ok(Unpacked(FrontSlots(tokens, front) + [middle] + BackSlots(rest, back), []))
  }

  // ---------------------------------------------------------------- the loop

  lemma DemandAppend(a: seq<int>, b: seq<int>)
    ensures Demand(a + b) == Demand(a) + Demand(b)
  {
    if a == [] { assert a + b == b; } else { DemandAppend(a[1..], b); assert (a + b)[1..] == a[1..] + b; }
  }

  lemma {:induction false} NonZeroAppend(a: seq<int>, b: seq<int>)
    ensures NonZero(a + b) == NonZero(a) + NonZero(b)
  {
    if a == [] {
      assert a + b == b;
    } else {
      NonZeroAppend(a[1..], b);
      ConcatTail(a, b);
      ConcatAssoc([a[0]], NonZero(a[1..]), NonZero(b));
    }
  }

  lemma FirstWildAppend(a: seq<int>, b: seq<int>)
    requires !HasWild(a)
    ensures FirstWild(a + b) == |a| + FirstWild(b)
  {
    if a == [] { assert a + b == b; } else { FirstWildAppend(a[1..], b); assert (a + b)[1..] == a[1..] + b; }
  }

  lemma ConcatPieces<T>(c: seq<T>, d: seq<T>, n: nat)
    requires n <= |c|
    ensures (c + d)[..n] == c[..n] && (c + d)[n..] == c[n..] + d
  {
  }

  lemma {:induction false} CutAppend(c: seq<Value>, s: seq<int>, d: seq<Value>, t: seq<int>)
    requires Fixed(s) && |c| == Demand(s) && Fixed(t) && |d| == Demand(t)
    ensures Fixed(s + t) && |c + d| == Demand(s + t)
    ensures Cut(c + d, s + t) == Cut(c, s) + Cut(d, t)
  {
    hide Slot;
    DemandAppend(s, t);
    assert Fixed(s + t);
    if s == [] {
      assert s + t == t && c + d == d;
    } else {
      var n := s[0];
      var c1, s1 := c[n..], s[1..];
      CutAppend(c1, s1, d, t);
      ConcatTail(s, t);
      ConcatPieces(c, d, n);
      ConcatAssoc([Slot(c[..n])], Cut(c1, s1), Cut(d, t));
    }
  }

  lemma FrontAppend(tokens: seq<string>, a: nat, b: nat)
    ensures FromFront(tokens, a + b) == FromFront(tokens, a) + FromFront(AfterFront(tokens, a), b)
    ensures AfterFront(tokens, a + b) == AfterFront(AfterFront(tokens, a), b)
  {
    var left := AfterFront(tokens, a);
    forall i: nat ensures Cell(left, i) == Cell(tokens, a + i) {}
    assert FromFront(left, b) == Cells(tokens, a, b);
  }

  lemma BackAppend(tokens: seq<string>, a: nat, b: nat)
    ensures FromBack(tokens, a + b) == FromBack(BeforeBack(tokens, b), a) + FromBack(tokens, b)
    ensures BeforeBack(tokens, a + b) == BeforeBack(BeforeBack(tokens, b), a)
  {
    var left := BeforeBack(tokens, b);
    if b <= |tokens| {
      forall i | i < |left| ensures Cell(left, i) == Cell(tokens, i) {}
      assert FromBack(left, a) == Cells(tokens, |tokens| - b - a, a);
    } else {
      assert FromBack(left, a) == Cells(tokens, |tokens| - b - a, a);
    }
  }

  function Reversed<T>(s: seq<T>): (r: seq<T>)
    ensures |r| == |s| && forall i :: 0 <= i < |s| ==> r[i] == s[|s| - 1 - i]
  {
    seq(|s|, i requires 0 <= i < |s| => s[|s| - 1 - i])
  }

  // Pop n arguments one by one from the chosen end; UNSET once they run out.
  method FetchMany(tokens: seq<string>, n: nat, fromBack: bool) returns (cells: seq<Value>, rest: seq<string>)
    ensures |cells| == n
    ensures !fromBack ==> cells == FromFront(tokens, n) && rest == AfterFront(tokens, n)
    ensures fromBack ==> Reversed(cells) == FromBack(tokens, n) && rest == BeforeBack(tokens, n)
  {
    cells, rest := [], tokens;
    for k := 0 to n
      invariant |cells| == k
      invariant !fromBack ==> cells == FromFront(tokens, k) && rest == AfterFront(tokens, k)
      invariant fromBack ==> Reversed(cells) == FromBack(tokens, k) && rest == BeforeBack(tokens, k)
    {
      ghost var before, left := cells, rest;
      if rest == [] {
        cells := cells + [Unset];
      } else if fromBack {
        cells, rest := cells + [Text(rest[|rest| - 1])], rest[..|rest| - 1];
      } else {
        cells, rest := cells + [Text(rest[0])], rest[1..];
      }
      if fromBack {
        BackAppend(tokens, 1, k);
        assert FromBack(left, 1) == [cells[k]];
        assert Reversed(cells) == [cells[k]] + Reversed(before);
      } else {
        FrontAppend(tokens, k, 1);
        assert FromFront(left, 1) == [cells[k]];
      }
    }
  }

  // One slot; a tuple read from the back is turned around.
  method TakeSlot(tokens: seq<string>, nargs: nat, fromBack: bool) returns (slot: Value, rest: seq<string>)
    requires nargs >= 1
    ensures !fromBack ==> slot == Slot(FromFront(tokens, nargs)) && rest == AfterFront(tokens, nargs)
    ensures fromBack ==> slot == Slot(FromBack(tokens, nargs)) && rest == BeforeBack(tokens, nargs)
  {
    var cells;
    cells, rest := FetchMany(tokens, nargs, fromBack);
    if fromBack {
      cells := Reversed(cells);
    }
    slot := if nargs == 1 then cells[0] else Tuple(cells);
  }

  // The nonzero slots around a wildcard.
  lemma SplitSpec(spec: seq<int>, w: nat)
    requires w < |spec| && spec[w] < 0 && Fixed(NonZero(spec[..w]))
    ensures NonZero(spec) == NonZero(spec[..w]) + [spec[w]] + NonZero(spec[w + 1..])
    ensures FirstWild(NonZero(spec)) == |NonZero(spec[..w])|
  {
    assert spec == spec[..w] + spec[w..];
    NonZeroAppend(spec[..w], spec[w..]);
    assert spec[w..][1..] == spec[w + 1..];
    var front, tail := NonZero(spec[..w]), [spec[w]] + NonZero(spec[w + 1..]);
    assert NonZero(spec) == front + tail == front + [spec[w]] + NonZero(spec[w + 1..]);
    FirstWildAppend(front, tail);
  }

  lemma SplitPlain(tokens: seq<string>, front: seq<int>)
    requires Fixed(front)
    ensures Split(tokens, front) == Ok(Unpacked(FrontSlots(tokens, front), AfterFront(tokens, Demand(front))))
  {
    hide FromFront, AfterFront, Cut, Demand;
    assert FirstWild(front) == |front|;
    assert front[..|front|] == front;
  }

  lemma SplitAround(tokens: seq<string>, front: seq<int>, wild: int, tail: seq<int>)
    requires Fixed(front) && wild < 0 && forall i :: 0 <= i < |tail| ==> tail[i] != 0
    ensures var rest := AfterFront(tokens, Demand(front));
            Split(tokens, front + [wild] + tail) ==
              if HasWild(tail) then Err(TypeError)
              else Ok(Unpacked(FrontSlots(tokens, front) + [Tuple(Texts(BeforeBack(rest, Demand(tail))))]
                               + BackSlots(rest, tail), []))
  {
    var spec := front + [wild] + tail;
    assert spec == front + ([wild] + tail);
    FirstWildAppend(front, [wild] + tail);
    assert spec[..|front|] == front && spec[|front| + 1..] == tail;
  }

  // Serving one more slot at either end.
  lemma ServeFront(tokens: seq<string>, spec: seq<int>, n: nat)
    requires Fixed(spec) && n > 0
    ensures var left := AfterFront(tokens, Demand(spec));
            && FrontSlots(tokens, spec + [n]) == FrontSlots(tokens, spec) + [Slot(FromFront(left, n))]
            && AfterFront(tokens, Demand(spec + [n])) == AfterFront(left, n)
  {
    var d, cells := Demand(spec), FromFront(AfterFront(tokens, Demand(spec)), n);
    DemandAppend(spec, [n]);
    assert Demand([n]) == n;
    FrontAppend(tokens, d, n);
    CutAppend(FromFront(tokens, d), spec, cells, [n]);
    assert cells[..n] == cells;
    assert Cut(cells, [n]) == [Slot(cells)];
  }

  lemma ServeBack(tokens: seq<string>, spec: seq<int>, n: nat)
    requires Fixed(spec) && n > 0
    ensures var left := BeforeBack(tokens, Demand(spec));
            && Reversed(BackSlots(tokens, [n] + spec)) == Reversed(BackSlots(tokens, spec)) + [Slot(FromBack(left, n))]
            && BeforeBack(tokens, Demand([n] + spec)) == BeforeBack(left, n)
  {
    var d, cells := Demand(spec), FromBack(BeforeBack(tokens, Demand(spec)), n);
    DemandAppend([n], spec);
    assert Demand([n]) == n;
    BackAppend(tokens, n, d);
    CutAppend(cells, [n], FromBack(tokens, d), spec);
    assert cells[..n] == cells;
    assert Cut(cells, [n]) == [Slot(cells)];
    assert BackSlots(tokens, [n] + spec) == [Slot(cells)] + BackSlots(tokens, spec);
  }

  lemma {:induction false} WildStays(spec: seq<int>, h: nat)
    requires h < |spec| && spec[h] < 0
    ensures HasWild(NonZero(spec))
  {
    if h > 0 {
      WildStays(spec[1..], h - 1);
      if spec[0] != 0 {
        assert NonZero(spec)[1..] == NonZero(spec[1..]);
        assert FirstWild(NonZero(spec)) <= 1 + FirstWild(NonZero(spec[1..]));
      }
    }
  }

  lemma NonZeroEnds(spec: seq<int>, k: nat)
    requires k < |spec|
    ensures NonZero(spec[..k + 1]) == if spec[k] == 0 then NonZero(spec[..k]) else NonZero(spec[..k]) + [spec[k]]
    ensures NonZero(spec[k..]) == if spec[k] == 0 then NonZero(spec[k + 1..]) else [spec[k]] + NonZero(spec[k + 1..])
  {
    NonZeroAppend(spec[..k], [spec[k]]);
    assert spec[..k] + [spec[k]] == spec[..k + 1];
    assert NonZero([spec[k]]) == if spec[k] == 0 then [] else [spec[k]];
    assert spec[k..][1..] == spec[k + 1..];
  }

  lemma TwoWildcards(tokens: seq<string>, spec: seq<int>, w: nat, h: nat)
    requires w < h < |spec| && spec[w] < 0 && spec[h] < 0 && Fixed(NonZero(spec[..w]))
    ensures Split(tokens, NonZero(spec)) == Err(TypeError)
  {
    SplitSpec(spec, w);
    WildStays(spec[w + 1..], h - w - 1);
    SplitAround(tokens, NonZero(spec[..w]), spec[w], NonZero(spec[w + 1..]));
  }

  // What the loop has built when it has read spec[..lo] from the front ...
  ghost predicate FrontDone(tokens: seq<string>, spec: seq<int>, lo: nat, args: seq<string>, rv: seq<Value>) {
    lo <= |spec| &&
    var front := NonZero(spec[..lo]);
    Fixed(front) && rv == FrontSlots(tokens, front) && args == AfterFront(tokens, Demand(front))
  }

  // ... and when, past a wildcard at w, it has also read spec[hi..] from the back.
  ghost predicate BackDone(tokens: seq<string>, spec: seq<int>, w: nat, hi: nat, args: seq<string>, rv: seq<Value>, spos: nat) {
    w < hi <= |spec| && spec[w] < 0 &&
    var front, back := NonZero(spec[..w]), NonZero(spec[hi..]);
    Fixed(front) && Fixed(back) &&
    var middle := AfterFront(tokens, Demand(front));
    && args == BeforeBack(middle, Demand(back))
    && spos == |front|
    && rv == FrontSlots(tokens, front) + [Unset] + Reversed(BackSlots(middle, back))
  }

  lemma FrontDoneStart(tokens: seq<string>, spec: seq<int>)
    ensures FrontDone(tokens, spec, 0, tokens, [])
  {
    assert NonZero(spec[..0]) == [];
  }

  lemma FrontDoneStep(tokens: seq<string>, spec: seq<int>, lo: nat, args: seq<string>, rv: seq<Value>)
    requires FrontDone(tokens, spec, lo, args, rv) && lo < |spec|
    ensures spec[lo] == 0 ==> FrontDone(tokens, spec, lo + 1, args, rv)
    ensures spec[lo] > 0 ==> FrontDone(tokens, spec, lo + 1, AfterFront(args, spec[lo]), rv + [Slot(FromFront(args, spec[lo]))])
    ensures spec[lo] < 0 ==> BackDone(tokens, spec, lo, |spec|, args, rv + [Unset], |rv|)
  {
    NonZeroEnds(spec, lo);
    if spec[lo] > 0 {
      ServeFront(tokens, NonZero(spec[..lo]), spec[lo]);
    } else if spec[lo] < 0 {
      assert spec[|spec|..] == [];
      assert BackSlots(args, []) == [] && BeforeBack(args, 0) == args;
    }
  }

  lemma FrontDoneEnd(tokens: seq<string>, spec: seq<int>, args: seq<string>, rv: seq<Value>)
    requires FrontDone(tokens, spec, |spec|, args, rv)
    ensures Split(tokens, NonZero(spec)) == Ok(Unpacked(rv, args))
  {
    assert spec[..|spec|] == spec;
    SplitPlain(tokens, NonZero(spec));
  }

  lemma BackDoneStep(tokens: seq<string>, spec: seq<int>, w: nat, hi: nat, args: seq<string>, rv: seq<Value>, spos: nat)
    requires BackDone(tokens, spec, w, hi, args, rv, spos) && w + 1 < hi
    ensures spec[hi - 1] == 0 ==> BackDone(tokens, spec, w, hi - 1, args, rv, spos)
    ensures spec[hi - 1] > 0 ==>
      BackDone(tokens, spec, w, hi - 1, BeforeBack(args, spec[hi - 1]), rv + [Slot(FromBack(args, spec[hi - 1]))], spos)
    ensures spec[hi - 1] < 0 ==> Split(tokens, NonZero(spec)) == Err(TypeError)
  {
    hide FromFront, FromBack, AfterFront, BeforeBack, Cut, Split, Slot, Demand;
    NonZeroEnds(spec, hi - 1);
    if spec[hi - 1] > 0 {
      ServeBack(AfterFront(tokens, Demand(NonZero(spec[..w]))), NonZero(spec[hi..]), spec[hi - 1]);
    } else if spec[hi - 1] < 0 {
      TwoWildcards(tokens, spec, w, hi - 1);
    }
  }

  // The wildcard gets the remainder, and the slots served backwards are turned around.
  lemma BackDoneEnd(tokens: seq<string>, spec: seq<int>, w: nat, args: seq<string>, rv: seq<Value>, spos: nat)
    requires BackDone(tokens, spec, w, w + 1, args, rv, spos)
    ensures spos < |rv|
    ensures Split(tokens, NonZero(spec)) == Ok(Unpacked(rv[..spos] + [Tuple(Texts(args))] + Reversed(rv[spos + 1..]), []))
  {
    hide FromFront, FromBack, AfterFront, BeforeBack, Cut, Split, Slot, Demand;
    var front, back := NonZero(spec[..w]), NonZero(spec[w + 1..]);
    SplitSpec(spec, w);
    SplitAround(tokens, front, spec[w], back);
    var slots := BackSlots(AfterFront(tokens, Demand(front)), back);
    assert rv[..|front|] == FrontSlots(tokens, front) && rv[|front| + 1..] == Reversed(slots);
    assert Reversed(Reversed(slots)) == slots;
  }

  method UnpackArgs(tokens: seq<string>, nargsSpec: seq<int>) returns (r: Result<Unpacked, Error>)
    ensures r == Split(tokens, NonZero(nargsSpec))
  {
    hide FrontDone, BackDone;
    var args, lo, hi := tokens, 0, |nargsSpec|;
    var rv: seq<Value> := [];
    var spos: Option<nat> := None;
    FrontDoneStart(tokens, nargsSpec);
    while lo < hi
      invariant 0 <= lo <= hi <= |nargsSpec|
      invariant spos.None? ==> hi == |nargsSpec| && FrontDone(tokens, nargsSpec, lo, args, rv)
      invariant spos.Some? ==> lo >= 1 && BackDone(tokens, nargsSpec, lo - 1, hi, args, rv, spos.value)
      decreases hi - lo
    {
      var nargs;
      if spos.None? {
        FrontDoneStep(tokens, nargsSpec, lo, args, rv);
        nargs := nargsSpec[lo];
        lo := lo + 1;
      } else {
        BackDoneStep(tokens, nargsSpec, lo - 1, hi, args, rv, spos.value);
        hi := hi - 1;
        nargs := nargsSpec[hi];
      }
      if nargs >= 1 {
        var slot, rest := TakeSlot(args, nargs, spos.Some?);
        rv := rv + [slot];
        args := rest;
      } else if nargs < 0 {
        if spos.Some? {
          return Err(TypeError);
        }
        spos := Some(|rv|);
        rv := rv + [Unset];
      }
    }
    if spos.Some? {
      BackDoneEnd(tokens, nargsSpec, lo - 1, args, rv, spos.value);
      rv := rv[..spos.value] + [Tuple(Texts(args))] + Reversed(rv[spos.value + 1..]);
      args := [];
    } else {
      FrontDoneEnd(tokens, nargsSpec, args, rv);
    }
    r := Ok(Unpacked(rv, args));
  }

  // ---------------------------------------------------------------- what the split promises

  // The command-line strings inside a slot, in order; UNSET holds none.
  function CellTokens(cells: seq<Value>): seq<string> {
    if cells == [] then []
    else if cells[0].Text? then [cells[0].text] + CellTokens(cells[1..])
    else CellTokens(cells[1..])
  }

  function SlotTokens(slot: Value): seq<string> {
    match slot
    case Text(t) => [t]
    case Tuple(items) => CellTokens(items)
    case _ => []
  }

  function Positionals(slots: seq<Value>): seq<string> {
    if slots == [] then [] else SlotTokens(slots[0]) + Positionals(slots[1..])
  }

  ghost predicate IsRow(cells: seq<Value>) {
    forall i :: 0 <= i < |cells| ==> cells[i].Text? || cells[i].Unset?
  }

  lemma {:induction false} CellTokensAppend(a: seq<Value>, b: seq<Value>)
    ensures CellTokens(a + b) == CellTokens(a) + CellTokens(b)
  {
    if a == [] {
      assert a + b == b;
    } else {
      CellTokensAppend(a[1..], b);
      ConcatTail(a, b);
      if a[0].Text? {
        ConcatAssoc([a[0].text], CellTokens(a[1..]), CellTokens(b));
      }
    }
  }

  lemma {:induction false} PositionalsAppend(a: seq<Value>, b: seq<Value>)
    ensures Positionals(a + b) == Positionals(a) + Positionals(b)
  {
    if a == [] {
      assert a + b == b;
    } else {
      PositionalsAppend(a[1..], b);
      ConcatTail(a, b);
      ConcatAssoc(SlotTokens(a[0]), Positionals(a[1..]), Positionals(b));
    }
  }

  lemma {:induction false} CutTokens(cells: seq<Value>, spec: seq<int>)
    requires Fixed(spec) && |cells| == Demand(spec) && IsRow(cells)
    ensures Positionals(Cut(cells, spec)) == CellTokens(cells)
  {
    if spec != [] {
      var n := spec[0];
      CutTokens(cells[n..], spec[1..]);
      CellTokensAppend(cells[..n], cells[n..]);
      assert cells == cells[..n] + cells[n..];
      assert n == 1 ==> CellTokens(cells[..1]) == SlotTokens(Slot(cells[..1])) by {
        if n == 1 { assert cells[..1][1..] == []; }
      }
      var slots := Cut(cells, spec);
      assert slots[0] == Slot(cells[..n]) && slots[1..] == Cut(cells[n..], spec[1..]);
    }
  }

  // A row of cells holds exactly the arguments at its positions.
  lemma {:induction false} CellsTokens(tokens: seq<string>, start: int, n: nat)
    requires 0 <= start <= start + n <= |tokens|
    ensures CellTokens(Cells(tokens, start, n)) == tokens[start..start + n]
    decreases n
  {
    if n > 0 {
      CellsTokens(tokens, start + 1, n - 1);
      assert Cells(tokens, start, n)[1..] == Cells(tokens, start + 1, n - 1);
      assert tokens[start..start + n] == [tokens[start]] + tokens[start + 1..start + n];
    }
  }

  lemma {:induction false} NoTokens(tokens: seq<string>, start: int, n: nat)
    requires n == 0 || start + n <= 0 || |tokens| <= start
    ensures CellTokens(Cells(tokens, start, n)) == []
    decreases n
  {
    if n > 0 {
      NoTokens(tokens, start + 1, n - 1);
      assert Cells(tokens, start, n)[1..] == Cells(tokens, start + 1, n - 1);
    }
  }

  lemma CellsSplit(tokens: seq<string>, start: int, a: nat, b: nat)
    ensures Cells(tokens, start, a + b) == Cells(tokens, start, a) + Cells(tokens, start + a, b)
  {
  }

  lemma CellsIsRow(tokens: seq<string>, start: int, n: nat)
    ensures IsRow(Cells(tokens, start, n))
  {
  }

  lemma FrontTokens(tokens: seq<string>, n: nat)
    ensures IsRow(FromFront(tokens, n))
    ensures CellTokens(FromFront(tokens, n)) + AfterFront(tokens, n) == tokens
  {
    hide CellTokens, Cells, IsRow;
    CellsIsRow(tokens, 0, n);
    var m := |tokens|;
    if n <= m {
      CellsTokens(tokens, 0, n);
      assert tokens == tokens[0..n] + tokens[n..];
    } else {
      CellsSplit(tokens, 0, m, n - m);
      CellsTokens(tokens, 0, m);
      NoTokens(tokens, m, n - m);
      CellTokensAppend(Cells(tokens, 0, m), Cells(tokens, m, n - m));
      assert tokens == tokens[0..m] + [];
    }
  }

  lemma BackTokens(tokens: seq<string>, n: nat)
    ensures IsRow(FromBack(tokens, n))
    ensures BeforeBack(tokens, n) + CellTokens(FromBack(tokens, n)) == tokens
  {
    hide CellTokens, Cells, IsRow;
    var m := |tokens|;
    CellsIsRow(tokens, m - n, n);
    if n <= m {
      CellsTokens(tokens, m - n, n);
      assert tokens == tokens[..m - n] + tokens[m - n..m];
    } else {
      CellsSplit(tokens, m - n, n - m, m);
      CellsTokens(tokens, 0, m);
      NoTokens(tokens, m - n, n - m);
      CellTokensAppend(Cells(tokens, m - n, n - m), Cells(tokens, 0, m));
      assert tokens == [] + tokens[0..m];
    }
  }

  lemma {:induction false} TextsTokens(tokens: seq<string>)
    ensures CellTokens(Texts(tokens)) == tokens
  {
    if tokens != [] {
      TextsTokens(tokens[1..]);
      assert Texts(tokens)[1..] == Texts(tokens[1..]);
    }
  }

  // The shape of a successful split.
  lemma SplitParts(tokens: seq<string>, spec: seq<int>)
    requires forall i :: 0 <= i < |spec| ==> spec[i] != 0
    requires Split(tokens, spec).Ok?
    ensures var w, u := FirstWild(spec), Split(tokens, spec).value;
            && |u.slots| == |spec| && Fixed(spec[..w])
            && (w == |spec| ==> u == Unpacked(FrontSlots(tokens, spec[..w]), AfterFront(tokens, Demand(spec[..w]))))
            && (w < |spec| ==>
                  var rest := AfterFront(tokens, Demand(spec[..w]));
                  var middle := Tuple(Texts(BeforeBack(rest, Demand(spec[w + 1..]))));
                  && Fixed(spec[w + 1..])
                  && u == Unpacked(FrontSlots(tokens, spec[..w]) + [middle] + BackSlots(rest, spec[w + 1..]), []))
  {
    hide Cut, Cells, FromFront, FromBack, AfterFront, BeforeBack, Demand, FrontSlots, BackSlots;
  }

  // Main result: nothing is invented, dropped, duplicated or reordered.
  lemma SplitConserves(tokens: seq<string>, spec: seq<int>)
    requires forall i :: 0 <= i < |spec| ==> spec[i] != 0
    requires Split(tokens, spec).Ok?
    ensures var u := Split(tokens, spec).value;
            |u.slots| == |spec| && Positionals(u.slots) + u.rest == tokens
  {
    hide Cut, FromFront, FromBack, AfterFront, BeforeBack, Demand, CellTokens, Split;
    SplitParts(tokens, spec);
    var w := FirstWild(spec);
    var front := spec[..w];
    var a := Demand(front);
    FrontTokens(tokens, a);
    CutTokens(FromFront(tokens, a), front);
    if w < |spec| {
      var rest, back := AfterFront(tokens, a), spec[w + 1..];
      var b := Demand(back);
      BackTokens(rest, b);
      CutTokens(FromBack(rest, b), back);
      ThreeParts(FrontSlots(tokens, front), BeforeBack(rest, b), BackSlots(rest, back));
    }
  }

  lemma ThreeParts(front: seq<Value>, middle: seq<string>, back: seq<Value>)
    ensures Positionals(front + [Tuple(Texts(middle))] + back) == Positionals(front) + (middle + Positionals(back))
  {
    hide Texts, CellTokens;
    TextsTokens(middle);
    var m := [Tuple(Texts(middle))];
    PositionalsAppend(front + m, back);
    PositionalsAppend(front, m);
    assert m[1..] == [];
    assert Positionals(m) == SlotTokens(m[0]) + [];
    ConcatAssoc(Positionals(front), middle, Positionals(back));
  }

  // The split fails exactly when two slots are wildcards.
  lemma SplitFailsExactly(tokens: seq<string>, spec: seq<int>)
    requires forall i :: 0 <= i < |spec| ==> spec[i] != 0
    ensures Split(tokens, spec).Err? <==> exists i, j :: 0 <= i < j < |spec| && spec[i] < 0 && spec[j] < 0
  {
    var w := FirstWild(spec);
    if w < |spec| {
      var back := spec[w + 1..];
      if HasWild(back) {
        var j := FirstWild(back);
        assert spec[w] < 0 && spec[w + 1 + j] < 0;
      }
      forall i, j | 0 <= i < j < |spec| && spec[i] < 0 && spec[j] < 0 ensures HasWild(back) {
        assert back[j - w - 1] < 0;
      }
    }
  }

  lemma {:induction false} CutAt(cells: seq<Value>, spec: seq<int>, i: nat)
    requires Fixed(spec) && |cells| == Demand(spec) && i < |spec|
    ensures Demand(spec[..i]) + spec[i] <= |cells|
    ensures var d := Demand(spec[..i]); Cut(cells, spec)[i] == Slot(cells[d..d + spec[i]])
  {
    hide Slot;
    if i > 0 {
      var n := spec[0];
      CutAt(cells[n..], spec[1..], i - 1);
      assert spec[..i][1..] == spec[1..][..i - 1];
      var d := Demand(spec[1..][..i - 1]);
      PieceOfRest(cells, n, d, d + spec[i]);
    }
  }

  lemma DemandSplit(spec: seq<int>, i: nat)
    requires i < |spec| && spec[i] > 0
    ensures Demand(spec) == Demand(spec[..i]) + Demand(spec[i..])
    ensures Demand(spec[i..]) == spec[i] + Demand(spec[i + 1..])
  {
    DemandAppend(spec[..i], spec[i..]);
    assert spec == spec[..i] + spec[i..];
    assert spec[i..][1..] == spec[i + 1..];
  }

  lemma CellsPiece(tokens: seq<string>, start: int, n: nat, a: nat, k: nat)
    requires a + k <= n
    ensures Cells(tokens, start, n)[a..a + k] == Cells(tokens, start + a, k)
  {
  }

  lemma FrontSlotAt(tokens: seq<string>, spec: seq<int>, i: nat)
    requires Fixed(spec) && i < |spec|
    ensures FrontSlots(tokens, spec)[i] == Slot(Cells(tokens, Demand(spec[..i]), spec[i]))
  {
    hide Cut, Demand, Cells, Slot;
    var n, d, k := Demand(spec), Demand(spec[..i]), spec[i];
    var row := FromFront(tokens, n);
    CutAt(row, spec, i);
    CellsPiece(tokens, 0, n, d, k);
    assert FrontSlots(tokens, spec)[i] == Cut(row, spec)[i] == Slot(row[d..d + k]);
  }

  lemma BackSlotAt(tokens: seq<string>, spec: seq<int>, i: nat)
    requires Fixed(spec) && i < |spec|
    ensures BackSlots(tokens, spec)[i] == Slot(Cells(tokens, |tokens| - Demand(spec[i..]), spec[i]))
  {
    hide Cut, Demand, Cells, Slot;
    var n, d := Demand(spec), Demand(spec[..i]);
    CutAt(FromBack(tokens, n), spec, i);
    DemandSplit(spec, i);
    CellsPiece(tokens, |tokens| - n, n, d, spec[i]);
  }

  // Each slot, stated by position: the front slots count their offset from the first argument, the
  // back slots from the last one, and the wildcard holds what lies between.
  lemma SlotIsSlice(tokens: seq<string>, spec: seq<int>, i: nat)
    requires forall i :: 0 <= i < |spec| ==> spec[i] != 0
    requires Split(tokens, spec).Ok? && i < |spec|
    ensures var slots, w := Split(tokens, spec).value.slots, FirstWild(spec);
            var rest := AfterFront(tokens, Demand(spec[..w]));
            && |slots| == |spec|
            && (i < w ==> slots[i] == Slot(Cells(tokens, Demand(spec[..i]), spec[i])))
            && (i > w ==> spec[i] > 0 && slots[i] == Slot(Cells(rest, |rest| - Demand(spec[i..]), spec[i])))
            && (i == w ==> slots[i] == Tuple(Texts(BeforeBack(rest, Demand(spec[i + 1..])))))
  {
    hide Cut, Cells, FromFront, FromBack, AfterFront, BeforeBack, Demand, Slot, FrontSlots, BackSlots, Split;
    SplitParts(tokens, spec);
    var w := FirstWild(spec);
    var front := spec[..w];
    if i < w {
      FrontSlotAt(tokens, front, i);
      assert front[..i] == spec[..i];
    } else if i > w {
      BackSlotAt(AfterFront(tokens, Demand(front)), spec[w + 1..], i - w - 1);
      assert spec[w + 1..][i - w - 1..] == spec[i..];
    }
  }

  ghost predicate NoHole(slot: Value) {
    slot.Text? || (slot.Tuple? && forall i :: 0 <= i < |slot.items| ==> slot.items[i].Text?)
  }

  lemma FullSlot(tokens: seq<string>, start: int, n: int)
    requires n > 0 && 0 <= start && start + n <= |tokens|
    ensures NoHole(Slot(Cells(tokens, start, n)))
  {
  }

  lemma FrontSlotFull(tokens: seq<string>, spec: seq<int>, i: nat)
    requires Fixed(spec) && i < |spec| && Demand(spec) <= |tokens|
    ensures NoHole(FrontSlots(tokens, spec)[i])
  {
    hide Demand, FrontSlots, NoHole, Cells, Slot;
    DemandSplit(spec, i);
    FrontSlotAt(tokens, spec, i);
    FullSlot(tokens, Demand(spec[..i]), spec[i]);
  }

  lemma BackSlotFull(tokens: seq<string>, spec: seq<int>, i: nat)
    requires Fixed(spec) && i < |spec| && Demand(spec) <= |tokens|
    ensures NoHole(BackSlots(tokens, spec)[i])
  {
    hide Demand, BackSlots, NoHole, Cells, Slot;
    DemandSplit(spec, i);
    BackSlotAt(tokens, spec, i);
    FullSlot(tokens, |tokens| - Demand(spec[i..]), spec[i]);
  }

  // A wildcard that received anything at all means that every slot is full.
  lemma WildcardFull(tokens: seq<string>, spec: seq<int>, i: nat)
    requires forall i :: 0 <= i < |spec| ==> spec[i] != 0
    requires Split(tokens, spec).Ok? && HasWild(spec) && i < |spec|
    requires |Split(tokens, spec).value.slots| == |spec| ==> Split(tokens, spec).value.slots[FirstWild(spec)] != Tuple([])
    ensures var slots := Split(tokens, spec).value.slots; |slots| == |spec| && NoHole(slots[i])
  {
    hide Demand, Split, FrontSlots, BackSlots;
    SplitParts(tokens, spec);
    var w := FirstWild(spec);
    var front, back := spec[..w], spec[w + 1..];
    var rest := AfterFront(tokens, Demand(front));
    assert BeforeBack(rest, Demand(back)) != [];
    if i < w {
      FrontSlotFull(tokens, front, i);
    } else if i > w {
      BackSlotFull(rest, back, i - w - 1);
    }
  }
}
