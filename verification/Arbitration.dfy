/** How a command's parameters reach `ctx.params`: `Parameter.process_value`, `handle_parse_result`
    and the parameter loop of `Command.parse_args`. */
module Arbitration {
  import opened CliValues

  // A processed value: the sentinel, None, False, the empty tuple, or anything else.
  datatype Datum = Unset | Null | False | Empty | Obj(id: nat)

  type Params = map<string, Datum>

  // What a callback does: it can change `ctx.params`, and it returns or raises.
  datatype Reply = Returned(params: Params, value: Datum) | Raised(params: Params)

  type Opts = map<string, Value>

  // |boolFlag|: an option that is a boolean flag.  |read|: what a value that the parser stored counts
  // as, so that an omitted value is a flag's own.  |fallback|: what environment, default map and default
  // yield.  |convert|: the conversion of a value that is not None, failing where the type does.
  datatype Param = Param(
    name: string,
    exposed: bool,
    multiple: bool,
    nargs: int,
    required: bool,
    boolFlag: bool,
    read: Value -> Datum,
    fallback: Datum,
    convert: Datum -> Option<Datum>,
    callback: Option<(Params, Datum) -> Reply>
  )

  // `consume_value`, without prompts.
  function Consume(p: Param, opts: Opts): Datum {
    if p.name in opts && !opts[p.name].Unset? then p.read(opts[p.name]) else p.fallback
  }

  // What the constructor of an option sees to: a boolean flag that is not required has the default
  // False, so that it is never unset.
  ghost predicate WellBuilt(p: Param) {
    p.boolFlag && !p.required ==> !p.fallback.Unset? && forall v: Value :: !p.read(v).Unset?
  }

  function Shown(v: Datum): Datum {
    if v.Unset? then Null else v
  }

  function Masked(m: Params): (r: Params)
    ensures r.Keys == m.Keys && forall k :: k in m ==> r[k] == Shown(m[k]) && !r[k].Unset?
  {
    map k | k in m :: Shown(m[k])
  }

  function UnsetKeys(m: Params): (r: set<string>)
    ensures forall k :: k in r <==> k in m && m[k].Unset?
  {
    set k | k in m && m[k].Unset?
  }

  function Restored(keys: set<string>, m: Params): (r: Params)
    ensures r.Keys == m.Keys
    ensures forall k :: k in m ==> r[k] == if k in keys && m[k].Null? then Datum.Unset else m[k]
  {
    map k | k in m :: if k in keys && m[k].Null? then Datum.Unset else m[k]
  }

  function TypeCast(p: Param, v: Datum): Option<Datum> {
    if v.Null? then Some(if p.multiple || p.nargs == -1 then Empty else Null) else p.convert(v)
  }

  predicate ValueIsMissing(p: Param, v: Datum) {
    v.Unset? || ((p.nargs != 1 || p.multiple) && v.Empty?)
  }

  // Everything before the callback; nothing when the conversion fails or a required value is missing.
  function Prepared(p: Param, v: Datum): Option<Datum> {
    var w := if !v.Unset? then TypeCast(p, v) else Some(if p.multiple || p.nargs == -1 then Empty else Datum.Unset);
    if w.Some? && p.required && ValueIsMissing(p, w.value) then None else w
  }

  // `Option.process_value` answers for an unset boolean flag itself.
  predicate AnswersItself(p: Param, v: Datum) {
    p.boolFlag && !p.required && v.Unset?
  }

  // What the callback of |p| is given.
  function Given(p: Param, m: Params, v: Datum): (Params, Datum)
    requires AnswersItself(p, v) || Prepared(p, v).Some?
  {
    if AnswersItself(p, v) then (m, False)
    else if UnsetKeys(m) == {} then (m, Shown(Prepared(p, v).value))
    else (Masked(m), Shown(Prepared(p, v).value))
  }

  function ProcessValue(p: Param, m: Params, v: Datum): Reply {
    if AnswersItself(p, v) then
      if p.callback.None? then Returned(m, False) else p.callback.value(m, False)
    else
      var w := Prepared(p, v);
      if w.None? then Raised(m)
      else if p.callback.None? then Returned(m, w.value)
      else
        var given := Given(p, m, v);
        match p.callback.value(given.0, given.1)
        case Returned(m', r) => Returned(Restored(UnsetKeys(m), m'), r)
        case Raised(m') => Raised(m')
  }

  datatype Handled = Done(params: Params, value: Datum) | Failed(params: Params)

  function Stored(p: Param, m: Params, v: Datum): Params {
    if p.exposed && (p.name !in m || m[p.name].Unset?) then m[p.name := v] else m
  }

  function HandleParseResult(resilient: bool, p: Param, opts: Opts, m: Params): Handled {
    match ProcessValue(p, m, Consume(p, opts))
    case Returned(m', v) => Done(Stored(p, m', v), v)
    case Raised(m') => if resilient then Done(Stored(p, m', Datum.Unset), Datum.Unset) else Failed(m')
  }

  // A callback at work: the map and the value it is given, and the map it leaves.
  datatype Call = Call(shown: Params, arg: Datum, left: Params, raised: bool)

  function CallOf(p: Param, m: Params, v: Datum): Option<Call> {
    if p.callback.None? || !(AnswersItself(p, v) || Prepared(p, v).Some?) then None
    else
      var given := Given(p, m, v);
      var reply := p.callback.value(given.0, given.1);
      Some(Call(given.0, given.1, reply.params, reply.Raised?))
  }

  // The callback raises after the unset values were hidden, and before they are put back.
  predicate LeavesMask(p: Param, m: Params, v: Datum) {
    !AnswersItself(p, v) && CallOf(p, m, v).Some? && CallOf(p, m, v).value.raised
  }

  // The loop of `parse_args`; |steps| records what each parameter did.
  datatype Step = Step(name: string, exposed: bool, value: Datum, masks: bool, call: Option<Call>)

  datatype Ran = Ran(params: Params, steps: seq<Step>, failed: bool)

  function StepOf(p: Param, opts: Opts, m: Params, value: Datum): Step {
    var v := Consume(p, opts);
    Step(p.name, p.exposed, value, LeavesMask(p, m, v), CallOf(p, m, v))
  }

  function RunParams(resilient: bool, ps: seq<Param>, opts: Opts, m: Params): Ran {
    if ps == [] then Ran(m, [], false)
    else
      match HandleParseResult(resilient, ps[0], opts, m)
      case Failed(m') => Ran(m', [StepOf(ps[0], opts, m, Datum.Unset)], true)
      case Done(m', v) =>
        var r := RunParams(resilient, ps[1..], opts, m');
        r.(steps := [StepOf(ps[0], opts, m, v)] + r.steps)
  }

  class Context {
    var params: Params
    const resilient: bool

    constructor (resilient: bool)
      ensures params == map[] && this.resilient == resilient
    {
      this.params := map[];
      this.resilient := resilient;
    }

    method CallBack(p: Param, v: Datum) returns (value: Option<Datum>)
      requires p.callback.Some?
      modifies this
      ensures var r := p.callback.value(old(params), v);
              params == r.params && value == if r.Returned? then Some(r.value) else None
    {
      var r := p.callback.value(params, v);
      params := r.params;
      value := if r.Returned? then Some(r.value) else None;
    }

    // A raised exception is the answer None.
    method Process(p: Param, v: Datum) returns (value: Option<Datum>)
      modifies this
      ensures var r := ProcessValue(p, old(params), v);
              params == r.params && value == if r.Returned? then Some(r.value) else None
    {
      if p.boolFlag && !p.required && v.Unset? {
        value := Some(False);
        if p.callback.Some? {
          value := CallBack(p, False);
        }
        return;
      }
      if v.Unset? {
        value := Some(if p.multiple || p.nargs == -1 then Empty else Datum.Unset);
      } else {
        value := TypeCast(p, v);
      }
      if value.None? || (p.required && ValueIsMissing(p, value.value)) {
        return None;
      }
      if p.callback.Some? {
        var unset := UnsetKeys(params);
        var arg := Shown(value.value);
        if unset == {} {
          value := CallBack(p, arg);
          assert params == Restored({}, params);
        } else {
          params := Masked(params);
          value := CallBack(p, arg);
          if value.Some? {
            params := Restored(unset, params);
          }
        }
      }
    }

    method HandleResult(p: Param, opts: Opts) returns (value: Option<Datum>)
      modifies this
      ensures match HandleParseResult(resilient, p, opts, old(params))
              case Done(m, v) => params == m && value == Some(v)
              case Failed(m) => params == m && value.None?
    {
      value := Process(p, Consume(p, opts));
      if value.None? {
        if !resilient {
          return;
        }
        value := Some(Datum.Unset);
      }
      if p.exposed && (p.name !in params || params[p.name].Unset?) {
        params := params[p.name := value.value];
      }
    }

    // The last loop of `parse_args`, over the items of `ctx.params`.
    method HideUnset()
      modifies this
      ensures params == Masked(old(params))
    {
      var names := params.Keys;
      while names != {}
        invariant names <= params.Keys == old(params).Keys
        invariant forall k :: k in params ==> params[k] == if k in names then old(params)[k] else Shown(old(params)[k])
        decreases |names|
      {
        var name :| name in names;
        if params[name].Unset? {
          params := params[name := Null];
        }
        names := names - {name};
      }
    }

    // The parameter part of `parse_args`.
    method ParseArgs(ps: seq<Param>, opts: Opts) returns (ok: bool)
      modifies this
      ensures var r := RunParams(resilient, ps, opts, old(params));
              ok == !r.failed && params == if ok then Masked(r.params) else r.params
    {
      var i := 0;
      while i < |ps|
        invariant i <= |ps|
        invariant var r, q := RunParams(resilient, ps, opts, old(params)), RunParams(resilient, ps[i..], opts, params);
                  q.params == r.params && q.failed == r.failed
      {
        var value := HandleResult(ps[i], opts);
        assert ps[i..][1..] == ps[i + 1..];
        if value.None? {
          return false;
        }
        i := i + 1;
      }
      HideUnset();
      ok := true;
    }
  }
}
