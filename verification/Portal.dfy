/** `BlockingPortalProvider`: a portal leased by any number of threads.  Entering and leaving happen
    under the provider's lock, shutting a portal down does not. */
module Portal {
  import opened CliValues

  /** What entering can raise: the start-up itself, or reading `_portal` when it was never set. */
  datatype EnterError = StartupFailed | NoPortalAttribute

  class BlockingPortalProvider {
    var leases: nat
    var portalCm: Option<nat>   // the context manager of a portal, identified by the portal's number
    var portal: Option<nat>

    constructor ()
      ensures leases == 0 && portalCm == None && portal == None
    {
      leases, portalCm, portal := 0, None, None;
    }

    function View(): Provider
      reads this
    {
      Provider(leases, portalCm, portal)
    }

    // `__enter__`, all of it under the lock; `id` numbers the portal that would be started.
    method Enter(id: nat, startsUp: bool) returns (r: Result<nat, EnterError>)
      modifies this
      ensures (View(), r) == EnterLocked(old(View()), id, startsUp)
    {
      if portalCm.None? {
        portalCm := Some(id);
        if !startsUp {
          return Err(StartupFailed);
        }
        portal := Some(id);
      }
      leases := leases + 1;
      r := if portal.Some? then Ok(portal.value) else Err(NoPortalAttribute);
    }

    // `__exit__`, the part under the lock: the portal to be shut down afterwards, if any.
    method Leave() returns (toClose: Option<nat>)
      requires leases > 0 && portalCm.Some?
      modifies this
      ensures (View(), toClose) == LeaveLocked(old(View()))
    {
      toClose := None;
      leases := leases - 1;
      if leases == 0 {
        toClose := portalCm;
        portalCm := None;
        portal := None;
      }
    }
  }

  datatype Provider = Provider(leases: nat, cm: Option<nat>, portal: Option<nat>)

  function EnterLocked(p: Provider, id: nat, startsUp: bool): (Provider, Result<nat, EnterError>) {
    if p.cm.None? && !startsUp then (p.(cm := Some(id)), Err(StartupFailed))
    else
      var q := if p.cm.None? then p.(cm := Some(id), portal := Some(id)) else p;
      (q.(leases := q.leases + 1), if q.portal.Some? then Ok(q.portal.value) else Err(NoPortalAttribute))
  }

  function LeaveLocked(p: Provider): (Provider, Option<nat>)
    requires p.leases > 0
  {
    if p.leases == 1 then (Provider(0, None, None), p.cm) else (p.(leases := p.leases - 1), None)
  }

  // ---------------------------------------------------------------- any number of threads

  /** The provider, who holds which portal, who is shutting which portal down, the number of portals
      started so far, and the portals that have been exited, in order. */
  datatype System = System(p: Provider, held: map<nat, nat>, closing: map<nat, nat>, started: nat, exits: seq<nat>)

  /** A lease is one passage of one thread through the `with` block. */
  datatype Event = Enter(lease: nat, startsUp: bool) | Leave(lease: nat) | ShutDown(lease: nat)

  const INITIAL := System(Provider(0, None, None), map[], map[], 0, [])

  ghost predicate Enabled(s: System, e: Event) {
    match e
    case Enter(l, _) => l !in s.held && l !in s.closing
    case Leave(l) => l in s.held && s.p.leases > 0
    case ShutDown(l) => l in s.closing
  }

  ghost function Next(s: System, e: Event): System
    requires Enabled(s, e)
  {
    match e
    case Enter(l, startsUp) =>
      var (q, r) := EnterLocked(s.p, s.started, startsUp);
      System(q, if r.Ok? then s.held[l := r.value] else s.held, s.closing,
             if s.p.cm.None? then s.started + 1 else s.started, s.exits)
    case Leave(l) =>
      var (q, toClose) := LeaveLocked(s.p);
      System(q, s.held - {l}, if toClose.Some? then s.closing[l := toClose.value] else s.closing, s.started, s.exits)
    case ShutDown(l) => s.(closing := s.closing - {l}, exits := s.exits + [s.closing[l]])
  }

  ghost function After(events: seq<Event>): System {
    if events == [] then INITIAL
    else
      var s, e := After(events[..|events| - 1]), events[|events| - 1];
      if Enabled(s, e) then Next(s, e) else s
  }

  // Every start-up attempted in these events succeeds.
  ghost predicate StartsUp(events: seq<Event>) {
    forall e :: e in events && e.Enter? ==> e.startsUp
  }

  ghost predicate Running(s: System, id: nat) {
    id < s.started && id !in s.exits
  }

  // _leases counts the holders, a current portal exists exactly when there are any, and it is the
  // one they all hold.
  ghost predicate LeasesAgree(s: System) {
    && s.p.leases == |s.held|
    && s.p.portal == s.p.cm && (s.p.cm.Some? <==> s.p.leases > 0)
    && (forall l :: l in s.held ==> s.p.cm == Some(s.held[l]))
    && s.held.Keys !! s.closing.Keys
  }

  // Every portal started is current, or being shut down by one thread, or has been exited once.
  ghost predicate PortalsAgree(s: System) {
    && (s.p.cm.Some? ==> s.p.cm.value < s.started && s.p.cm.value !in s.exits && s.p.cm.value !in s.closing.Values)
    && (forall l :: l in s.closing ==> s.closing[l] < s.started && s.closing[l] !in s.exits)
    && (forall l, m :: l in s.closing && m in s.closing && s.closing[l] == s.closing[m] ==> l == m)
    && (forall i, j :: 0 <= i < j < |s.exits| ==> s.exits[i] != s.exits[j])
    && (forall id :: id in s.exits ==> id < s.started)
    && (forall id :: 0 <= id < s.started ==> id in s.exits || id in s.closing.Values || s.p.cm == Some(id))
  }

  ghost predicate Sound(s: System) {
    LeasesAgree(s) && PortalsAgree(s)
  }

  lemma EnterKeepsPortals(s: System, l: nat, startsUp: bool)
    requires PortalsAgree(s) && Enabled(s, Enter(l, startsUp))
    ensures PortalsAgree(Next(s, Enter(l, startsUp)))
  {
  }

  lemma EnterKeeps(s: System, l: nat, startsUp: bool)
    requires Sound(s) && Enabled(s, Enter(l, startsUp)) && (startsUp || s.p.cm.Some?)
    ensures Sound(Next(s, Enter(l, startsUp)))
  {
    EnterKeepsPortals(s, l, startsUp);
    hide LeasesAgree, PortalsAgree, Next;
  }

  lemma LeaveKeepsPortals(s: System, l: nat)
    requires PortalsAgree(s) && Enabled(s, Leave(l)) && s.p.cm.Some? && l !in s.closing
    ensures PortalsAgree(Next(s, Leave(l)))
  {
    var n := Next(s, Leave(l));
    if s.p.leases == 1 {
      assert n.closing[l] == s.p.cm.value;
      forall id | id in s.closing.Values ensures id in n.closing.Values {
        var m :| m in s.closing && s.closing[m] == id;
        assert n.closing[m] == id;
      }
    }
  }

  lemma LeaveKeeps(s: System, l: nat)
    requires Sound(s) && Enabled(s, Leave(l))
    ensures Sound(Next(s, Leave(l)))
  {
    LeaveKeepsPortals(s, l);
    hide LeasesAgree, PortalsAgree, Next;
  }

  lemma ShutDownKeepsPortals(s: System, l: nat)
    requires PortalsAgree(s) && Enabled(s, ShutDown(l))
    ensures PortalsAgree(Next(s, ShutDown(l)))
  {
    var n := Next(s, ShutDown(l));
    assert s.closing[l] in s.closing.Values;
    assert n.exits[|s.exits|] == s.closing[l];
    forall i | 0 <= i < |s.exits| ensures n.exits[i] == s.exits[i] && s.exits[i] != s.closing[l] {
      assert s.exits[i] in s.exits;
    }
    forall id | id in s.closing.Values && id != s.closing[l] ensures id in n.closing.Values {
      var m :| m in s.closing && s.closing[m] == id;
      assert n.closing[m] == id;
    }
  }

  lemma ShutDownKeeps(s: System, l: nat)
    requires Sound(s) && Enabled(s, ShutDown(l))
    ensures Sound(Next(s, ShutDown(l)))
  {
    ShutDownKeepsPortals(s, l);
    hide PortalsAgree;
  }

  // Main result: for any number of threads entering and leaving in any order, with successful
  // start-ups, the leases are counted, no holder's portal is ever being shut down, and every portal
  // that was started is exited exactly once, after its last lease has been returned.
  lemma {:induction false} AlwaysSound(events: seq<Event>)
    requires StartsUp(events)
    ensures Sound(After(events))
  {
    if events != [] {
      var s, e := After(events[..|events| - 1]), events[|events| - 1];
      AlwaysSound(events[..|events| - 1]);
      if Enabled(s, e) {
        match e
        case Enter(l, up) => EnterKeeps(s, l, up);
        case Leave(l) => LeaveKeeps(s, l);
        case ShutDown(l) => ShutDownKeeps(s, l);
      }
    }
  }

  // What a thread inside the `with` block can rely on, and what is left when all have gone.
  lemma HoldersAreSafe(events: seq<Event>)
    requires StartsUp(events)
    ensures var s := After(events);
            && (forall l :: l in s.held ==> Running(s, s.held[l]) && s.held[l] !in s.closing.Values)
            && (forall l, m :: l in s.held && m in s.held ==> s.held[l] == s.held[m])
            && (s.held == map[] && s.closing == map[] ==> forall id :: 0 <= id < s.started ==> multiset(s.exits)[id] == 1)
  {
    AlwaysSound(events);
    var s := After(events);
    if s.held == map[] && s.closing == map[] {
      forall id | 0 <= id < s.started ensures multiset(s.exits)[id] == 1 {
        OnceInExits(s.exits, id);
      }
    }
  }

  lemma {:induction false} OnceInExits(exits: seq<nat>, id: nat)
    requires forall i, j :: 0 <= i < j < |exits| ==> exits[i] != exits[j]
    ensures multiset(exits)[id] == if id in exits then 1 else 0
  {
    if exits != [] {
      OnceInExits(exits[1..], id);
      assert exits == [exits[0]] + exits[1..];
    }
  }

  // The portals running at a moment: the current one, and those still being shut down.
  lemma RunningExactly(events: seq<Event>, id: nat)
    requires StartsUp(events)
    ensures var s := After(events); Running(s, id) <==> s.p.cm == Some(id) || id in s.closing.Values
  {
    AlwaysSound(events);
  }

  // Main result: while a thread is inside, exactly one portal is running if and only if no shutdown is
  // under way.
  lemma OnlyOneExactly(events: seq<Event>)
    requires StartsUp(events) && After(events).held != map[]
    ensures var s := After(events);
            (exists id: nat :: Running(s, id) && forall j: nat :: Running(s, j) ==> j == id) <==> s.closing == map[]
  {
    var s := After(events);
    AlwaysSound(events);
    var l :| l in s.held;
    assert Running(s, s.held[l]);
    forall j: nat ensures Running(s, j) <==> s.p.cm == Some(j) || j in s.closing.Values {
      RunningExactly(events, j);
    }
    if s.closing != map[] {
      var m :| m in s.closing;
      assert s.closing[m] in s.closing.Values;
      assert Running(s, s.closing[m]) && s.closing[m] != s.held[l];
    }
  }

  lemma AfterStep(events: seq<Event>, e: Event)
    requires Enabled(After(events), e)
    ensures After(events + [e]) == Next(After(events), e)
  {
    assert (events + [e])[..|events|] == events;
  }

  // Two portals can run side by side: a thread enters while the last one to leave is shutting down.
  lemma TwoAtOnce() returns (events: seq<Event>)
    ensures StartsUp(events)
    ensures var s := After(events); Running(s, 0) && Running(s, 1) && s.p.cm == Some(1)
  {
    var e1, e2, e3 := Enter(0, true), Leave(0), Enter(1, true);
    AfterStep([], e1);
    assert [] + [e1] == [e1];
    AfterStep([e1], e2);
    AfterStep([e1] + [e2], e3);
    events := [e1] + [e2] + [e3];
  }

  // ---------------------------------------------------------------- failing start-ups

  // Entering keeps the provider sound exactly when the start-up succeeds or none is needed.
  lemma EnterExactly(s: System, l: nat, startsUp: bool)
    requires Sound(s) && Enabled(s, Enter(l, startsUp))
    ensures Sound(Next(s, Enter(l, startsUp))) <==> startsUp || s.p.cm.Some?
  {
    if startsUp || s.p.cm.Some? {
      EnterKeeps(s, l, startsUp);
    }
  }

  // The context manager is set, but nobody holds a lease and there is no portal.
  ghost predicate Poisoned(s: System) {
    s.p.cm.Some? && s.p.portal.None? && s.held == map[]
  }

  ghost function From(s: System, events: seq<Event>): System
    decreases |events|
  {
    if events == [] then s
    else From(if Enabled(s, events[0]) then Next(s, events[0]) else s, events[1..])
  }

  // After one failed start-up no thread ever gets a portal again: every later entry raises.
  lemma {:induction false} FailedStartPoisons(s: System, l: nat, events: seq<Event>)
    requires Sound(s) && s.p.cm.None? && Enabled(s, Enter(l, false))
    ensures Poisoned(From(Next(s, Enter(l, false)), events))
  {
    assert s.held == map[] by { assert |s.held| == 0; }
    StaysPoisoned(Next(s, Enter(l, false)), events);
  }

  lemma {:induction false} StaysPoisoned(s: System, events: seq<Event>)
    requires Poisoned(s)
    ensures Poisoned(From(s, events))
    decreases |events|
  {
    if events != [] {
      StaysPoisoned(if Enabled(s, events[0]) then Next(s, events[0]) else s, events[1..]);
    }
  }
}
