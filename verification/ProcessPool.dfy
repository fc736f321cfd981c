/** The worker-process pool of `to_process.run_sync`, stepped by any number of tasks.
    A task owns the process it has checked out until it returns or discards it. */
module ProcessPool {
  import opened CliValues

  type Pid = nat

  const WORKER_MAX_IDLE_TIME := 300.0

  // ---------------------------------------------------------------- the checkout, declaratively

  // The right-most idle worker that has not exited, or |idle|.
  function LastLive(idle: seq<(Pid, real)>, dead: set<Pid>): (j: nat)
    ensures j <= |idle|
    ensures j < |idle| ==> idle[j].0 !in dead && forall i :: j < i < |idle| ==> idle[i].0 in dead
    ensures j == |idle| ==> forall i :: 0 <= i < |idle| ==> idle[i].0 in dead
  {
    if idle == [] then 0
    else
      var n := |idle| - 1;
      if idle[n].0 !in dead then n
      else
        var j := LastLive(idle[..n], dead);
        if j == n then n + 1 else j
  }

  // The left-most idle worker that has not reached the limit, or |idle|.
  function FirstYoung(idle: seq<(Pid, real)>, now: real): (m: nat)
    ensures m <= |idle|
    ensures m < |idle| ==> now - idle[m].1 < WORKER_MAX_IDLE_TIME
    ensures forall i :: 0 <= i < m ==> now - idle[i].1 >= WORKER_MAX_IDLE_TIME
  {
    if idle == [] || now - idle[0].1 < WORKER_MAX_IDLE_TIME then 0 else 1 + FirstYoung(idle[1..], now)
  }

  // Where pruning stops: at the left-most idle worker that is young, or whose kill raises because it
  // has exited, or at the end.
  function PruneStop(idle: seq<(Pid, real)>, dead: set<Pid>, now: real): (s: nat)
    ensures s <= |idle|
    ensures s < |idle| ==> now - idle[s].1 < WORKER_MAX_IDLE_TIME || idle[s].0 in dead
    ensures forall i :: 0 <= i < s ==> now - idle[i].1 >= WORKER_MAX_IDLE_TIME && idle[i].0 !in dead
  {
    if idle == [] || now - idle[0].1 < WORKER_MAX_IDLE_TIME || idle[0].0 in dead then 0 else 1 + PruneStop(idle[1..], dead, now)
  }

  // A kill raises before all expired workers are gone.
  predicate Breaks(idle: seq<(Pid, real)>, dead: set<Pid>, now: real) {
    var s := PruneStop(idle, dead, now);
    s < |idle| && now - idle[s].1 >= WORKER_MAX_IDLE_TIME
  }

  // Pruning breaks off if and only if a worker before the first young one has exited.
  lemma BreaksExactly(idle: seq<(Pid, real)>, dead: set<Pid>, now: real)
    ensures Breaks(idle, dead, now) <==> exists i :: 0 <= i < FirstYoung(idle, now) && idle[i].0 in dead
    ensures !Breaks(idle, dead, now) ==> PruneStop(idle, dead, now) == FirstYoung(idle, now)
  {
    var s, m := PruneStop(idle, dead, now), FirstYoung(idle, now);
    if s < |idle| && now - idle[s].1 >= WORKER_MAX_IDLE_TIME {
      assert s < m && idle[s].0 in dead;
    }
  }

  function Pids(idle: seq<(Pid, real)>): set<Pid> {
    set i | 0 <= i < |idle| :: idle[i].0
  }

  /** A checkout: the process found, the idle workers pruned, the exited one whose kill raised, and the
      pool it leaves. */
  datatype Checked = Checked(
    found: Option<Pid>, pruned: seq<(Pid, real)>, stuck: Option<Pid>, workers: set<Pid>, idle: seq<(Pid, real)>)

  function CheckedOut(workers: set<Pid>, idle: seq<(Pid, real)>, dead: set<Pid>, now: real): Checked {
    var j := LastLive(idle, dead);
    if j == |idle| then Checked(None, [], None, workers - Pids(idle), [])
    else
      var m, broken := PruneStop(idle[..j], dead, now), Breaks(idle[..j], dead, now);
      Checked(Some(idle[j].0), idle[..m], if broken then Some(idle[m].0) else None,
              workers - Pids(idle[j + 1..]) - Pids(idle[..m]), idle[if broken then m + 1 else m..j])
  }

  // ---------------------------------------------------------------- the deque and the set, updated in place

  ghost predicate DistinctPids(idle: seq<(Pid, real)>) {
    forall i, j :: 0 <= i < j < |idle| ==> idle[i].0 != idle[j].0
  }

  lemma LastLiveIs(idle: seq<(Pid, real)>, dead: set<Pid>, n: nat)
    requires n < |idle| && idle[n].0 !in dead && forall i :: n < i < |idle| ==> idle[i].0 in dead
    ensures LastLive(idle, dead) == n
  {
  }

  // Worker n is still there after those behind it, or before it, have been removed.
  lemma StillThere(idle: seq<(Pid, real)>, n: nat)
    requires DistinctPids(idle) && n < |idle|
    ensures idle[n].0 in Pids(idle) && idle[n].0 !in Pids(idle[n + 1..]) && idle[n].0 !in Pids(idle[..n])
  {
  }

  lemma PidsSnoc(idle: seq<(Pid, real)>, m: nat)
    requires m < |idle|
    ensures Pids(idle[..m + 1]) == Pids(idle[..m]) + {idle[m].0}
    ensures Pids(idle[m..]) == {idle[m].0} + Pids(idle[m + 1..])
  {
    var a, b := idle[..m + 1], idle[m..];
    assert a[m] == idle[m] && b[0] == idle[m];
    forall i | 0 <= i < m ensures idle[i].0 in Pids(a) && idle[i].0 in Pids(idle[..m]) {
      assert a[i] == idle[i] && idle[..m][i] == idle[i];
    }
    forall i | m < i < |idle| ensures idle[i].0 in Pids(b) && idle[i].0 in Pids(idle[m + 1..]) {
      assert b[i - m] == idle[i] && idle[m + 1..][i - m - 1] == idle[i];
    }
  }

  lemma LaterPid(idle: seq<(Pid, real)>, m: nat, n: nat)
    requires DistinctPids(idle) && m <= n < |idle|
    ensures idle[m].0 !in Pids(idle[n + 1..])
  {
  }

  class WorkerPool {
    var workers: set<Pid>
    var idle: seq<(Pid, real)>

    constructor ()
      ensures workers == {} && idle == []
    {
      workers, idle := {}, [];
    }

    // The loops that look for a live idle worker and prune the others: `found` is None when a new
    // process has to be started, `broken` tells whether a kill raised, and `keyError` whether some
    // `workers.remove` failed.
    method Checkout(dead: set<Pid>, now: real)
      returns (found: Option<Pid>, killed: seq<Pid>, broken: bool, keyError: bool)
      requires DistinctPids(idle) && Pids(idle) <= workers
      modifies this
      ensures !keyError
      ensures var r := CheckedOut(old(workers), old(idle), dead, now);
              && found == r.found && broken == r.stuck.Some? && workers == r.workers && idle == r.idle
              && |killed| == |r.pruned| && forall i :: 0 <= i < |killed| ==> killed[i] == r.pruned[i].0
    {
      hide PruneStop, Breaks, FirstYoung;
      found, killed, broken, keyError := None, [], false, false;
      ghost var before, all := idle, workers;
      while idle != []
        invariant |idle| <= |before| && idle == before[..|idle|] && killed == [] && found.None? && !keyError && !broken
        invariant forall i :: |idle| <= i < |before| ==> before[i].0 in dead
        invariant workers == all - Pids(before[|idle|..])
        decreases |idle|
      {
        ghost var n := |idle| - 1;
        var (process, _) := idle[|idle| - 1];
        idle := idle[..|idle| - 1];
        StillThere(before, n);
        PidsSnoc(before, n);
        if process !in dead {
          LastLiveIs(before, dead, n);
          killed, broken, keyError := Prune(before, n, all, dead, now);
          return Some(process), killed, broken, keyError;
        }
        if process !in workers {
          return found, killed, broken, true;
        }
        workers := workers - {process};
      }
    }

    // The inner loop: kill what has been idle too long, from the left.  Killing a process that has
    // exited raises, and then it is off the deque but still among the workers.
    method Prune(ghost before: seq<(Pid, real)>, ghost n: nat, ghost all: set<Pid>, dead: set<Pid>, now: real)
      returns (killed: seq<Pid>, broken: bool, keyError: bool)
      requires DistinctPids(before) && Pids(before) <= all && n < |before| && idle == before[..n]
      requires workers == all - Pids(before[n + 1..])
      modifies this
      ensures var m := PruneStop(before[..n], dead, now);
              && !keyError && broken == Breaks(before[..n], dead, now)
              && idle == before[if broken then m + 1 else m..n] && workers == all - Pids(before[n + 1..]) - Pids(before[..m])
              && |killed| == m && forall i :: 0 <= i < m ==> killed[i] == before[i].0
    {
      killed, broken, keyError := [], false, false;
      ghost var m := 0;
      while idle != []
        invariant m <= n && idle == before[m..n] && |killed| == m && !keyError && !broken
        invariant forall i :: 0 <= i < m ==>
                    killed[i] == before[i].0 && now - before[i].1 >= WORKER_MAX_IDLE_TIME && before[i].0 !in dead
        invariant workers == all - Pids(before[n + 1..]) - Pids(before[..m])
        decreases |idle|
      {
        assert idle[0] == before[m];
        if now - idle[0].1 < WORKER_MAX_IDLE_TIME {
          return;
        }
        var (expired, _) := idle[0];
        idle := idle[1..];
        if expired in dead {
          return killed, true, keyError;
        }
        StillThere(before, m);
        PidsSnoc(before, m);
        LaterPid(before, m, n);
        if expired !in workers {
          return killed, broken, true;
        }
        workers := workers - {expired};
        killed := killed + [expired];
        m := m + 1;
      }
    }

    // `workers.add` after a successful start.
    method Add(p: Pid)
      modifies this`workers
      ensures workers == old(workers) + {p}
    {
      workers := workers + {p};
    }

    // `workers.discard` when talking to the process failed.
    method Discard(p: Pid)
      modifies this`workers
      ensures workers == old(workers) - {p}
    {
      workers := workers - {p};
    }

    // The `finally` clause: the process goes back only while it is still one of the workers.
    method GiveBack(p: Pid, now: real)
      modifies this`idle
      ensures idle == old(idle) + if p in workers then [(p, now)] else []
    {
      if p in workers {
        idle := idle + [(p, now)];
      }
    }
  }

  // ---------------------------------------------------------------- any number of tasks

  /** The pool, the tasks using it, and the operating system's part: which processes have exited. */
  datatype System = System(
    workers: set<Pid>,
    idle: seq<(Pid, real)>,
    busy: map<nat, Pid>,       // the process each task has checked out
    starting: set<nat>,        // tasks that are starting a process
    dead: set<Pid>,
    killed: set<Pid>,          // processes pruned, or killed after a failure
    lost: set<Pid>,            // still among the workers, but neither idle nor in use
    nextPid: Pid,
    clock: real)

  datatype Event =
    | CheckOut(t: nat, now: real)
    | Started(t: nat, now: real)
    | StartFailed(t: nat)
    | Finished(t: nat, now: real)      // a reply arrived, also one that carries an exception
    | Broken(t: nat)                   // talking to the process failed, or its task was cancelled
    | CleanupFailed(t: nat)            // closing a pruned process raised
    | Exits(p: Pid)

  function Initial(clock: real): System {
    System({}, [], map[], {}, {}, {}, {}, 0, clock)
  }

  ghost predicate Enabled(s: System, e: Event) {
    match e
    case CheckOut(t, now) => t !in s.busy && t !in s.starting && now >= s.clock
    case Started(t, now) => t in s.starting && now >= s.clock
    case StartFailed(t) => t in s.starting
    case Finished(t, now) => t in s.busy && now >= s.clock
    case Broken(t) => t in s.busy
    case CleanupFailed(t) => t in s.busy
    case Exits(p) => true
  }

  ghost function Next(s: System, e: Event): System
    requires Enabled(s, e)
  {
    match e
    case CheckOut(t, now) =>
      var r := CheckedOut(s.workers, s.idle, s.dead, now);
      var n := s.(idle := r.idle, workers := r.workers, killed := s.killed + Pids(r.pruned), clock := now);
      if r.found.None? then n.(starting := s.starting + {t})
      else if r.stuck.Some? then n.(lost := s.lost + {r.stuck.value, r.found.value})
      else n.(busy := s.busy[t := r.found.value])
    case Started(t, now) =>
      s.(starting := s.starting - {t}, busy := s.busy[t := s.nextPid], workers := s.workers + {s.nextPid},
         nextPid := s.nextPid + 1, clock := now)
    case StartFailed(t) => s.(starting := s.starting - {t}, nextPid := s.nextPid + 1)
    case Finished(t, now) =>
      s.(idle := s.idle + (if s.busy[t] in s.workers then [(s.busy[t], now)] else []), busy := s.busy - {t}, clock := now)
    case Broken(t) =>
      s.(workers := s.workers - {s.busy[t]}, killed := s.killed + {s.busy[t]}, busy := s.busy - {t})
    case CleanupFailed(t) => s.(lost := s.lost + {s.busy[t]}, busy := s.busy - {t})
    case Exits(p) => s.(dead := s.dead + {p})
  }

  ghost function After(clock: real, events: seq<Event>): System {
    if events == [] then Initial(clock)
    else
      var s, e := After(clock, events[..|events| - 1]), events[|events| - 1];
      if Enabled(s, e) then Next(s, e) else s
  }

  ghost predicate SortedByAge(idle: seq<(Pid, real)>, clock: real) {
    && (forall i :: 0 <= i < |idle| ==> idle[i].1 <= clock)
    && (forall i, j :: 0 <= i < j < |idle| ==> idle[i].1 <= idle[j].1)
  }

  // Every worker is idle, in use by one task, or lost, and only one of these; nothing else is idle or
  // in use, and no killed process is still a worker.
  ghost predicate Owned(s: System) {
    && DistinctPids(s.idle)
    && (forall t, u :: t in s.busy && u in s.busy && s.busy[t] == s.busy[u] ==> t == u)
    && (forall p :: p in s.workers <==> p in Pids(s.idle) || p in s.busy.Values || p in s.lost)
    && (forall p :: p in Pids(s.idle) ==> p !in s.busy.Values && p !in s.lost)
    && (forall p :: p in s.busy.Values ==> p !in s.lost)
    && (forall p :: p in s.workers || p in s.killed ==> p < s.nextPid)
    && s.workers !! s.killed
  }

  ghost predicate Sound(s: System) {
    Owned(s) && SortedByAge(s.idle, s.clock) && (forall t :: t in s.busy ==> t !in s.starting)
  }

  lemma PidsPieces(idle: seq<(Pid, real)>, i: nat, j: nat)
    requires i <= j <= |idle| && DistinctPids(idle)
    ensures Pids(idle) == Pids(idle[..i]) + Pids(idle[i..j]) + Pids(idle[j..])
    ensures Pids(idle[..i]) !! Pids(idle[i..j]) && Pids(idle[i..j]) !! Pids(idle[j..]) && Pids(idle[..i]) !! Pids(idle[j..])
    ensures DistinctPids(idle[i..j])
  {
    var a, b, c := idle[..i], idle[i..j], idle[j..];
    forall k | 0 <= k < |idle| ensures idle[k].0 in Pids(a) + Pids(b) + Pids(c) {
      if k < i { assert a[k] == idle[k]; } else if k < j { assert b[k - i] == idle[k]; } else { assert c[k - j] == idle[k]; }
    }
  }

  lemma FoundOwned(s: System, t: nat, j: nat, m: nat, n: System)
    requires Owned(s) && t !in s.busy && m <= j < |s.idle|
    requires n.idle == s.idle[m..j] && n.workers == s.workers - Pids(s.idle[j + 1..]) - Pids(s.idle[..m])
    requires n.killed == s.killed + Pids(s.idle[..m]) && n.busy == s.busy[t := s.idle[j].0]
    requires n.lost == s.lost && n.nextPid == s.nextPid
    ensures Owned(n)
  {
    PidsPieces(s.idle, m, j);
    PidsSnoc(s.idle, j);
    StillThere(s.idle, j);
    BusyPlus(s.busy, t, s.idle[j].0);
  }

  lemma BrokenOwned(s: System, j: nat, m: nat, n: System)
    requires Owned(s) && m < j < |s.idle|
    requires n.idle == s.idle[m + 1..j] && n.workers == s.workers - Pids(s.idle[j + 1..]) - Pids(s.idle[..m])
    requires n.killed == s.killed + Pids(s.idle[..m]) && n.busy == s.busy
    requires n.lost == s.lost + {s.idle[m].0, s.idle[j].0} && n.nextPid == s.nextPid
    ensures Owned(n)
  {
    PidsPieces(s.idle, m, j);
    PidsPieces(s.idle, m + 1, j);
    PidsSnoc(s.idle, m);
    PidsSnoc(s.idle, j);
    StillThere(s.idle, m);
    StillThere(s.idle, j);
    LaterPid(s.idle, m, j);
  }

  lemma CheckOutOwned(s: System, t: nat, now: real)
    requires Owned(s) && Enabled(s, CheckOut(t, now))
    ensures Owned(Next(s, CheckOut(t, now)))
  {
    var j, n := LastLive(s.idle, s.dead), Next(s, CheckOut(t, now));
    if j == |s.idle| {
      assert Pids([]) == {};
    } else {
      var m := PruneStop(s.idle[..j], s.dead, now);
      if Breaks(s.idle[..j], s.dead, now) {
        BrokenOwned(s, j, m, n);
      } else {
        FoundOwned(s, t, j, m, n);
      }
    }
  }

  lemma BusyPlus(busy: map<nat, Pid>, t: nat, p: Pid)
    requires t !in busy
    ensures busy[t := p].Values == busy.Values + {p}
  {
    var b := busy[t := p];
    assert t in b;
    forall q | q in busy.Values ensures q in b.Values {
      var u :| u in busy && busy[u] == q;
      assert b[u] == q;
    }
  }

  lemma BusyMinus(busy: map<nat, Pid>, t: nat)
    requires t in busy && forall u :: u in busy && busy[u] == busy[t] ==> u == t
    ensures (busy - {t}).Values == busy.Values - {busy[t]}
  {
    var b := busy - {t};
    forall q | q in busy.Values && q != busy[t] ensures q in b.Values {
      var u :| u in busy && busy[u] == q;
      assert b[u] == q;
    }
  }

  lemma FinishedOwned(s: System, t: nat, now: real)
    requires Owned(s) && Enabled(s, Finished(t, now))
    ensures s.busy[t] in s.workers && Owned(Next(s, Finished(t, now)))
  {
    BusyMinus(s.busy, t);
    assert s.busy[t] in s.busy.Values;
    var n := Next(s, Finished(t, now));
    var k := |s.idle|;
    assert n.idle[k] == (s.busy[t], now) && n.idle[..k] == s.idle && n.idle[..k + 1] == n.idle;
    PidsSnoc(n.idle, k);
  }

  lemma OthersOwned(s: System, e: Event)
    requires Owned(s) && Enabled(s, e) && !e.CheckOut? && !e.Finished? && (e.Started? ==> e.t !in s.busy)
    ensures Owned(Next(s, e))
  {
    match e
    case Started(t, now) =>
      BusyPlus(s.busy, t, s.nextPid);
      assert forall p :: p in s.busy.Values || p in Pids(s.idle) || p in s.lost ==> p in s.workers;
    case Broken(t) =>
      assert s.busy[t] in s.busy.Values;
      BusyMinus(s.busy, t);
    case CleanupFailed(t) =>
      assert s.busy[t] in s.busy.Values;
      BusyMinus(s.busy, t);
    case _ =>
  }

  lemma SortedSlice(idle: seq<(Pid, real)>, clock: real, now: real, i: nat, j: nat)
    requires SortedByAge(idle, clock) && i <= j <= |idle| && clock <= now
    ensures SortedByAge(idle[i..j], now)
  {
  }

  lemma SortedKept(s: System, e: Event)
    requires SortedByAge(s.idle, s.clock) && Enabled(s, e)
    ensures SortedByAge(Next(s, e).idle, Next(s, e).clock)
  {
    hide PruneStop, LastLive, Pids;
    match e
    case CheckOut(t, now) =>
      var j := LastLive(s.idle, s.dead);
      if j < |s.idle| {
        var m := PruneStop(s.idle[..j], s.dead, now);
        hide SortedByAge;
        SortedSlice(s.idle, s.clock, now, m, j);
        if m < j { SortedSlice(s.idle, s.clock, now, m + 1, j); }
      }
    case _ =>
  }

  // Main result: in every reachable state every worker is idle, in use by exactly one task or lost,
  // the idle ones stand in order of their idle time, and no killed process is ever used again.
  lemma {:induction false} AlwaysSound(clock: real, events: seq<Event>)
    ensures Sound(After(clock, events))
  {
    if events == [] {
      assert Pids([]) == {};
    } else {
      var s, e := After(clock, events[..|events| - 1]), events[|events| - 1];
      AlwaysSound(clock, events[..|events| - 1]);
      if Enabled(s, e) {
        SortedKept(s, e);
        match e
        case CheckOut(t, now) => CheckOutOwned(s, t, now);
        case Finished(t, now) => FinishedOwned(s, t, now);
        case _ => OthersOwned(s, e);
      }
    }
  }

  // After pruning up to the first young worker, all that remain are young.
  lemma YoungRemain(idle: seq<(Pid, real)>, clock: real, now: real, i: nat)
    requires SortedByAge(idle, clock) && FirstYoung(idle, now) <= i < |idle|
    ensures now - idle[i].1 < WORKER_MAX_IDLE_TIME
  {
    var m := FirstYoung(idle, now);
    assert idle[m].1 <= idle[i].1;
  }

  // The idle workers a completed checkout leaves, and the process it obtains.
  ghost predicate WellChosen(s: System, n: System, t: nat, now: real) {
    && (forall i :: 0 <= i < |n.idle| ==> now - n.idle[i].1 < WORKER_MAX_IDLE_TIME)
    && (t in n.busy ==> n.busy[t] !in s.dead && n.busy[t] !in Pids(n.idle))
    && (t in n.busy ==> exists j :: 0 <= j < |s.idle| && s.idle[j].0 == n.busy[t] && forall i :: j < i < |s.idle| ==> s.idle[i].0 in s.dead)
    && (t !in n.busy ==> forall i :: 0 <= i < |s.idle| ==> s.idle[i].0 in s.dead)
  }

  // The checkout has ended without raising: t has a process, or is starting one.
  ghost predicate Completes(s: System, t: nat, now: real)
    requires Enabled(s, CheckOut(t, now))
  {
    var n := Next(s, CheckOut(t, now));
    t in n.busy || t in n.starting
  }

  // A worker before the first young one has exited, and behind them a live one is found.
  ghost predicate ExpiredExited(s: System, now: real) {
    var j := LastLive(s.idle, s.dead);
    j < |s.idle| && exists i :: 0 <= i < FirstYoung(s.idle[..j], now) && s.idle[i].0 in s.dead
  }

  // A completed pruning leaves only young workers, and not the process found.
  lemma PrunedLeavesYoung(s: System, now: real)
    requires DistinctPids(s.idle) && SortedByAge(s.idle, s.clock) && !ExpiredExited(s, now) && LastLive(s.idle, s.dead) < |s.idle|
    ensures var r, j := CheckedOut(s.workers, s.idle, s.dead, now), LastLive(s.idle, s.dead);
            && r.stuck.None? && r.found == Some(s.idle[j].0) && s.idle[j].0 !in Pids(r.idle)
            && forall i :: 0 <= i < |r.idle| ==> now - r.idle[i].1 < WORKER_MAX_IDLE_TIME
  {
    var j := LastLive(s.idle, s.dead);
    var left := s.idle[..j];
    var m := FirstYoung(left, now);
    BreaksExactly(left, s.dead, now);
    PidsPieces(s.idle, m, j);
    StillThere(s.idle, j);
    var r := CheckedOut(s.workers, s.idle, s.dead, now);
    hide PruneStop, Breaks, LastLive;
    assert r.idle == left[m..];
    forall i | 0 <= i < |r.idle| ensures now - r.idle[i].1 < WORKER_MAX_IDLE_TIME {
      assert r.idle[i] == left[m + i];
      YoungRemain(left, s.clock, now, m + i);
    }
  }

  lemma CheckOutChooses(s: System, t: nat, now: real)
    requires Sound(s) && Enabled(s, CheckOut(t, now)) && !ExpiredExited(s, now)
    ensures Completes(s, t, now) && WellChosen(s, Next(s, CheckOut(t, now)), t, now)
  {
    var j := LastLive(s.idle, s.dead);
    if j < |s.idle| {
      PrunedLeavesYoung(s, now);
      hide CheckedOut, Pids, Owned;
      assert s.idle[j].0 == Next(s, CheckOut(t, now)).busy[t];
    }
  }

  // A checkout that breaks off loses two workers: the exited one, and the live one it had found.
  lemma CheckOutBreaks(s: System, t: nat, now: real)
    requires Owned(s) && Enabled(s, CheckOut(t, now)) && ExpiredExited(s, now)
    ensures var n, j := Next(s, CheckOut(t, now)), LastLive(s.idle, s.dead);
            && !Completes(s, t, now) && j < |s.idle|
            && exists p :: p in s.dead && n.lost == s.lost + {p, s.idle[j].0} && {p, s.idle[j].0} <= n.workers
  {
    var n, j := Next(s, CheckOut(t, now)), LastLive(s.idle, s.dead);
    var left := s.idle[..j];
    BreaksExactly(left, s.dead, now);
    CheckOutOwned(s, t, now);
    var m := PruneStop(left, s.dead, now);
    assert n.lost == s.lost + {left[m].0, s.idle[j].0} && left[m].0 in s.dead;
  }

  // Main result: in any reachable state the loops of a checkout raise no KeyError (their own
  // precondition holds).  It ends without raising if and only if no worker before the first young one
  // has exited; then the process obtained is alive and was used most recently of the live ones, and no
  // worker left idle has reached the limit.  Otherwise two workers are lost.
  lemma CheckOutPrunes(clock: real, events: seq<Event>, t: nat, now: real)
    requires Enabled(After(clock, events), CheckOut(t, now))
    ensures var s := After(clock, events);
            && DistinctPids(s.idle) && Pids(s.idle) <= s.workers
            && (Completes(s, t, now) <==> !ExpiredExited(s, now))
            && (Completes(s, t, now) ==> WellChosen(s, Next(s, CheckOut(t, now)), t, now))
  {
    AlwaysSound(clock, events);
    var s := After(clock, events);
    if ExpiredExited(s, now) {
      CheckOutBreaks(s, t, now);
    } else {
      CheckOutChooses(s, t, now);
    }
    hide WellChosen, After, Next, Completes, ExpiredExited;
  }

  lemma AfterStep(clock: real, events: seq<Event>, e: Event)
    requires Enabled(After(clock, events), e)
    ensures After(clock, events + [e]) == Next(After(clock, events), e)
  {
    assert (events + [e])[..|events|] == events;
  }

  // Two tasks start a worker each ...
  lemma TwoStart() returns (events: seq<Event>)
    ensures After(0.0, events) == Initial(0.0).(busy := map[0 := 0, 1 := 1], workers := {0, 1}, nextPid := 2)
  {
    var e0, e1, e2, e3 := CheckOut(0, 0.0), CheckOut(1, 0.0), Started(0, 0.0), Started(1, 0.0);
    assert Pids([]) == {};
    AfterStep(0.0, [], e0);
    AfterStep(0.0, [] + [e0], e1);
    events := [] + [e0] + [e1];
    assert After(0.0, events) == Initial(0.0).(starting := {0, 1});
    AfterStep(0.0, events, e2);
    AfterStep(0.0, events + [e2], e3);
    events := events + [e2] + [e3];
  }

  // ... and give it back, one late; then the first worker exits.
  lemma TwoIdle() returns (events: seq<Event>)
    ensures After(0.0, events) == Initial(0.0).(workers := {0, 1}, idle := [(0, 0.0), (1, 200.0)], dead := {0}, nextPid := 2, clock := 200.0)
  {
    hide After;
    var started := TwoStart();
    TwoReturn(started, Finished(0, 0.0), Finished(1, 200.0), Exits(0));
    events := started + [Finished(0, 0.0)] + [Finished(1, 200.0)] + [Exits(0)];
  }

  lemma TwoReturn(events: seq<Event>, e4: Event, e5: Event, e6: Event)
    requires After(0.0, events) == Initial(0.0).(busy := map[0 := 0, 1 := 1], workers := {0, 1}, nextPid := 2)
    requires e4 == Finished(0, 0.0) && e5 == Finished(1, 200.0) && e6 == Exits(0)
    ensures After(0.0, events + [e4] + [e5] + [e6])
         == Initial(0.0).(workers := {0, 1}, idle := [(0, 0.0), (1, 200.0)], dead := {0}, nextPid := 2, clock := 200.0)
  {
    AfterStep(0.0, events, e4);
    assert After(0.0, events + [e4]) == Initial(0.0).(busy := map[1 := 1], idle := [(0, 0.0)], workers := {0, 1}, nextPid := 2);
    AfterStep(0.0, events + [e4], e5);
    assert map[1 := 1] - {1} == map[];
    AfterStep(0.0, events + [e4] + [e5], e6);
  }

  // A run that ends with a checkout breaking off: an expired worker has exited on its own, and a live
  // one is there.
  lemma ExitedWorkerBreaks(t: nat) returns (events: seq<Event>)
    ensures var s := After(0.0, events);
            && Enabled(s, CheckOut(t, 310.0)) && !Completes(s, t, 310.0)
            && var n := Next(s, CheckOut(t, 310.0)); n.idle == [] && n.workers == {0, 1} == n.lost
  {
    events := TwoIdle();
    hide After;
    var s := After(0.0, events);
    var left := s.idle[..1];
    LastLiveIs(s.idle, {0}, 1);
    assert left == [(0, 0.0)];
    assert s.idle[2..] == [] && left[..0] == [] && s.idle[..0] == [] && Pids([]) == {};
  }
}
