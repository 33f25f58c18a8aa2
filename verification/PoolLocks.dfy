module PoolLocks {
  // The order in which threadpool.c takes its mutexes: every lock and unlock a step of its own, for any number of
  // workers and event loops.

  import opened Basics

  // The global mutex and the wq_mutex of each loop.
  datatype Lock = Global | Own(l: nat)

  // Program points between two lock operations.  W: worker(); P: post(); C: uv__work_cancel; D: uv__work_done.
  // A point named Want is blocked in uv_mutex_lock, or in uv_cond_wait after the signal.
  datatype Pc =
    | WWant | WIn | WAsleep | WRun(l: nat) | WWantLoop(l: nat) | WInLoop(l: nat) | WGone
    | Idle(l: nat) | PWant(l: nat) | PIn(l: nat)
    | CWant(l: nat) | CWantLoop(l: nat) | CBoth(l: nat) | CIn(l: nat) | CWantAgain(l: nat) | CInLoop(l: nat)
    | DWant(l: nat) | DIn(l: nat)

  function Held(p: Pc): set<Lock> {
    match p
    case WIn => {Global}
    case WInLoop(l) => {Own(l)}
    case PIn(l) => {Global}
    case CWantLoop(l) => {Global}
    case CBoth(l) => {Global, Own(l)}
    case CIn(l) => {Global}
    case CInLoop(l) => {Own(l)}
    case DIn(l) => {Own(l)}
    case _ => {}
  }

  function Wanted(p: Pc): Option<Lock> {
    match p
    case WWant => Some(Global)
    case WWantLoop(l) => Some(Own(l))
    case PWant(l) => Some(Global)
    case CWant(l) => Some(Global)
    case CWantLoop(l) => Some(Own(l))
    case CWantAgain(l) => Some(Own(l))
    case DWant(l) => Some(Own(l))
    case _ => None
  }

  // The control flow: p' can follow p.
  predicate Follows(p: Pc, p': Pc) {
    match p
    case WWant => p' == WIn
    case WIn => p' == WAsleep || p'.WRun? || p' == WGone
    case WAsleep => p' == WWant
    case WRun(l) => p' == WWantLoop(l)
    case WWantLoop(l) => p' == WInLoop(l)
    case WInLoop(l) => p' == WWant
    case WGone => false
    case Idle(l) => p' == PWant(l) || p' == CWant(l) || p' == DWant(l)
    case PWant(l) => p' == PIn(l)
    case PIn(l) => p' == Idle(l)
    case CWant(l) => p' == CWantLoop(l)
    case CWantLoop(l) => p' == CBoth(l)
    case CBoth(l) => p' == CIn(l)
    case CIn(l) => p' == Idle(l) || p' == CWantAgain(l)
    case CWantAgain(l) => p' == CInLoop(l)
    case CInLoop(l) => p' == Idle(l)
    case DWant(l) => p' == DIn(l)
    case DIn(l) => p' == Idle(l)
  }

  datatype State = State(threads: seq<Pc>, owner: map<Lock, nat>)

  predicate Start(s: State) {
    s.owner == map[] && forall t :: 0 <= t < |s.threads| ==> s.threads[t] == WWant || s.threads[t].Idle?
  }

  // Thread t moves to p.
  datatype Move = Move(t: nat, p: Pc)

  // A wanted mutex must be free ...
  predicate Enabled(s: State, a: Move) {
    && a.t < |s.threads| && Follows(s.threads[a.t], a.p)
    && (Wanted(s.threads[a.t]).Some? ==> Wanted(s.threads[a.t]).value !in s.owner)
  }

  // ... and is taken; one that is no longer held is given back.
  function Apply(s: State, a: Move): State
    requires Enabled(s, a)
  {
    var p := s.threads[a.t];
    State(s.threads[a.t := a.p],
          match Wanted(p)
          case Some(k) => s.owner[k := a.t]
          case None => s.owner - (Held(p) - Held(a.p)))
  }

  predicate Legal(s: State, run: seq<Move>)
    decreases |run|
  {
    run == [] || (Enabled(s, run[0]) && Legal(Apply(s, run[0]), run[1..]))
  }

  function Run(s: State, run: seq<Move>): State
    requires Legal(s, run)
    decreases |run|
  {
    if run == [] then s else Run(Apply(s, run[0]), run[1..])
  }

  ghost predicate Reachable(s: State) {
    exists s0, run :: Start(s0) && Legal(s0, run) && Run(s0, run) == s
  }

  ghost predicate Owned(s: State) {
    && (forall k :: k in s.owner ==> s.owner[k] < |s.threads| && k in Held(s.threads[s.owner[k]]))
    && (forall t, k :: 0 <= t < |s.threads| && k in Held(s.threads[t]) ==> k in s.owner && s.owner[k] == t)
  }

  lemma {:induction false} HeldFollows(p: Pc, p': Pc)
    requires Follows(p, p')
    ensures match Wanted(p)
            case Some(k) => k !in Held(p) && Held(p') == Held(p) + {k}
            case None => Held(p') <= Held(p)
  {
  }

  lemma {:induction false} StepOwned(s: State, a: Move)
    requires Owned(s) && Enabled(s, a)
    ensures Owned(Apply(s, a))
  {
    var p, s' := s.threads[a.t], Apply(s, a);
    HeldFollows(p, a.p);
    if Wanted(p).Some? {
      LocksTaken(s, a.t, Wanted(p).value, a.p);
    } else {
      LocksGiven(s, a.t, a.p);
    }
  }

  lemma {:induction false} LocksTaken(s: State, t: nat, k: Lock, p': Pc)
    requires Owned(s) && t < |s.threads| && k !in s.owner && Held(p') == Held(s.threads[t]) + {k}
    ensures Owned(State(s.threads[t := p'], s.owner[k := t]))
  {
    var s' := State(s.threads[t := p'], s.owner[k := t]);
    forall u, j | 0 <= u < |s'.threads| && j in Held(s'.threads[u])
      ensures j in s'.owner && s'.owner[j] == u
    {
      if u != t || j in Held(s.threads[t]) {
        assert j in Held(s.threads[u]);
      }
    }
    forall j | j in s'.owner
      ensures s'.owner[j] < |s'.threads| && j in Held(s'.threads[s'.owner[j]])
    {
      assert j in s.owner ==> j in Held(s.threads[s.owner[j]]);
    }
  }

  lemma {:induction false} OwnedBy(s: State, t: nat, k: Lock)
    requires Owned(s) && t < |s.threads| && k in Held(s.threads[t])
    ensures k in s.owner && s.owner[k] == t
  {
  }

  lemma {:induction false} LocksGiven(s: State, t: nat, p': Pc)
    requires Owned(s) && t < |s.threads| && Held(p') <= Held(s.threads[t])
    ensures Owned(State(s.threads[t := p'], s.owner - (Held(s.threads[t]) - Held(p'))))
  {
    var s' := State(s.threads[t := p'], s.owner - (Held(s.threads[t]) - Held(p')));
    forall u, j | 0 <= u < |s'.threads| && j in Held(s'.threads[u])
      ensures j in s'.owner && s'.owner[j] == u
    {
      assert s'.threads[u] == if u == t then p' else s.threads[u];
      OwnedBy(s, u, j);
      if u != t && j in Held(s.threads[t]) {
        OwnedBy(s, t, j);
      }
    }
    forall j | j in s'.owner
      ensures s'.owner[j] < |s'.threads| && j in Held(s'.threads[s'.owner[j]])
    {
      assert j in s.owner ==> j in Held(s.threads[s.owner[j]]);
    }
  }

  lemma {:induction false} RunOwned(s: State, run: seq<Move>)
    requires Owned(s) && Legal(s, run)
    ensures Owned(Run(s, run))
    decreases |run|
  {
    if run != [] {
      StepOwned(s, run[0]);
      RunOwned(Apply(s, run[0]), run[1..]);
    }
  }

  lemma {:induction false} ReachableOwned(s: State)
    requires Reachable(s)
    ensures Owned(s)
  {
    var s0, run :| Start(s0) && Legal(s0, run) && Run(s0, run) == s;
    assert Owned(s0);
    RunOwned(s0, run);
  }

  // t is blocked on a mutex that u holds.
  predicate WaitsFor(s: State, t: nat, u: nat) {
    t < |s.threads| && Wanted(s.threads[t]).Some? && Wanted(s.threads[t]).value in s.owner
      && s.owner[Wanted(s.threads[t]).value] == u
  }

  // No mutex is ever held by two threads.
  lemma {:induction false} Exclusive(s: State, t: nat, u: nat)
    requires Reachable(s) && t < |s.threads| && u < |s.threads| && t != u
    ensures Held(s.threads[t]) !! Held(s.threads[u])
  {
    ReachableOwned(s);
    forall k | k in Held(s.threads[t])
      ensures k !in Held(s.threads[u])
    {
      assert s.owner[k] == t;
    }
  }

  // No thread owns a mutex while it runs work(), or done() or anything else of its loop, or sleeps, or has left.
  lemma {:induction false} NoMutexInCallbacks(s: State, t: nat)
    requires Reachable(s) && t < |s.threads|
    requires s.threads[t].WRun? || s.threads[t].Idle? || s.threads[t] == WAsleep || s.threads[t] == WGone
    ensures forall k :: k in s.owner ==> s.owner[k] != t
  {
    ReachableOwned(s);
  }

  // The queue and the idle count are only touched by the owner of the global mutex, the queue of a loop only by the
  // owner of its own.
  lemma {:induction false} Guarded(s: State, t: nat)
    requires Reachable(s) && t < |s.threads|
    ensures var p := s.threads[t];
            p == WIn || p.PIn? || p.CWantLoop? || p.CBoth? || p.CIn? ==> Global in s.owner && s.owner[Global] == t
    ensures var p := s.threads[t];
            p.WInLoop? || p.CBoth? || p.CInLoop? || p.DIn? ==> Own(p.l) in s.owner && s.owner[Own(p.l)] == t
  {
    ReachableOwned(s);
    var p := s.threads[t];
    if p == WIn || p.PIn? || p.CWantLoop? || p.CBoth? || p.CIn? {
      OwnedBy(s, t, Global);
    }
    if p.WInLoop? || p.CBoth? || p.CInLoop? || p.DIn? {
      OwnedBy(s, t, Own(p.l));
    }
  }

  // How far a waiting thread is from one that runs.
  function Depth(p: Pc): nat {
    if Wanted(p).None? then 0 else if Held(p) != {} then 1 else 2
  }

  // The only mutex ever wanted while holding another is the loop's, and its holder never wants one.
  lemma {:induction false} OneOrder(p: Pc, l: nat)
    ensures Wanted(p).Some? && Held(p) != {} ==> Wanted(p).value.Own?
    ensures Own(l) in Held(p) ==> Wanted(p).None?
  {
    if p.CWantLoop? {
      assert Held(p) == {Global};
    } else if Wanted(p).Some? {
      assert Held(p) == {};
    }
  }

  lemma {:induction false} DepthFalls(s: State, t: nat, u: nat)
    requires Owned(s) && WaitsFor(s, t, u)
    ensures u < |s.threads| && Depth(s.threads[u]) < Depth(s.threads[t])
  {
    var k := Wanted(s.threads[t]).value;
    assert k in Held(s.threads[u]);
    var p, q := s.threads[t], s.threads[u];
    OneOrder(p, 0);
    OneOrder(q, if k.Own? then k.l else 0);
    assert Held(q) != {} && Depth(q) <= 1;
    assert Held(p) != {} ==> Depth(q) == 0;
  }

  // Each thread on the path is blocked on a mutex that the next one holds.
  predicate Chain(s: State, path: seq<nat>) {
    |path| <= 1 || (WaitsFor(s, path[0], path[1]) && Chain(s, path[1..]))
  }

  lemma {:induction false} ChainFalls(s: State, path: seq<nat>)
    requires Owned(s) && |path| > 1 && Chain(s, path)
    ensures path[0] < |s.threads| && path[|path| - 1] < |s.threads|
    ensures Depth(s.threads[path[|path| - 1]]) + |path| - 1 <= Depth(s.threads[path[0]])
  {
    DepthFalls(s, path[0], path[1]);
    if |path| > 2 {
      ChainFalls(s, path[1..]);
    }
  }

  // No deadlock: there is no cycle of blocked threads, and no chain of more than two.
  lemma {:induction false} NoWaitCycle(s: State, path: seq<nat>)
    requires Reachable(s) && |path| > 1 && Chain(s, path)
    ensures path[0] != path[|path| - 1] && |path| <= 3
  {
    ReachableOwned(s);
    ChainFalls(s, path);
  }

  // Whenever a thread is blocked, the thread at the end of its chain of waits can move.
  lemma {:induction false} SomebodyMoves(s: State, t: nat) returns (a: Move)
    requires Owned(s) && t < |s.threads| && Wanted(s.threads[t]).Some?
    ensures Enabled(s, a) && (a.t == t || Held(s.threads[a.t]) != {})
    decreases Depth(s.threads[t])
  {
    var k := Wanted(s.threads[t]).value;
    if k in s.owner {
      var v := s.owner[k];
      DepthFalls(s, t, v);
      if Wanted(s.threads[v]).Some? {
        a := SomebodyMoves(s, v);
      } else {
        a := Move(v, match s.threads[v]
                     case WIn => WAsleep case WInLoop(_) => WWant case PIn(l) => Idle(l)
                     case CBoth(l) => CIn(l) case CIn(l) => Idle(l) case CInLoop(l) => Idle(l) case DIn(l) => Idle(l)
                     case _ => WGone);
      }
    } else {
      a := Move(t, match s.threads[t]
                   case WWant => WIn case WWantLoop(l) => WInLoop(l) case PWant(l) => PIn(l)
                   case CWant(l) => CWantLoop(l) case CWantLoop(l) => CBoth(l) case CWantAgain(l) => CInLoop(l)
                   case DWant(l) => DIn(l) case _ => WGone);
    }
  }
}
