module TimerRun {
  // What timer.c does to the set of programmed timers, on values: single calls, a turn of uv__run_timers, and a whole
  // run in which the callbacks call back into timer.c.

  import opened HeapShape

  const UINT64_MAX := 0xffff_ffff_ffff_ffff

  function Min(a: nat, b: nat): nat {
    if a < b then a else b
  }

  // What a timer is programmed to do.
  datatype Info = Info(timeout: nat, startId: nat, repeat: nat, callback: nat)

  // The earlier deadline comes first, and of two equal ones the one that was started first.
  predicate Sooner(a: Info, b: Info) {
    a.timeout < b.timeout || (a.timeout == b.timeout && a.startId < b.startId)
  }

  // All timers of a loop, those in its heap, and the next start id.
  datatype View = View(infos: map<Timer, Info>, nodes: set<Timer>, counter: nat) {
    ghost predicate Ok() {
      nodes <= infos.Keys && forall t :: t in nodes ==> infos[t].callback != 0 && infos[t].startId < counter
    }
  }

  // What a callback may do to the timers of its loop.
  datatype Act =
    | DoStart(t: Timer, cb: nat, timeout: nat, repeat: nat)
    | DoStop(t: Timer)
    | DoAgain(t: Timer)
    | DoSetRepeat(t: Timer, repeat: nat)

  predicate GoodAct(a: Act, timers: set<Timer>) {
    && a.t in timers
    && (a.DoStart? ==> a.timeout <= UINT64_MAX && a.repeat <= UINT64_MAX)
    && (a.DoSetRepeat? ==> a.repeat <= UINT64_MAX)
  }

  ghost predicate GoodScript(script: seq<seq<Act>>, timers: set<Timer>) {
    forall k, a :: 0 <= k < |script| && a in script[k] ==> GoodAct(a, timers)
  }

  // The calls made by the k-th callback.
  function Acts(script: seq<seq<Act>>, k: nat): seq<Act> {
    if k < |script| then script[k] else []
  }

  function Stopped(v: View, t: Timer): View {
    v.(nodes := v.nodes - {t})
  }

  function Started(v: View, t: Timer, cb: nat, timeout: nat, repeat: nat, now: nat): View {
    if cb == 0 then v else
    View(v.infos[t := Info(Min(now + timeout, UINT64_MAX), v.counter, repeat, cb)], v.nodes + {t}, v.counter + 1)
  }

  function Restarted(v: View, t: Timer, now: nat): View {
    if t !in v.infos || v.infos[t].callback == 0 || v.infos[t].repeat == 0 then v else
    Started(v, t, v.infos[t].callback, v.infos[t].repeat, v.infos[t].repeat, now)
  }

  function Acted(v: View, a: Act, now: nat): View {
    match a
    case DoStart(t, cb, timeout, repeat) => Started(v, t, cb, timeout, repeat, now)
    case DoStop(t) => Stopped(v, t)
    case DoAgain(t) => Restarted(v, t, now)
    case DoSetRepeat(t, repeat) => if t in v.infos then v.(infos := v.infos[t := v.infos[t].(repeat := repeat)]) else v
  }

  // What a call means, said of each of its effects: a start or an effective restart puts the timer into the heap with a
  // deadline that far ahead, behind all timers with the same deadline that were started before; a stop takes it out; no
  // call touches another timer.
  lemma {:induction false} ActedMeans(v: View, a: Act, now: nat)
    requires v.Ok() && a.t in v.infos && now <= UINT64_MAX
    ensures var u := Acted(v, a, now);
            && u.Ok() && u.infos.Keys == v.infos.Keys
            && forall x :: x in v.infos && x != a.t ==> u.infos[x] == v.infos[x] && (x in u.nodes <==> x in v.nodes)
    ensures Acted(v, a, now).infos[a.t].callback == if a.DoStart? && a.cb != 0 then a.cb else v.infos[a.t].callback
    ensures Acted(v, a, now).infos[a.t].repeat ==
            if (a.DoStart? && a.cb != 0) || a.DoSetRepeat? then a.repeat else v.infos[a.t].repeat
    ensures var i, u := v.infos[a.t], Acted(v, a, now);
            var starts := (a.DoStart? && a.cb != 0) || (a.DoAgain? && i.callback != 0 && i.repeat != 0);
            var ahead := if a.DoStart? then a.timeout else i.repeat;
            && (a.t in u.nodes <==> starts || (a.t in v.nodes && !a.DoStop?))
            && (starts ==> u.infos[a.t].timeout == if now + ahead <= UINT64_MAX then now + ahead else UINT64_MAX)
            && (starts ==> forall x :: x in v.nodes && x != a.t ==> u.infos[x].startId < u.infos[a.t].startId)
            && (!starts ==> u.infos[a.t].timeout == i.timeout && u.infos[a.t].startId == i.startId)
  {
  }

  function AllActed(v: View, acts: seq<Act>, now: nat): View {
    if acts == [] then v else Acted(AllActed(v, acts[..|acts| - 1], now), acts[|acts| - 1], now)
  }

  lemma {:induction false} ActedMore(v: View, acts: seq<Act>, i: nat, now: nat)
    requires i < |acts|
    ensures AllActed(v, acts[..i + 1], now) == Acted(AllActed(v, acts[..i], now), acts[i], now)
  {
    assert acts[..i + 1][..i] == acts[..i];
  }

  // uv_timer_stop and uv_timer_again on h, as uv__run_timers does before it calls h back.
  function Turned(v: View, h: Timer, now: nat): View {
    Restarted(Stopped(v, h), h, now)
  }

  // The timers after callbacks of the timers in fired, the k-th of which does what the script says.
  function After(v: View, fired: seq<Timer>, script: seq<seq<Act>>, now: nat): View {
    if fired == [] then v else
    var n := |fired| - 1;
    AllActed(Turned(After(v, fired[..n], script, now), fired[n], now), Acts(script, n), now)
  }

  ghost predicate Least(v: View, h: Timer) {
    && h in v.nodes && h in v.infos
    && forall t :: t in v.nodes && t in v.infos && t != h ==> Sooner(v.infos[h], v.infos[t])
  }

  // h is the timer whose turn it is: in the heap, due, and ahead of all others in it.
  ghost predicate IsTurn(v: View, h: Timer, now: nat) {
    Least(v, h) && v.infos[h].timeout <= now
  }

  // Every callback is that of the timer whose turn it was when it was made.
  ghost predicate Legal(v: View, fired: seq<Timer>, script: seq<seq<Act>>, now: nat) {
    fired != [] ==>
      var n := |fired| - 1;
      Legal(v, fired[..n], script, now) && IsTurn(After(v, fired[..n], script, now), fired[n], now)
  }

  lemma {:induction false} LegalMore(v: View, fired: seq<Timer>, script: seq<seq<Act>>, now: nat, h: Timer)
    requires Legal(v, fired, script, now) && IsTurn(After(v, fired, script, now), h, now)
    ensures Legal(v, fired + [h], script, now)
    ensures After(v, fired + [h], script, now)
         == AllActed(Turned(After(v, fired, script, now), h, now), Acts(script, |fired|), now)
  {
    assert (fired + [h])[..|fired|] == fired;
  }

  lemma {:induction false} LegalPrefix(v: View, fired: seq<Timer>, script: seq<seq<Act>>, now: nat, n: nat)
    requires Legal(v, fired, script, now) && n <= |fired|
    ensures Legal(v, fired[..n], script, now)
    ensures n < |fired| ==> IsTurn(After(v, fired[..n], script, now), fired[n], now)
    decreases |fired|
  {
    if n == |fired| {
      assert fired[..n] == fired;
    } else {
      var l := |fired| - 1;
      LegalPrefix(v, fired[..l], script, now, n);
      assert fired[..l][..n] == fired[..n];
    }
  }

  lemma {:induction false} ActsOk(v: View, acts: seq<Act>, now: nat, timers: set<Timer>)
    requires v.Ok() && v.infos.Keys == timers && forall a :: a in acts ==> GoodAct(a, timers)
    ensures AllActed(v, acts, now).Ok() && AllActed(v, acts, now).infos.Keys == timers
  {
    if acts != [] {
      var n := |acts| - 1;
      assert acts == acts[..n] + [acts[n]] && acts[n] in acts;
      ActsOk(v, acts[..n], now, timers);
    }
  }

  lemma {:induction false} AfterOk(v: View, fired: seq<Timer>, script: seq<seq<Act>>, now: nat)
    requires v.Ok() && GoodScript(script, v.infos.Keys) && Legal(v, fired, script, now)
    ensures After(v, fired, script, now).Ok() && After(v, fired, script, now).infos.Keys == v.infos.Keys
  {
    if fired != [] {
      var n := |fired| - 1;
      LegalPrefix(v, fired, script, now, n);
      AfterOk(v, fired[..n], script, now);
      var u := After(v, fired[..n], script, now);
      assert IsTurn(u, fired[n], now);
      assert Turned(u, fired[n], now).infos.Keys == u.infos.Keys;
      ActsOk(Turned(u, fired[n], now), Acts(script, n), now, v.infos.Keys);
    }
  }

  predicate StopsOnlyIn(acts: seq<Act>) {
    forall a :: a in acts ==> a.DoStop?
  }

  // Callbacks that do nothing to timers but stop them.
  ghost predicate StopsOnly(script: seq<seq<Act>>) {
    forall k: nat :: StopsOnlyIn(Acts(script, k))
  }

  // t is stopped by one of the first n callbacks.
  ghost predicate StoppedBefore(script: seq<seq<Act>>, n: nat, t: Timer) {
    exists k :: 0 <= k < n && k < |script| && DoStop(t) in script[k]
  }

  // The timers in fired come in the order of their keys, and t comes after them.
  ghost predicate Sorted(v0: View, fired: seq<Timer>) {
    forall k, l :: 0 <= k < l < |fired| ==>
      fired[k] in v0.infos && fired[l] in v0.infos && Sooner(v0.infos[fired[k]], v0.infos[fired[l]])
  }

  ghost predicate Behind(v0: View, fired: seq<Timer>, t: Timer) {
    forall k :: 0 <= k < |fired| ==>
      fired[k] in v0.infos && t in v0.infos && Sooner(v0.infos[fired[k]], v0.infos[t])
  }

  // What a run at time now from v0 to v has done to t, if the callbacks of fired have been made and have stopped the
  // timers in gone: a timer called back was due at the start; it has left the heap if it is one-shot, and is armed
  // again, strictly later, if it repeats, unless it has been stopped; a timer that was neither called back nor stopped
  // is untouched, and those called back were ahead of it.
  ghost predicate Fate(v0: View, v: View, fired: seq<Timer>, gone: set<Timer>, now: nat, t: Timer) {
    && t in v0.infos && t in v.infos
    && (t in v.nodes <==> t in v0.nodes && t !in gone && (t in fired ==> v0.infos[t].repeat != 0))
    && v.infos[t].repeat == v0.infos[t].repeat && v.infos[t].callback == v0.infos[t].callback
    && (t in fired ==> t in v0.nodes && v0.infos[t].timeout <= now)
    && (t in fired && t in v.nodes ==> now < v.infos[t].timeout == Min(now + v0.infos[t].repeat, UINT64_MAX))
    && (t !in fired ==> v.infos[t] == v0.infos[t])
    && (t in v0.nodes && t !in fired && t !in gone ==> Behind(v0, fired, t))
  }

  // Such a run calls back every timer at most once, in the order of the keys at the start.
  ghost predicate Pass(v0: View, v: View, fired: seq<Timer>, gone: set<Timer>, now: nat) {
    && v0.nodes <= v0.infos.Keys == v.infos.Keys && v.nodes <= v0.nodes && Sorted(v0, fired)
    && (forall k :: 0 <= k < |fired| ==> fired[k] in v0.nodes)
    && (forall t {:trigger Fate(v0, v, fired, gone, now, t)} :: t in v0.infos ==> Fate(v0, v, fired, gone, now, t))
  }

  // One more turn extends the pass ...
  lemma {:induction false} Passed(v0: View, v: View, fired: seq<Timer>, gone: set<Timer>, now: nat, h: Timer)
    requires Pass(v0, v, fired, gone, now) && v.Ok() && IsTurn(v, h, now) && now < UINT64_MAX
    ensures Pass(v0, Turned(v, h, now), fired + [h], gone, now) && h !in fired && h !in gone
  {
    assert Fate(v0, v, fired, gone, now, h);
    assert h !in fired && Behind(v0, fired, h);
    forall t | t in v0.infos
      ensures Fate(v0, Turned(v, h, now), fired + [h], gone, now, t)
    {
      assert Fate(v0, v, fired, gone, now, t);
    }
  }

  // ... and so do the stops made by its callback.
  lemma {:induction false} PassStop(v0: View, v: View, fired: seq<Timer>, gone: set<Timer>, now: nat, t: Timer)
    requires Pass(v0, v, fired, gone, now)
    ensures Pass(v0, Stopped(v, t), fired, gone + {t}, now)
  {
    forall u | u in v0.infos
      ensures Fate(v0, Stopped(v, t), fired, gone + {t}, now, u)
    {
      assert Fate(v0, v, fired, gone, now, u);
    }
  }

  lemma {:induction false} PassStops(v0: View, v: View, fired: seq<Timer>, gone: set<Timer>, now: nat, acts: seq<Act>)
    requires Pass(v0, v, fired, gone, now) && StopsOnlyIn(acts)
    ensures Pass(v0, AllActed(v, acts, now), fired, gone + StopSet(acts), now)
  {
    if acts == [] {
      assert gone + {} == gone;
    } else {
      var n := |acts| - 1;
      assert acts == acts[..n] + [acts[n]] && acts[n] in acts;
      PassStops(v0, v, fired, gone, now, acts[..n]);
      PassStop(v0, AllActed(v, acts[..n], now), fired, gone + StopSet(acts[..n]), now, acts[n].t);
      assert gone + StopSet(acts) == gone + StopSet(acts[..n]) + {acts[n].t};
    }
  }

  lemma {:induction false} PassTurn(v0: View, v: View, fired: seq<Timer>, gone: set<Timer>, now: nat, h: Timer,
          acts: seq<Act>)
    requires Pass(v0, v, fired, gone, now) && v.Ok() && IsTurn(v, h, now) && now < UINT64_MAX && StopsOnlyIn(acts)
    ensures Pass(v0, AllActed(Turned(v, h, now), acts, now), fired + [h], gone + StopSet(acts), now) && h !in gone
  {
    Passed(v0, v, fired, gone, now, h);
    PassStops(v0, Turned(v, h, now), fired + [h], gone, now, acts);
  }

  ghost function StopSet(acts: seq<Act>): set<Timer> {
    if acts == [] then {} else StopSet(acts[..|acts| - 1]) + {acts[|acts| - 1].t}
  }

  lemma {:induction false} InStopSet(acts: seq<Act>, t: Timer)
    requires StopsOnlyIn(acts)
    ensures t in StopSet(acts) <==> DoStop(t) in acts
  {
    if acts != [] {
      var n := |acts| - 1;
      assert acts == acts[..n] + [acts[n]] && acts[n] in acts;
      InStopSet(acts[..n], t);
    }
  }

  // The timers stopped by the first n callbacks.
  ghost function Gone(script: seq<seq<Act>>, n: nat): set<Timer> {
    if n == 0 then {} else Gone(script, n - 1) + StopSet(Acts(script, n - 1))
  }

  lemma {:induction false} InGone(script: seq<seq<Act>>, n: nat, t: Timer)
    requires StopsOnly(script)
    ensures t in Gone(script, n) <==> StoppedBefore(script, n, t)
  {
    if n > 0 {
      InGone(script, n - 1, t);
      InStopSet(Acts(script, n - 1), t);
    }
  }

  lemma {:induction false} PassNone(v: View, now: nat)
    requires v.Ok()
    ensures Pass(v, v, [], {}, now)
  {
  }

  // With callbacks that only stop timers the run is a pass over the timers due at entry ...
  lemma {:induction false} StopRun(v: View, fired: seq<Timer>, script: seq<seq<Act>>, now: nat)
    requires v.Ok() && GoodScript(script, v.infos.Keys) && Legal(v, fired, script, now) && now < UINT64_MAX
    requires StopsOnly(script)
    ensures Pass(v, After(v, fired, script, now), fired, Gone(script, |fired|), now)
    decreases |fired|
  {
    if fired == [] {
      PassNone(v, now);
    } else {
      var n := |fired| - 1;
      var g, h := fired[..n], fired[n];
      assert fired == g + [h];
      AfterOk(v, g, script, now);
      StopRun(v, g, script, now);
      PassTurn(v, After(v, g, script, now), g, Gone(script, n), now, h, Acts(script, n));
    }
  }

  // ... in which none is called back after it has been stopped ...
  lemma {:induction false} StopRunSafe(v: View, fired: seq<Timer>, script: seq<seq<Act>>, now: nat, k: nat)
    requires v.Ok() && GoodScript(script, v.infos.Keys) && Legal(v, fired, script, now) && now < UINT64_MAX
    requires StopsOnly(script) && k < |fired|
    ensures !StoppedBefore(script, k, fired[k])
  {
    var g, h := fired[..k], fired[k];
    LegalPrefix(v, fired, script, now, k);
    StopRun(v, g, script, now);
    assert Fate(v, After(v, g, script, now), g, Gone(script, k), now, h);
    InGone(script, k, h);
  }

  // ... and, once none is due, every timer that was due at entry has been called back or stopped.
  lemma {:induction false} StopRunDone(v: View, fired: seq<Timer>, script: seq<seq<Act>>, now: nat, t: Timer)
    requires v.Ok() && GoodScript(script, v.infos.Keys) && Legal(v, fired, script, now) && now < UINT64_MAX
    requires StopsOnly(script) && t in v.nodes && v.infos[t].timeout <= now && t !in fired
    requires var u := After(v, fired, script, now); t in u.nodes && t in u.infos ==> now < u.infos[t].timeout
    ensures StoppedBefore(script, |fired|, t)
  {
    StopRun(v, fired, script, now);
    assert Fate(v, After(v, fired, script, now), fired, Gone(script, |fired|), now, t);
    InGone(script, |fired|, t);
  }

  // The outcome of a run that has ended, with callbacks that only stop timers.
  ghost predicate StopOutcome(v: View, u: View, fired: seq<Timer>, script: seq<seq<Act>>, now: nat) {
    && Pass(v, u, fired, Gone(script, |fired|), now)
    && (forall k :: 0 <= k < |fired| ==> !StoppedBefore(script, k, fired[k]))
    && (forall t :: t in v.nodes && t in v.infos && v.infos[t].timeout <= now && t !in fired ==>
          StoppedBefore(script, |fired|, t))
  }

  lemma {:induction false} StopRunEnds(v: View, fired: seq<Timer>, script: seq<seq<Act>>, now: nat)
    requires v.Ok() && GoodScript(script, v.infos.Keys) && Legal(v, fired, script, now) && now < UINT64_MAX
    requires StopsOnly(script)
    requires var u := After(v, fired, script, now);
             forall t :: t in u.nodes && t in u.infos ==> now < u.infos[t].timeout
    ensures StopOutcome(v, After(v, fired, script, now), fired, script, now)
  {
    StopRun(v, fired, script, now);
    forall k | 0 <= k < |fired|
      ensures !StoppedBefore(script, k, fired[k])
    {
      StopRunSafe(v, fired, script, now, k);
    }
    forall t | t in v.nodes && t in v.infos && v.infos[t].timeout <= now && t !in fired
      ensures StoppedBefore(script, |fired|, t)
    {
      StopRunDone(v, fired, script, now, t);
    }
  }

  // What is left of the script after k callbacks.
  function Rest(script: seq<seq<Act>>, k: nat): seq<seq<Act>> {
    if k <= |script| then script[k..] else []
  }

  // A run can be cut in two: the second part is a run of the rest of the script.
  lemma {:induction false} CutAfter(v: View, pre: seq<Timer>, rest: seq<Timer>, script: seq<seq<Act>>, now: nat)
    ensures After(v, pre + rest, script, now) == After(After(v, pre, script, now), rest, Rest(script, |pre|), now)
    decreases |rest|
  {
    if rest == [] {
      assert pre + rest == pre;
    } else {
      CutLast(pre, rest);
      ActsOfRest(script, |pre|, |rest| - 1);
      CutAfter(v, pre, rest[..|rest| - 1], script, now);
    }
  }

  lemma {:induction false} CutLegal(v: View, pre: seq<Timer>, rest: seq<Timer>, script: seq<seq<Act>>, now: nat)
    requires Legal(v, pre + rest, script, now)
    ensures Legal(v, pre, script, now) && Legal(After(v, pre, script, now), rest, Rest(script, |pre|), now)
    decreases |rest|
  {
    if rest == [] {
      assert pre + rest == pre;
    } else {
      CutLast(pre, rest);
      CutAfter(v, pre, rest[..|rest| - 1], script, now);
      CutLegal(v, pre, rest[..|rest| - 1], script, now);
    }
  }

  lemma {:induction false} CutLast(a: seq<Timer>, b: seq<Timer>)
    requires b != []
    ensures var n := |b| - 1; (a + b)[..|a| + n] == a + b[..n] && (a + b)[|a| + n] == b[n]
  {
  }

  lemma {:induction false} ActsOfRest(script: seq<seq<Act>>, k: nat, n: nat)
    ensures Acts(Rest(script, k), n) == Acts(script, k + n)
  {
  }

  // However the callbacks start and stop timers, the run ends: after the last callback that does so, every timer runs
  // at most once.
  lemma {:induction false} RunBounded(v: View, fired: seq<Timer>, script: seq<seq<Act>>, now: nat)
    requires v.Ok() && GoodScript(script, v.infos.Keys) && Legal(v, fired, script, now) && now < UINT64_MAX
    ensures |fired| <= |script| + |v.infos.Keys|
  {
    if |script| <= |fired| {
      var pre, rest := fired[..|script|], fired[|script|..];
      assert pre + rest == fired;
      CutLegal(v, pre, rest, script, now);
      AfterOk(v, pre, script, now);
      QuietBounded(After(v, pre, script, now), rest, now);
    }
  }

  // Callbacks that leave the timers alone.
  lemma {:induction false} QuietBounded(v: View, fired: seq<Timer>, now: nat)
    requires v.Ok() && Legal(v, fired, [], now) && now < UINT64_MAX
    ensures |fired| <= |v.infos.Keys|
  {
    StopRun(v, fired, [], now);
    PassShort(v, After(v, fired, [], now), fired, Gone([], |fired|), now);
    Fewer(v.nodes, v.infos.Keys);
  }

  lemma {:induction false} PassShort(v0: View, v: View, fired: seq<Timer>, gone: set<Timer>, now: nat)
    requires Pass(v0, v, fired, gone, now)
    ensures |fired| <= |v0.nodes|
  {
    DistinctFew(fired, v0.nodes);
  }

  lemma {:induction false} Fewer(a: set<Timer>, b: set<Timer>)
    requires a <= b
    ensures |a| <= |b|
  {
    assert b == a + (b - a);
  }

  lemma {:induction false} DistinctFew(s: seq<Timer>, all: set<Timer>)
    requires forall p, q :: 0 <= p < q < |s| ==> s[p] != s[q]
    requires forall p :: 0 <= p < |s| ==> s[p] in all
    ensures |s| <= |all|
  {
    if |s| > 0 {
      var n := |s| - 1;
      DistinctFew(s[..n], all - {s[n]});
    }
  }
}
