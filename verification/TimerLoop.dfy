// The timers of timer.c on top of the heap.
module TimerLoop {
  import opened HeapShape
  import opened HeapOrder
  import opened HeapPath
  import opened HeapInl
  import opened TimerRun

  const INT_MAX := 0x7fff_ffff
  const UV_EINVAL := -22

  // The deadline kept for a timer started at time now, computed with 64-bit wrap-around as in the source.
  function Clamp(now: nat, timeout: nat): (r: nat)
    requires now <= UINT64_MAX && timeout <= UINT64_MAX
    ensures r == Min(now + timeout, UINT64_MAX)
  {
    var clamped := (now + timeout) % (UINT64_MAX + 1);
    if clamped < timeout then UINT64_MAX else clamped
  }

  class Loop {
    const heap: Heap
    var time: nat
    var timerCounter: nat
    var activeHandles: int
    ghost var timers: set<Timer>  // the timer handles initialised on this loop
    ghost var ids: map<nat, Timer>
    ghost var others: int         // what handles of other types contribute to activeHandles

    ghost predicate Valid()
      reads this, heap, timers, heap.nodes
    {
      && heap.nodes <= timers && heap.Valid()
      && time <= UINT64_MAX
      && (forall t :: t in timers ==> Fine(t, t in heap.nodes, timerCounter, ids))
      && activeHandles == others + |Counted(heap.nodes)|
    }

    constructor (time: nat)
      requires time <= UINT64_MAX
      ensures Valid() && timers == {} && fresh(heap)
    {
      heap := new Heap();
      this.time := time;
      timerCounter, activeHandles, timers, others := 0, 0, {}, 0;
      ids := map[];
      new;
      assert Counted(heap.nodes) == {};
    }

    // uv_timer_init
    method TimerInit() returns (t: Timer)
      requires Valid()
      modifies `timers
      ensures Valid() && fresh(t) && timers == old(timers) + {t} && heap.nodes == old(heap.nodes)
      ensures t.callback == 0 && t.repeat == 0 && !t.active
    {
      t := new Timer();
      timers := timers + {t};
    }

    // The timers as a value.
    ghost function Value(): View
      reads this, heap, timers
    {
      View(Infos(timers), heap.nodes, timerCounter)
    }

    static ghost predicate Fine(t: Timer, inside: bool, counter: nat, ids: map<nat, Timer>)
      reads t`active, t`repeat, t`callback, t`startId, t`timeout
    {
      && (t.active <==> inside) && t.repeat <= UINT64_MAX
      && (inside ==>
            && t.callback != 0 && t.startId < counter && t.timeout <= UINT64_MAX
            && t.startId in ids && ids[t.startId] == t)
    }

    // The active timers that keep the loop alive.
    ghost function Counted(s: set<Timer>): set<Timer>
      reads s`hasRef
    {
      set t | t in s && t.hasRef
    }

    lemma {:induction false} CountedLess(s: set<Timer>, t: Timer)
      requires t in s
      ensures |Counted(s - {t})| == |Counted(s)| - if t.hasRef then 1 else 0
    {
      assert Counted(s - {t}) == Counted(s) - {t};
    }

    lemma {:induction false} CountedMore(s: set<Timer>, t: Timer)
      requires t !in s
      ensures |Counted(s + {t})| == |Counted(s)| + if t.hasRef then 1 else 0
    {
      assert Counted(s + {t}) == if t.hasRef then Counted(s) + {t} else Counted(s);
    }

    // uv__handle_start
    method HandleStart(t: Timer)
      modifies `activeHandles, t`active
      ensures t.active && activeHandles == old(activeHandles) + if !old(t.active) && t.hasRef then 1 else 0
    {
      if t.active {
        return;
      }
      t.active := true;
      if t.hasRef {
        activeHandles := activeHandles + 1;
      }
    }

    // uv__handle_stop
    method HandleStop(t: Timer)
      modifies `activeHandles, t`active
      ensures !t.active && activeHandles == old(activeHandles) - if old(t.active) && t.hasRef then 1 else 0
    {
      if !t.active {
        return;
      }
      t.active := false;
      if t.hasRef {
        activeHandles := activeHandles - 1;
      }
    }

    // uv_timer_stop
    method Stop(t: Timer)
      requires Valid() && t in timers
      modifies `activeHandles, heap, timers`left, timers`right, timers`parent, t`active
      ensures Valid() && heap.nodes == old(heap.nodes) - {t}
      ensures heap.nelts == old(heap.nelts) - if old(t.active) then 1 else 0
    {
      if !t.active {
        return;
      }
      CountedLess(heap.nodes, t);
      heap.Remove(t);
      HandleStop(t);
    }

    method Program(t: Timer, cb: nat, timeout: nat, repeat: nat)
      requires time <= UINT64_MAX && timeout <= UINT64_MAX
      modifies `timerCounter, `ids, t`callback, t`timeout, t`repeat, t`startId
      ensures t.callback == cb && t.repeat == repeat && t.timeout == Min(time + timeout, UINT64_MAX)
      ensures t.startId == old(timerCounter) && timerCounter == old(timerCounter) + 1
      ensures ids == old(ids)[t.startId := t]
    {
      t.callback := cb;
      t.timeout := Clamp(time, timeout);
      t.repeat := repeat;
      t.startId := timerCounter;
      timerCounter := timerCounter + 1;
      ids := ids[t.startId := t];
    }

    method Enqueue(t: Timer, cb: nat, timeout: nat, repeat: nat)
      requires heap.Valid() && t !in heap.nodes && heap.nelts + 1 < UINT_LIMIT
      requires time <= UINT64_MAX && timeout <= UINT64_MAX
      modifies `timerCounter, `ids, t`callback, t`timeout, t`repeat, t`startId
      modifies heap, t`left, t`right, t`parent, heap.nodes`left, heap.nodes`right, heap.nodes`parent
      ensures heap.Valid() && heap.nodes == old(heap.nodes) + {t}
      ensures t.callback == cb && t.repeat == repeat && t.timeout == Min(time + timeout, UINT64_MAX)
      ensures t.startId == old(timerCounter) && timerCounter == old(timerCounter) + 1
      ensures ids == old(ids)[t.startId := t]
    {
      Program(t, cb, timeout, repeat);
      heap.Insert(t);
    }

    // What the heap holds afterwards, seen on all timers of the loop.
    method EnqueueAmong(t: Timer, cb: nat, timeout: nat, repeat: nat)
      requires Valid() && t in timers && !t.active
      requires timeout <= UINT64_MAX && heap.nelts + 1 < UINT_LIMIT
      modifies `timerCounter, `ids, t`callback, t`timeout, t`repeat, t`startId
      modifies heap, t`left, t`right, t`parent, heap.nodes`left, heap.nodes`right, heap.nodes`parent
      ensures heap.Valid() && heap.nodes == old(heap.nodes) + {t}
      ensures t.callback == cb && t.repeat == repeat && t.timeout == Min(time + timeout, UINT64_MAX)
      ensures t.startId == old(timerCounter) && timerCounter == old(timerCounter) + 1
      ensures ids == old(ids)[t.startId := t]
      ensures |Counted(heap.nodes)| == old(|Counted(heap.nodes)|) + if t.hasRef then 1 else 0
      ensures forall u :: u in timers && u != t ==> Fine(u, u in heap.nodes, timerCounter, ids)
    {
      CountedMore(heap.nodes, t);
      Enqueue(t, cb, timeout, repeat);
    }

    // The second half of uv_timer_start, on a stopped timer.
    method Arm(t: Timer, cb: nat, timeout: nat, repeat: nat)
      requires Valid() && t in timers && !t.active && cb != 0
      requires timeout <= UINT64_MAX && repeat <= UINT64_MAX
      requires timerCounter < UINT64_MAX && heap.nelts + 1 < UINT_LIMIT
      modifies `activeHandles, `timerCounter, `ids, heap, timers`left, timers`right, timers`parent
      modifies t`active, t`callback, t`timeout, t`repeat, t`startId
      ensures Valid() && heap.nodes == old(heap.nodes) + {t}
      ensures t.callback == cb && t.repeat == repeat && t.timeout == Min(time + timeout, UINT64_MAX)
      ensures t.startId == old(timerCounter) && timerCounter == old(timerCounter) + 1
    {
      EnqueueAmong(t, cb, timeout, repeat);
      HandleStart(t);
      assert heap.Valid() && Fine(t, true, timerCounter, ids);
      assert activeHandles == others + |Counted(heap.nodes)|;
      forall u | u in timers
        ensures Fine(u, u in heap.nodes, timerCounter, ids)
      {
      }
    }

    method Start(t: Timer, cb: nat, timeout: nat, repeat: nat) returns (err: int)
      requires Valid() && t in timers
      requires timeout <= UINT64_MAX && repeat <= UINT64_MAX
      requires timerCounter < UINT64_MAX && heap.nelts + 1 < UINT_LIMIT
      modifies `activeHandles, `timerCounter, `ids, heap, timers`left, timers`right, timers`parent
      modifies t`active, t`callback, t`timeout, t`repeat, t`startId
      ensures Valid()
      ensures cb == 0 ==> err == UV_EINVAL && heap.nodes == old(heap.nodes) && unchanged(t) && unchanged(this)
      ensures cb != 0 ==> err == 0 && heap.nodes == old(heap.nodes) + {t}
      ensures cb != 0 ==> t.callback == cb && t.repeat == repeat && t.timeout == Min(time + timeout, UINT64_MAX)
      ensures cb != 0 ==> t.startId == old(timerCounter) && timerCounter == old(timerCounter) + 1
    {
      if cb == 0 {
        return UV_EINVAL;
      }
      if t.active {
        Stop(t);
      }
      Arm(t, cb, timeout, repeat);
      err := 0;
    }

    // uv_timer_again
    method Again(t: Timer) returns (err: int)
      requires Valid() && t in timers
      requires timerCounter < UINT64_MAX && heap.nelts + 1 < UINT_LIMIT
      modifies `activeHandles, `timerCounter, `ids, heap, timers`left, timers`right, timers`parent
      modifies t`active, t`callback, t`timeout, t`repeat, t`startId
      ensures Valid() && t.callback == old(t.callback) && t.repeat == old(t.repeat)
      ensures err == if t.callback == 0 then UV_EINVAL else 0
      ensures t.callback == 0 || t.repeat == 0 ==> heap.nodes == old(heap.nodes) && unchanged(t) && unchanged(this)
      ensures t.callback != 0 && t.repeat != 0 ==>
                && heap.nodes == old(heap.nodes) + {t}
                && t.startId == old(timerCounter) && timerCounter == old(timerCounter) + 1
                && t.timeout == Min(time + t.repeat, UINT64_MAX)
    {
      if t.callback == 0 {
        return UV_EINVAL;
      }
      err := 0;
      if t.repeat != 0 {
        Stop(t);
        var _ := Start(t, t.callback, t.repeat, t.repeat);
      }
    }

    // uv__next_timeout: how long the loop may sleep, -1 for as long as it likes.
    method NextTimeout() returns (r: int)
      requires Valid()
      ensures r == -1 <==> heap.nodes == {}
      ensures heap.nodes != {} ==> 0 <= r <= INT_MAX
      ensures forall t :: t in heap.nodes ==> r == 0 || time + r <= t.timeout
      ensures heap.nodes != {} ==>
                exists t :: t in heap.nodes && r == Min(INT_MAX, if t.timeout <= time then 0 else t.timeout - time)
    {
      heap.Empty();
      var h := heap.min;
      if h == null {
        return -1;
      }
      forall t | t in heap.nodes
        ensures h.timeout <= t.timeout
      {
        heap.MinLeast(t);
      }
      if h.timeout <= time {
        return 0;
      }
      var diff := h.timeout - time;
      if diff > INT_MAX {
        diff := INT_MAX;
      }
      r := diff;
    }

    // uv_timer_set_repeat
    method SetRepeat(t: Timer, repeat: nat)
      requires Valid() && t in timers && repeat <= UINT64_MAX
      modifies t`repeat
      ensures Valid() && t.repeat == repeat
      ensures Value() == Acted(old(Value()), DoSetRepeat(t, repeat), time)
    {
      t.repeat := repeat;
      assert Infos(timers) == old(Infos(timers))[t := Infos(timers)[t]];
    }

    // One call of timer.c from within a callback, seen on all timers at once.
    method Perform(a: Act)
      requires Valid() && GoodAct(a, timers) && timerCounter < UINT64_MAX && |timers| + 1 < UINT_LIMIT
      modifies `activeHandles, `timerCounter, `ids, heap, timers`left, timers`right, timers`parent
      modifies timers`active, timers`callback, timers`timeout, timers`repeat, timers`startId
      ensures Valid() && timerCounter <= old(timerCounter) + 1
      ensures Value() == Acted(old(Value()), a, time)
    {
      HeapRoom();
      match a
      case DoStart(t, cb, timeout, repeat) => PerformStart(t, cb, timeout, repeat);
      case DoStop(t) => PerformStop(t);
      case DoAgain(t) => PerformAgain(t);
      case DoSetRepeat(t, repeat) =>
        SetRepeat(t, repeat);
    }

    lemma {:induction false} HeapRoom()
      requires Valid()
      ensures heap.nelts <= |timers|
    {
      heap.Count();
      Fewer(heap.nodes, timers);
    }

    method PerformStart(t: Timer, cb: nat, timeout: nat, repeat: nat)
      requires Valid() && t in timers && timeout <= UINT64_MAX && repeat <= UINT64_MAX
      requires timerCounter < UINT64_MAX && heap.nelts + 1 < UINT_LIMIT
      modifies `activeHandles, `timerCounter, `ids, heap, timers`left, timers`right, timers`parent
      modifies t`active, t`callback, t`timeout, t`repeat, t`startId
      ensures Valid() && timerCounter <= old(timerCounter) + 1
      ensures Value() == Started(old(Value()), t, cb, timeout, repeat, time)
    {
      ghost var v := Value();
      var _ := Start(t, cb, timeout, repeat);
      if cb != 0 {
        IsStarted(v, Value(), t, cb, timeout, repeat, time);
      } else {
        Untouched(v, Value());
      }
    }

    method PerformStop(t: Timer)
      requires Valid() && t in timers
      modifies `activeHandles, heap, timers`left, timers`right, timers`parent, t`active
      ensures Valid() && Value() == Stopped(old(Value()), t)
      ensures heap.nelts == old(heap.nelts) - if old(t.active) then 1 else 0
    {
      Stop(t);
      assert Infos(timers) == old(Infos(timers));
    }

    method PerformAgain(t: Timer)
      requires Valid() && t in timers
      requires timerCounter < UINT64_MAX && heap.nelts + 1 < UINT_LIMIT
      modifies `activeHandles, `timerCounter, `ids, heap, timers`left, timers`right, timers`parent
      modifies t`active, t`callback, t`timeout, t`repeat, t`startId
      ensures Valid() && timerCounter <= old(timerCounter) + 1
      ensures Value() == Restarted(old(Value()), t, time)
    {
      ghost var v := Value();
      var _ := Again(t);
      if t.callback != 0 && t.repeat != 0 {
        IsStarted(v, Value(), t, t.callback, t.repeat, t.repeat, time);
      } else {
        Untouched(v, Value());
      }
    }

    // A callback that makes the given calls one after the other.
    method Callback(acts: seq<Act>)
      requires Valid() && forall a :: a in acts ==> GoodAct(a, timers)
      requires timerCounter + |acts| <= UINT64_MAX && |timers| + 1 < UINT_LIMIT
      modifies `activeHandles, `timerCounter, `ids, heap, timers`left, timers`right, timers`parent
      modifies timers`active, timers`callback, timers`timeout, timers`repeat, timers`startId
      ensures Valid() && timerCounter <= old(timerCounter) + |acts|
      ensures Value() == AllActed(old(Value()), acts, time)
    {
      var i := 0;
      assert acts[..0] == [];
      while i < |acts|
        invariant 0 <= i <= |acts| && Valid() && timerCounter <= old(timerCounter) + i
        invariant Value() == AllActed(old(Value()), acts[..i], time)
      {
        assert acts[i] in acts;
        ActedMore(old(Value()), acts, i, time);
        Perform(acts[i]);
        i := i + 1;
      }
      assert acts[..i] == acts;
    }

    // uv_timer_stop and uv_timer_again on a due timer, then its callback.
    method Fire(h: Timer, acts: seq<Act>)
      requires Valid() && h in heap.nodes && forall a :: a in acts ==> GoodAct(a, timers)
      requires timerCounter + 1 + |acts| <= UINT64_MAX && |timers| + 1 < UINT_LIMIT
      modifies `activeHandles, `timerCounter, `ids, heap, timers`left, timers`right, timers`parent
      modifies timers`active, timers`callback, timers`timeout, timers`repeat, timers`startId
      ensures Valid() && timerCounter <= old(timerCounter) + 1 + |acts|
      ensures Value() == AllActed(Turned(old(Value()), h, time), acts, time)
    {
      PerformStop(h);
      PerformAgain(h);
      Callback(acts);
    }

    // h is the strict minimum of the heap.
    lemma {:induction false} StrictMin(h: Timer)
      requires Valid() && heap.min == h
      ensures h in heap.nodes
      ensures forall t :: t in heap.nodes && t != h ==>
        LessKey(KeyOf(KeysOf(heap.nodes), h), KeyOf(KeysOf(heap.nodes), t))
    {
      heap.Empty();
      forall t | t in heap.nodes && t != h
        ensures LessKey(KeyOf(KeysOf(heap.nodes), h), KeyOf(KeysOf(heap.nodes), t))
      {
        heap.MinLeast(t);
        assert ids[h.startId] == h && ids[t.startId] == t;
      }
    }

    // h is the due minimum of the heap, so it is next.
    lemma {:induction false} IsNext(h: Timer)
      requires Valid() && heap.min == h && h.timeout <= time
      ensures h in heap.nodes && IsTurn(Value(), h, time)
    {
      StrictMin(h);
      var i := Infos(timers);
      forall t | t in heap.nodes && t != h
        ensures Sooner(i[h], i[t])
      {
        assert LessKey(KeyOf(KeysOf(heap.nodes), h), KeyOf(KeysOf(heap.nodes), t));
      }
    }

    // uv__run_timers; fired lists the callbacks in the order they ran, script[k] is what the k-th of them does.
    method RunTimers(script: seq<seq<Act>>) returns (fired: seq<Timer>)
      requires Valid() && GoodScript(script, timers) && time < UINT64_MAX
      requires |timers| + 1 < UINT_LIMIT && timerCounter + Calls(script, |script|) + |script| + |timers| <= UINT64_MAX
      modifies `activeHandles, `timerCounter, `ids, heap, timers`left, timers`right, timers`parent
      modifies timers`active, timers`callback, timers`timeout, timers`repeat, timers`startId
      ensures Valid()
      ensures Legal(old(Value()), fired, script, time) && Value() == After(old(Value()), fired, script, time)
      ensures forall t :: t in heap.nodes ==> time < t.timeout
      ensures StopsOnly(script) ==> StopOutcome(old(Value()), Value(), fired, script, time)
    {
      fired := [];
      ghost var v := Value();
      ValueOk();
      var done := false;
      while !done
        invariant Valid() && Legal(v, fired, script, time) && Value() == After(v, fired, script, time)
        invariant timerCounter <= v.counter + |fired| + Calls(script, |fired|)
        invariant done ==> forall t :: t in heap.nodes ==> time < t.timeout
        decreases !done, |script| + |timers| - |fired|
      {
        done, fired := RunNext(v, fired, script);
      }
      assert forall t :: t in heap.nodes && t in Infos(timers) ==> time < Infos(timers)[t].timeout;
      if StopsOnly(script) {
        StopRunEnds(v, fired, script, time);
      }
    }

    // One turn of the loop in uv__run_timers.
    method RunNext(ghost v: View, fired: seq<Timer>, script: seq<seq<Act>>) returns (done: bool, fired': seq<Timer>)
      requires v.Ok() && v.infos.Keys == timers && GoodScript(script, timers) && time < UINT64_MAX
      requires Valid() && Legal(v, fired, script, time) && Value() == After(v, fired, script, time)
      requires |timers| + 1 < UINT_LIMIT && v.counter + Calls(script, |script|) + |script| + |timers| <= UINT64_MAX
      requires timerCounter <= v.counter + |fired| + Calls(script, |fired|)
      modifies `activeHandles, `timerCounter, `ids, heap, timers`left, timers`right, timers`parent
      modifies timers`active, timers`callback, timers`timeout, timers`repeat, timers`startId
      ensures Valid() && Legal(v, fired', script, time) && Value() == After(v, fired', script, time)
      ensures timerCounter <= v.counter + |fired'| + Calls(script, |fired'|)
      ensures if done then fired' == fired && forall t :: t in heap.nodes ==> time < t.timeout
              else |fired'| == |fired| + 1 <= |script| + |timers|
    {
      heap.Empty();
      var h := heap.min;
      if h == null || h.timeout > time {
        NoneDue();
        return true, fired;
      }
      IsNext(h);
      NextFiring(v, fired, script, time, h);
      Fire(h, Acts(script, |fired|));
      done, fired' := false, fired + [h];
    }

    lemma {:induction false} ValueOk()
      requires Valid()
      ensures Value().Ok() && Value().infos.Keys == timers
    {
      forall t | t in heap.nodes
        ensures Infos(timers)[t].callback != 0
      {
        assert Fine(t, true, timerCounter, ids);
      }
    }

    lemma {:induction false} NoneDue()
      requires Valid() && (heap.min == null || time < heap.min.timeout)
      ensures forall t :: t in heap.nodes ==> time < t.timeout
    {
      heap.Empty();
      forall t | t in heap.nodes
        ensures time < t.timeout
      {
        heap.MinLeast(t);
      }
    }
  }

  lemma {:induction false} IsStarted(v: View, v': View, t: Timer, cb: nat, timeout: nat, repeat: nat, now: nat)
    requires v'.infos.Keys == v.infos.Keys && t in v.infos
    requires forall u :: u in v.infos && u != t ==> v'.infos[u] == v.infos[u]
    requires v'.infos[t] == Info(Min(now + timeout, UINT64_MAX), v.counter, repeat, cb) && cb != 0
    requires v'.nodes == v.nodes + {t} && v'.counter == v.counter + 1
    ensures v' == Started(v, t, cb, timeout, repeat, now)
  {
    assert v'.infos == v.infos[t := v'.infos[t]];
  }

  lemma {:induction false} Untouched(v: View, v': View)
    requires v'.infos.Keys == v.infos.Keys && forall u :: u in v.infos ==> v'.infos[u] == v.infos[u]
    requires v'.nodes == v.nodes && v'.counter == v.counter
    ensures v' == v
  {
    assert v'.infos == v.infos;
  }

  // One more callback is part of a legal run, and leaves its bounds as they are.
  lemma {:induction false} NextFiring(v: View, fired: seq<Timer>, script: seq<seq<Act>>, now: nat, h: Timer)
    requires v.Ok() && GoodScript(script, v.infos.Keys) && Legal(v, fired, script, now) && now < UINT64_MAX
    requires IsTurn(After(v, fired, script, now), h, now)
    ensures Legal(v, fired + [h], script, now) && |fired| + 1 <= |script| + |v.infos.Keys|
    ensures After(v, fired + [h], script, now)
         == AllActed(Turned(After(v, fired, script, now), h, now), Acts(script, |fired|), now)
    ensures Calls(script, |fired| + 1) == Calls(script, |fired|) + |Acts(script, |fired|)| <= Calls(script, |script|)
    ensures forall a :: a in Acts(script, |fired|) ==> GoodAct(a, v.infos.Keys)
  {
    LegalMore(v, fired, script, now, h);
    RunBounded(v, fired + [h], script, now);
    CallsMost(script, |fired| + 1);
  }

  // How many calls the first n callbacks make.
  function Calls(script: seq<seq<Act>>, n: nat): nat {
    if n == 0 then 0 else Calls(script, n - 1) + |Acts(script, n - 1)|
  }

  lemma {:induction false} CallsMost(script: seq<seq<Act>>, n: nat)
    ensures Calls(script, n) <= Calls(script, |script|)
    decreases if n <= |script| then |script| - n else n
  {
    if n < |script| {
      CallsMost(script, n + 1);
    } else if n > |script| {
      CallsMost(script, n - 1);
    }
  }

    ghost function Infos(s: set<Timer>): map<Timer, Info>
    reads s`timeout, s`startId, s`repeat, s`callback
  {
    map t | t in s :: Info(t.timeout, t.startId, t.repeat, t.callback)
  }
}
