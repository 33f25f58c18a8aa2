module PoolProgress {
  // The thread pool gets on: a measure that every useful step of a worker or a loop lowers, and that only new work and
  // cancels raise.

  import opened Sequences
  import opened ThreadPool
  import opened PoolHistory
  import opened PoolInvariant
  import opened PoolGuarantees

  // Steps of workers and loops that bring some item, or the shutdown, closer to its end.
  ghost predicate Advances(s: State, a: Step) {
    match a
    case Look(w, k) => s.wq != []
    case Callback(l) => l < |s.loops| && s.loops[l].wq != []
    case Call(_) => true
    case Return(_) => true
    case Finish(_) => true
    case Recycle(_) => true
    case Move(_) => true
    case Done(_) => true
    case _ => false
  }

  // How far an item is from its done().
  function ItemRank(i: Item): nat {
    match i.place
    case InPool => 7
    case At(_) => if i.runs == 0 then 6 else if i.ended == 0 then 5 else 4
    case Between => 4
    case InLoop => 1
    case Over => 0
  }

  // The notifications a loop has still to deal with.
  function LoopRank(o: Loop): nat {
    (if o.pending then 2 else 0) + if o.pc == Called then 1 else 0
  }

  ghost function Pick(items: map<nat, Item>): (id: nat)
    requires items != map[]
    ensures id in items
  {
    var id :| id in items;
    id
  }

  ghost function ItemRanks(items: map<nat, Item>): nat
    decreases |items.Keys|
  {
    if items == map[] then 0 else
    var id := Pick(items);
    assert (items - {id}).Keys == items.Keys - {id};
    ItemRank(items[id]) + ItemRanks(items - {id})
  }

  ghost function LoopRanks(loops: seq<Loop>): nat {
    if loops == [] then 0 else LoopRank(loops[0]) + LoopRanks(loops[1..])
  }

  ghost function Staying(ws: seq<Worker>): nat {
    |ws| - multiset(ws)[Exited]
  }

  ghost function Rank(s: State): nat {
    ItemRanks(s.items) + LoopRanks(s.loops) + Staying(s.workers)
  }

  lemma {:induction false} RankWithout(items: map<nat, Item>, id: nat)
    requires id in items
    ensures ItemRanks(items) == ItemRank(items[id]) + ItemRanks(items - {id})
    decreases |items.Keys|
  {
    var j := Pick(items);
    assert (items - {j}).Keys == items.Keys - {j};
    if j != id {
      assert (items - {j}) - {id} == (items - {id}) - {j};
      RankWithout(items - {j}, id);
      assert (items - {id}).Keys == items.Keys - {id};
      RankWithout(items - {id}, j);
    }
  }

  lemma {:induction false} RankEdit(items: map<nat, Item>, id: nat, i: Item)
    ensures ItemRanks(items[id := i])
         == ItemRanks(items) + ItemRank(i) - if id in items then ItemRank(items[id]) else 0
  {
    RankWithout(items[id := i], id);
    if id in items {
      RankWithout(items, id);
      assert items[id := i] - {id} == items - {id};
    } else {
      assert items[id := i] - {id} == items;
    }
  }

  lemma {:induction false} LoopRankEdit(loops: seq<Loop>, l: nat, o: Loop)
    requires l < |loops|
    ensures LoopRanks(loops[l := o]) == LoopRanks(loops) + LoopRank(o) - LoopRank(loops[l])
  {
    if l == 0 {
      assert loops[l := o][1..] == loops[1..];
    } else {
      LoopRankEdit(loops[1..], l - 1, o);
      assert loops[l := o][1..] == loops[1..][l - 1 := o];
    }
  }

  lemma {:induction false} StayingEdit(ws: seq<Worker>, w: nat, x: Worker)
    requires w < |ws|
    ensures Staying(ws[w := x]) == Staying(ws) + (if ws[w] == Exited then 1 else 0) - if x == Exited then 1 else 0
  {
  }

  lemma {:induction false} SignalStaying(ws: seq<Worker>, k: nat)
    ensures Staying(Signal(ws, k)) == Staying(ws)
  {
    if k < |ws| && ws[k] == Asleep {
      StayingEdit(ws, k, Woken);
    }
  }

  // A notification puts at most this much on a loop.
  lemma {:induction false} DeliverRank(s: State, id: nat, f: Fun, pc: LoopPc)
    requires id in s.items && s.items[id].loop < |s.loops|
    requires ItemRank(s.items[id]) == 4 && (pc == Called ==> s.loops[s.items[id].loop].pc == Called)
    ensures var s' := Deliver(s, id, f, pc);
            ItemRanks(s'.items) + LoopRanks(s'.loops) < ItemRanks(s.items) + LoopRanks(s.loops)
  {
    var i := s.items[id];
    var o := s.loops[i.loop];
    RankEdit(s.items, id, i.(work := f, linked := true, place := InLoop));
    LoopRankEdit(s.loops, i.loop, Loop(o.wq + [id], o.moved, true, pc));
  }

  lemma {:induction false} LookRank(s: State, w: nat, k: nat)
    requires Inv(s) && Enabled(s, Look(w, k))
    ensures if s.wq == [] then Rank(Apply(s, Look(w, k))) == Rank(s) else Rank(Apply(s, Look(w, k))) < Rank(s)
  {
    if s.wq == [] {
      StayingEdit(s.workers, w, Asleep);
    } else if s.wq[0] == Exit {
      StayingEdit(s.workers, w, Exited);
      SignalStaying(s.workers[w := Exited], k);
    } else {
      var id := s.wq[0].id;
      assert Work(id) in s.wq && Story(s.items[id]);
      RankEdit(s.items, id, s.items[id].(linked := false, place := At(w)));
      StayingEdit(s.workers, w, Taken(id));
    }
  }

  // What a worker knows about the item it holds.
  lemma {:induction false} InHand(s: State, w: nat)
    requires Inv(s) && w < |s.workers| && Busy(s.workers[w])
    ensures var id := s.workers[w].id; id in s.items && Holds(s.workers[w], s.items[id], w)
  {
  }

  lemma {:induction false} CallRank(s: State, w: nat)
    requires Enabled(s, Call(w)) && Holds(s.workers[w], s.items[s.workers[w].id], w)
    ensures Rank(Apply(s, Call(w))) < Rank(s)
  {
    var id := s.workers[w].id;
    RankEdit(s.items, id, s.items[id].(runs := s.items[id].runs + 1));
    StayingEdit(s.workers, w, Running(id));
  }

  lemma {:induction false} ReturnRank(s: State, w: nat)
    requires Enabled(s, Return(w)) && Holds(s.workers[w], s.items[s.workers[w].id], w)
    ensures Rank(Apply(s, Return(w))) < Rank(s)
  {
    var id := s.workers[w].id;
    RankEdit(s.items, id, s.items[id].(ended := s.items[id].ended + 1));
    StayingEdit(s.workers, w, Returned(id));
  }

  lemma {:induction false} FinishRank(s: State, w: nat)
    requires Enabled(s, Finish(w)) && Holds(s.workers[w], s.items[s.workers[w].id], w)
    ensures Rank(Apply(s, Finish(w))) < Rank(s)
  {
    var id := s.workers[w].id;
    DeliverRank(s, id, Null, s.loops[s.items[id].loop].pc);
    StayingEdit(s.workers, w, Ready);
  }

  lemma {:induction false} RecycleRank(s: State, l: nat)
    requires Enabled(s, Recycle(l)) && s.items[s.loops[l].pc.id].place == Between
    ensures Rank(Apply(s, Recycle(l))) < Rank(s)
  {
    DeliverRank(s, s.loops[l].pc.id, Cancelled, Free);
  }

  lemma {:induction false} CancelRank(s: State, id: nat)
    requires Enabled(s, Cancel(id))
    requires Cancellable(s.items[id]) ==> s.items[id].place == InPool || s.items[id].place == InLoop
    ensures Rank(Apply(s, Cancel(id))) <= Rank(s) + 3
  {
    var i := s.items[id];
    if Cancellable(i) {
      var o := s.loops[i.loop];
      RankEdit(s.items, id, i.(place := Between, cancels := i.cancels + 1));
      LoopRankEdit(s.loops, i.loop, Loop(Erase(o.wq, id), Erase(o.moved, id), o.pending, Cancelling(id)));
    }
  }

  lemma {:induction false} Withdrawn(s: State, id: nat)
    requires Inv(s) && Enabled(s, Cancel(id)) && Cancellable(s.items[id])
    ensures s.items[id].place == InPool || s.items[id].place == InLoop
  {
    assert Story(s.items[id]) && Kept(s.items[id], id, s.loops[s.items[id].loop]);
  }

  lemma {:induction false} CallbackRank(s: State, l: nat)
    requires Enabled(s, Callback(l))
    ensures Rank(Apply(s, Callback(l))) < Rank(s)
  {
    LoopRankEdit(s.loops, l, s.loops[l].(pending := false, pc := Called));
  }

  lemma {:induction false} MoveRank(s: State, l: nat)
    requires Enabled(s, Move(l))
    ensures Rank(Apply(s, Move(l))) < Rank(s)
  {
    LoopRankEdit(s.loops, l, s.loops[l].(wq := [], moved := s.loops[l].wq, pc := Free));
  }

  lemma {:induction false} DoneRank(s: State, l: nat)
    requires Enabled(s, Done(l)) && s.items[s.loops[l].moved[0]].place == InLoop
    ensures Rank(Apply(s, Done(l))) < Rank(s)
  {
    var o := s.loops[l];
    var i := s.items[o.moved[0]];
    LoopRankEdit(s.loops, l, o.(moved := o.moved[1..]));
    RankEdit(s.items, o.moved[0], i.(place := Over, dones := i.dones + 1,
                                     status := if i.work == Cancelled then UV_ECANCELED else 0));
  }

  // What a step may put on the measure.
  function Cost(a: Step): nat {
    if a.Submit? then 7 else if a.Cancel? then 3 else 0
  }

  // Every useful step lowers the measure; new work and cancels raise it by a constant, nothing else does.
  lemma {:induction false} StepRank(s: State, a: Step)
    requires Inv(s) && Enabled(s, a)
    ensures Rank(Apply(s, a)) + (if Advances(s, a) then 1 else 0) <= Rank(s) + Cost(a)
  {
    match a
    case Submit(id, l, k) =>
      RankEdit(s.items, id, Item(l, User, true, InPool, 0, 0, 0, 0, 0));
      SignalStaying(s.workers, k);
    case PostExit(k) => SignalStaying(s.workers, k);
    case Look(w, k) => LookRank(s, w, k);
    case Spurious(w) => StayingEdit(s.workers, w, Woken);
    case Call(w) =>
      InHand(s, w);
      CallRank(s, w);
    case Return(w) =>
      InHand(s, w);
      ReturnRank(s, w);
    case Finish(w) =>
      InHand(s, w);
      FinishRank(s, w);
    case Cancel(id) =>
      if Cancellable(s.items[id]) {
        Withdrawn(s, id);
      }
      CancelRank(s, id);
    case Recycle(l) =>
      assert LoopPlace(s.items, s.loops[l], l);
      RecycleRank(s, l);
    case Callback(l) => CallbackRank(s, l);
    case Move(l) => MoveRank(s, l);
    case Done(l) =>
      DoneReady(s, l);
      DoneRank(s, l);
  }

  // How many useful steps a run takes, and what its submits and cancels cost.
  ghost function Useful(s: State, run: seq<Step>): nat
    requires Legal(s, run)
    decreases |run|
  {
    if run == [] then 0 else (if Advances(s, run[0]) then 1 else 0) + Useful(Apply(s, run[0]), run[1..])
  }

  function Costs(run: seq<Step>): nat {
    if run == [] then 0 else Cost(run[0]) + Costs(run[1..])
  }

  lemma {:induction false} RunRank(s: State, run: seq<Step>)
    requires Inv(s) && Legal(s, run)
    ensures Useful(s, run) + Rank(Run(s, run)) <= Rank(s) + Costs(run)
    decreases |run|
  {
    if run != [] {
      StepKeeps(s, run[0]);
      StepRank(s, run[0]);
      RunRank(Apply(s, run[0]), run[1..]);
    }
  }

  lemma {:induction false} InitRank(n: nat, m: nat)
    ensures Rank(Init(n, m)) == n
  {
    var s := Init(n, m);
    assert Exited !in s.workers;
    assert forall l :: 0 <= l < m ==> s.loops[l] == Loop([], [], false, Free);
    InitLoops(s.loops);
  }

  lemma {:induction false} InitLoops(loops: seq<Loop>)
    requires forall l :: 0 <= l < |loops| ==> loops[l] == Loop([], [], false, Free)
    ensures LoopRanks(loops) == 0
  {
    if loops != [] {
      InitLoops(loops[1..]);
    }
  }

  // In every run the useful steps are bounded by the number of workers, submits and cancels, so workers and loops
  // cannot be busy for ever with a finite amount of work.
  lemma {:induction false} BoundedWork(n: nat, m: nat, run: seq<Step>)
    requires Legal(Init(n, m), run)
    ensures Useful(Init(n, m), run) <= n + Costs(run)
  {
    InitHolds(n, m);
    InitRank(n, m);
    RunRank(Init(n, m), run);
  }

  lemma {:induction false} LookPossible(s: State, w: nat) returns (a: Step)
    requires Inv(s) && w < |s.workers| && (s.workers[w] == Ready || s.workers[w] == Woken) && s.wq != []
    ensures Enabled(s, a) && Advances(s, a)
  {
    var ws := s.workers[w := Exited];
    var k: nat := 0;
    if Asleep in ws {
      var j :| 0 <= j < |ws| && ws[j] == Asleep;
      k := j;
    }
    assert s.wq[0] != Exit ==> Work(s.wq[0].id) in s.wq;
    a := Look(w, k);
  }

  lemma {:induction false} BusyPossible(s: State, w: nat) returns (a: Step)
    requires Inv(s) && w < |s.workers| && Busy(s.workers[w])
    ensures Enabled(s, a) && Advances(s, a)
  {
    a := match s.workers[w] case Taken(_) => Call(w) case Running(_) => Return(w) case _ => Finish(w);
  }

  lemma {:induction false} PoolPossible(s: State, v: nat) returns (a: Step)
    requires Inv(s) && s.wq != [] && v < |s.workers| && s.workers[v] != Exited
    ensures Enabled(s, a) && Advances(s, a)
  {
    var w := v;
    if s.workers[v] == Asleep {
      assert Asleep in s.workers;
      assert Woken in s.workers;
      w :| 0 <= w < |s.workers| && s.workers[w] == Woken;
    }
    if Busy(s.workers[w]) {
      a := BusyPossible(s, w);
    } else {
      a := LookPossible(s, w);
    }
  }

  lemma {:induction false} LoopPossible(s: State, l: nat) returns (a: Step)
    requires Inv(s) && l < |s.loops| && (s.loops[l].moved + s.loops[l].wq != [] || s.loops[l].pc != Free)
    ensures Enabled(s, a) && Advances(s, a)
  {
    var o := s.loops[l];
    assert LoopPlace(s.items, o, l);
    if o.pc.Cancelling? {
      a := Recycle(l);
    } else if o.pc == Called {
      a := Move(l);
    } else if o.moved != [] {
      assert o.moved[0] in o.moved + o.wq;
      a := Done(l);
    } else {
      a := Callback(l);
    }
  }

  // There is still something to do: an item has not had its done(), or a worker has not left after the exit message.
  ghost predicate Unfinished(s: State) {
    (exists id :: id in s.items && s.items[id].dones == 0) || (s.exiting && exists x :: x in s.workers && x != Exited)
  }

  lemma {:induction false} ItemPossible(s: State, id: nat) returns (a: Step)
    requires Inv(s) && s.workers != [] && id in s.items && s.items[id].dones == 0
    ensures Enabled(s, a) && Advances(s, a)
  {
    var i := s.items[id];
    assert Story(i) && Kept(i, id, s.loops[i.loop]);
    match i.place
    case InPool =>
      assert Exited !in s.workers;
      assert s.workers[0] in s.workers;
      a := PoolPossible(s, 0);
    case At(w) => a := BusyPossible(s, w);
    case _ => a := LoopPossible(s, i.loop);
  }

  lemma {:induction false} UsefulStep(s: State) returns (a: Step)
    requires Inv(s) && s.workers != [] && Unfinished(s)
    ensures Enabled(s, a) && Advances(s, a)
  {
    if id :| id in s.items && s.items[id].dones == 0 {
      a := ItemPossible(s, id);
    } else {
      var v :| 0 <= v < |s.workers| && s.workers[v] != Exited;
      a := PoolPossible(s, v);
    }
  }

  // Steps of workers and loops alone: nothing is submitted, cancelled or posted, and no waiter wakes without a signal.
  predicate Unaided(run: seq<Step>) {
    forall a :: a in run ==> !a.Submit? && !a.PostExit? && !a.Cancel? && !a.Spurious?
  }

  lemma {:induction false} DrainFrom(s: State) returns (run: seq<Step>)
    requires Inv(s) && s.workers != []
    ensures Legal(s, run) && |run| <= Rank(s) && Unaided(run) && !Unfinished(Run(s, run))
    decreases Rank(s)
  {
    run := [];
    if Unfinished(s) {
      var a := UsefulStep(s);
      StepRank(s, a);
      StepKeeps(s, a);
      StepSizes(s, a);
      var rest := DrainFrom(Apply(s, a));
      run := [a] + rest;
      assert run[1..] == rest;
    }
  }

  // After a run something is left to do: a submit has not had its done(), or the exit message has been posted and a
  // worker has not left.
  ghost predicate LeftToDo(n: nat, m: nat, run: seq<Step>)
    requires Legal(Init(n, m), run)
  {
    || (exists id, l :: Submitted(run, id, l) && Count(Init(n, m), run, Reported, id) == 0)
    || (ExitPosted(run) && exists x :: x in Run(Init(n, m), run).workers && x != Exited)
  }

  lemma {:induction false} LeftUnfinished(n: nat, m: nat, run: seq<Step>)
    requires Legal(Init(n, m), run)
    ensures Inv(Run(Init(n, m), run)) && |Run(Init(n, m), run).workers| == n
    ensures LeftToDo(n, m, run) ==> Unfinished(Run(Init(n, m), run))
  {
    var s0 := Init(n, m);
    InitHolds(n, m);
    RunKeeps(s0, run);
    forall id, l | Submitted(run, id, l)
      ensures id in Run(s0, run).items && Run(s0, run).items[id].dones == Count(s0, run, Reported, id)
    {
      Facts(n, m, run, id, l);
    }
    Registered(s0, run, 0, 0);
  }

  // The pool never gets stuck: as long as there is something to do, some worker or loop can take a useful step, one
  // that lowers the measure.
  lemma {:induction false} NeverStuck(n: nat, m: nat, run: seq<Step>) returns (a: Step)
    requires n > 0 && Legal(Init(n, m), run) && LeftToDo(n, m, run)
    ensures var s := Run(Init(n, m), run);
            Enabled(s, a) && Advances(s, a) && Rank(Apply(s, a)) < Rank(s) && Cost(a) == 0
  {
    LeftUnfinished(n, m, run);
    a := UsefulStep(Run(Init(n, m), run));
    StepRank(Run(Init(n, m), run), a);
  }

  // After every run the workers and loops alone can finish everything, within as many steps as the measure says: then
  // every submit has had its done(), once, and after the exit message every worker has left.
  lemma {:induction false} Drain(n: nat, m: nat, run: seq<Step>) returns (more: seq<Step>)
    requires n > 0 && Legal(Init(n, m), run)
    ensures Legal(Init(n, m), run + more) && |more| <= Rank(Run(Init(n, m), run)) && Unaided(more)
    ensures forall id, l :: Submitted(run, id, l) ==> Count(Init(n, m), run + more, Reported, id) == 1
    ensures ExitPosted(run) ==> forall x :: x in Run(Init(n, m), run + more).workers ==> x == Exited
  {
    var s0 := Init(n, m);
    LeftUnfinished(n, m, run);
    more := DrainFrom(Run(s0, run));
    RunJoined(s0, run, more);
    LeftUnfinished(n, m, run + more);
    forall id, l | Submitted(run, id, l)
      ensures Count(s0, run + more, Reported, id) == 1
    {
      Longer(run, more, id, l);
      Outcome(n, m, run + more, id, l);
    }
    if ExitPosted(run) {
      LongerExit(run, more);
    }
  }

  lemma {:induction false} Longer(a: seq<Step>, b: seq<Step>, id: nat, l: nat)
    requires Submitted(a, id, l)
    ensures Submitted(a + b, id, l)
  {
    var k :| Submit(id, l, k) in a;
    assert Submit(id, l, k) in a + b;
  }

  lemma {:induction false} LongerExit(a: seq<Step>, b: seq<Step>)
    requires ExitPosted(a)
    ensures ExitPosted(a + b)
  {
    var k :| PostExit(k) in a;
    assert PostExit(k) in a + b;
  }
}
