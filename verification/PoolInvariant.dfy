// The invariant of the thread pool, one predicate for each part of the state, and the proof that every step of
// workers, submitters, cancels and loops keeps it, part by part.
module PoolInvariant {
  import opened Sequences
  import opened ThreadPool

  // Sleepers are counted, and while one sleeps there is a signalled worker for every one of the n queued entries.
  ghost predicate WakeUps(idle: int, ws: seq<Worker>, n: nat) {
    && idle == multiset(ws)[Asleep] + multiset(ws)[Woken]
    && (Asleep in ws ==> n <= multiset(ws)[Woken])
  }

  // The exit message is queued once and stays last; a worker only leaves once nothing else is queued.
  ghost predicate ExitLast(wq: seq<Entry>, ws: seq<Worker>, exiting: bool) {
    && (exiting ==> |wq| > 0 && wq[|wq| - 1] == Exit)
    && (Exit in wq ==> exiting)
    && (Exited in ws ==> wq == [Exit])
  }

  // The queue holds exactly the items whose place is the pool.
  ghost predicate PoolPlaces(wq: seq<Entry>, items: map<nat, Item>) {
    && Distinct(wq)
    && (forall id :: Work(id) in wq ==> id in items && items[id].place == InPool)
    && (forall id :: id in items && items[id].place == InPool ==> Work(id) in wq)
  }

  predicate Busy(w: Worker) {
    w.Taken? || w.Running? || w.Returned?
  }

  // The worker and the item it holds.
  ghost predicate Holds(x: Worker, i: Item, w: nat) {
    && i.place == At(w)
    && i.runs == (if x.Taken? then 0 else 1) && i.ended == (if x.Returned? then 1 else 0)
  }

  ghost predicate WorkerPlaces(ws: seq<Worker>, items: map<nat, Item>) {
    && (forall w :: 0 <= w < |ws| && Busy(ws[w]) ==> ws[w].id in items && Holds(ws[w], items[ws[w].id], w))
    && (forall id :: id in items && items[id].place.At? ==>
          items[id].place.w < |ws| && Busy(ws[items[id].place.w]) && ws[items[id].place.w].id == id)
  }

  // One loop: its two queues hold only its own items, and completed items never wait without a notification.
  ghost predicate LoopPlace(items: map<nat, Item>, o: Loop, l: nat) {
    && Distinct(o.moved + o.wq)
    && (forall id :: id in o.moved + o.wq ==> id in items && items[id].place == InLoop && items[id].loop == l)
    && (o.pc.Cancelling? ==> o.pc.id in items && items[o.pc.id].place == Between && items[o.pc.id].loop == l)
    && (o.wq != [] ==> o.pending || o.pc == Called)
    && (o.pc == Called ==> o.moved == [])
  }

  // Where the loop o keeps the item.
  ghost predicate Kept(i: Item, id: nat, o: Loop) {
    && (i.place == InLoop ==> id in o.moved + o.wq)
    && (i.place == Between ==> o.pc == Cancelling(id))
  }

  ghost predicate LoopPlaces(loops: seq<Loop>, items: map<nat, Item>) {
    && (forall l :: 0 <= l < |loops| ==> LoopPlace(items, loops[l], l))
    && (forall id :: id in items ==> items[id].loop < |loops| && Kept(items[id], id, loops[items[id].loop]))
  }

  // Either the work ran, once and to its end, or it was cancelled and never started.
  ghost predicate Settled(i: Item) {
    if i.work == Null then i.runs == i.ended == 1 && i.cancels == 0
    else i.work == Cancelled && i.runs == i.ended == 0 && i.cancels > 0
  }

  // What has happened to an item, by where it is.
  ghost predicate Story(i: Item) {
    match i.place
    case InPool => i.work == User && i.linked && i.runs == i.ended == i.cancels == i.dones == 0
    case At(w) => i.work == User && !i.linked && i.cancels == i.dones == 0
    case Between => i.work != Null && i.linked && i.runs == i.ended == i.dones == 0 && i.cancels > 0
    case InLoop => i.linked && i.dones == 0 && Settled(i)
    case Over => i.dones == 1 && Settled(i) && i.status == if i.work == Cancelled then UV_ECANCELED else 0
  }

  ghost predicate Stories(items: map<nat, Item>) {
    forall id :: id in items ==> Story(items[id])
  }

  ghost predicate Inv(s: State) {
    && WakeUps(s.idle, s.workers, |s.wq|) && ExitLast(s.wq, s.workers, s.exiting)
    && PoolPlaces(s.wq, s.items) && WorkerPlaces(s.workers, s.items) && LoopPlaces(s.loops, s.items) && Stories(s.items)
  }

  lemma {:induction false} PoolAppend(wq: seq<Entry>, items: map<nat, Item>, id: nat, i: Item)
    requires PoolPlaces(wq, items) && id !in items && i.place == InPool
    ensures PoolPlaces(wq + [Work(id)], items[id := i])
  {
    assert Work(id) !in wq;
  }

  lemma {:induction false} PoolErase(wq: seq<Entry>, items: map<nat, Item>, id: nat, i: Item)
    requires PoolPlaces(wq, items) && i.place != InPool
    ensures PoolPlaces(Erase(wq, Work(id)), items[id := i])
  {
    ErasedSeq(wq, Work(id));
  }

  lemma {:induction false} PoolSame(wq: seq<Entry>, items: map<nat, Item>, id: nat, i: Item)
    requires PoolPlaces(wq, items) && id in items && items[id].place != InPool && i.place != InPool
    ensures PoolPlaces(wq, items[id := i])
  {
  }

  // Worker w becomes x and the item it holds before or after becomes i.
  lemma {:induction false} WorkerEdit(ws: seq<Worker>, items: map<nat, Item>, w: nat, x: Worker, id: nat, i: Item)
    requires WorkerPlaces(ws, items) && w < |ws|
    requires Busy(ws[w]) ==> ws[w].id == id
    requires id in items && items[id].place.At? ==> Busy(ws[w])
    requires if Busy(x) then x.id == id && Holds(x, i, w) else !i.place.At?
    ensures WorkerPlaces(ws[w := x], items[id := i])
  {
  }

  lemma {:induction false} WorkerSame(ws: seq<Worker>, items: map<nat, Item>, id: nat, i: Item)
    requires WorkerPlaces(ws, items) && (id in items ==> !items[id].place.At?) && !i.place.At?
    ensures WorkerPlaces(ws, items[id := i])
  {
  }

  lemma {:induction false} WorkerIdle(ws: seq<Worker>, items: map<nat, Item>, w: nat, x: Worker)
    requires WorkerPlaces(ws, items) && w < |ws| && !Busy(ws[w]) && !Busy(x)
    ensures WorkerPlaces(ws[w := x], items)
  {
  }

  lemma {:induction false} LoopSame(loops: seq<Loop>, items: map<nat, Item>, id: nat, i: Item)
    requires LoopPlaces(loops, items) && i.loop < |loops|
    requires id in items ==> items[id].place != InLoop && items[id].place != Between
    requires i.place != InLoop && i.place != Between
    ensures LoopPlaces(loops, items[id := i])
  {
    forall l | 0 <= l < |loops|
      ensures LoopPlace(items[id := i], loops[l], l)
    {
      assert LoopPlace(items, loops[l], l);
    }
  }

  // Loop l becomes o and its item id becomes i.
  lemma {:induction false} LoopEdit(loops: seq<Loop>, items: map<nat, Item>, l: nat, o: Loop, id: nat, i: Item)
    requires LoopPlaces(loops, items) && l < |loops| && id in items && items[id].loop == i.loop == l
    requires LoopPlace(items[id := i], o, l) && Kept(i, id, o)
    requires forall j :: j != id && j in loops[l].moved + loops[l].wq ==> j in o.moved + o.wq
    requires loops[l].pc.Cancelling? && loops[l].pc.id != id ==> o.pc == loops[l].pc
    ensures LoopPlaces(loops[l := o], items[id := i])
  {
    var loops', items' := loops[l := o], items[id := i];
    forall k | 0 <= k < |loops'|
      ensures LoopPlace(items', loops'[k], k)
    {
      assert LoopPlace(items, loops[k], k);
    }
    forall j | j in items'
      ensures items'[j].loop < |loops'| && Kept(items'[j], j, loops'[items'[j].loop])
    {
      assert j != id ==> Kept(items[j], j, loops[items[j].loop]);
    }
  }

  // Workers that neither wait nor leave do not matter to the condition variable.
  lemma {:induction false} WorkerMoves(idle: int, ws: seq<Worker>, n: nat, w: nat, x: Worker)
    requires WakeUps(idle, ws, n) && w < |ws| && (Busy(ws[w]) || ws[w] == Ready) && (Busy(x) || x == Ready)
    ensures WakeUps(idle, ws[w := x], n) && (Exited in ws[w := x] ==> Exited in ws)
  {
  }

  lemma {:induction false} StoryEdit(items: map<nat, Item>, id: nat, i: Item)
    requires Stories(items) && Story(i)
    ensures Stories(items[id := i])
  {
  }

  lemma {:induction false} InitHolds(n: nat, m: nat)
    ensures Inv(Init(n, m))
  {
    var s := Init(n, m);
    assert Asleep !in s.workers && Woken !in s.workers && Exited !in s.workers;
  }

  // A signal keeps the sleepers counted.
  lemma {:induction false} SignalKeeps(idle: int, ws: seq<Worker>, n: nat, k: nat, items: map<nat, Item>)
    requires WakeUps(idle, ws, n) && (idle > 0 ==> SignalOk(ws, k)) && WorkerPlaces(ws, items)
    ensures var ws' := if idle > 0 then Signal(ws, k) else ws;
            WakeUps(idle, ws', n + 1) && WorkerPlaces(ws', items) && (Exited in ws' ==> Exited in ws)
  {
    assert Asleep in ws ==> multiset(ws)[Asleep] > 0;
    if idle > 0 && Asleep in ws {
      WorkerIdle(ws, items, k, Woken);
    }
  }

  lemma {:induction false} SubmitKeeps(s: State, id: nat, l: nat, k: nat)
    requires Inv(s) && Enabled(s, Submit(id, l, k))
    ensures Inv(Apply(s, Submit(id, l, k)))
  {
    var i := Item(l, User, true, InPool, 0, 0, 0, 0, 0);
    SignalKeeps(s.idle, s.workers, |s.wq|, k, s.items);
    PoolAppend(s.wq, s.items, id, i);
    WorkerSame(Post(s, Work(id), k).workers, s.items, id, i);
    LoopSame(s.loops, s.items, id, i);
  }

  lemma {:induction false} PostExitKeeps(s: State, k: nat)
    requires Inv(s) && Enabled(s, PostExit(k))
    ensures Inv(Apply(s, PostExit(k)))
  {
    SignalKeeps(s.idle, s.workers, |s.wq|, k, s.items);
  }

  // The idle count and the sleepers after worker w has come out of, or not gone into, uv_cond_wait.
  lemma {:induction false} LookCounts(idle: int, ws: seq<Worker>, n: nat, w: nat, x: Worker)
    requires WakeUps(idle, ws, n) && w < |ws| && (ws[w] == Ready || ws[w] == Woken)
    ensures var ws', idle' := ws[w := x], if ws[w] == Woken then idle - 1 else idle;
            && (Busy(x) && n > 0 ==> WakeUps(idle', ws', n - 1) && (Exited in ws' ==> Exited in ws))
            && (x == Asleep && n == 0 ==> WakeUps(idle' + 1, ws', n) && (Exited in ws' ==> Exited in ws))
            && (x == Exited ==> idle' == multiset(ws')[Asleep] + multiset(ws')[Woken])
            && (x == Exited && Asleep in ws' ==> n <= multiset(ws')[Woken] + 1)
  {
  }

  lemma {:induction false} LookSleeps(s: State, w: nat, k: nat)
    requires Inv(s) && Enabled(s, Look(w, k)) && s.wq == []
    ensures Inv(Apply(s, Look(w, k)))
  {
    LookCounts(s.idle, s.workers, 0, w, Asleep);
    WorkerIdle(s.workers, s.items, w, Asleep);
  }

  // A worker that leaves hands its signal on.
  lemma {:induction false} SignalPassedOn(idle: int, ws: seq<Worker>, w: nat, k: nat, items: map<nat, Item>)
    requires WakeUps(idle, ws, 1) && WorkerPlaces(ws, items)
    requires w < |ws| && (ws[w] == Ready || ws[w] == Woken) && SignalOk(ws[w := Exited], k)
    ensures var ws' := Signal(ws[w := Exited], k);
            WakeUps(if ws[w] == Woken then idle - 1 else idle, ws', 1) && WorkerPlaces(ws', items)
  {
    LookCounts(idle, ws, 1, w, Exited);
    WorkerIdle(ws, items, w, Exited);
    var left := ws[w := Exited];
    if Asleep in left {
      WorkerIdle(left, items, k, Woken);
    }
  }

  lemma {:induction false} LookExits(s: State, w: nat, k: nat)
    requires Inv(s) && Enabled(s, Look(w, k)) && s.wq != [] && s.wq[0] == Exit
    ensures Inv(Apply(s, Look(w, k)))
  {
    assert s.wq == [Exit] by {
      assert Exit in s.wq && s.wq[|s.wq| - 1] == Exit;
    }
    SignalPassedOn(s.idle, s.workers, w, k, s.items);
  }

  // The head of the queue is taken.
  lemma {:induction false} EntryTaken(wq: seq<Entry>, ws: seq<Worker>, exiting: bool, w: nat)
    requires ExitLast(wq, ws, exiting) && wq != [] && wq[0] != Exit && w < |ws|
    ensures ExitLast(wq[1..], ws[w := Taken(wq[0].id)], exiting)
    ensures wq[1..] == Erase(wq, wq[0])
  {
    assert exiting ==> |wq| > 1;
    assert Exited !in ws[w := Taken(wq[0].id)];
  }

  lemma {:induction false} LookTakes(s: State, w: nat, k: nat)
    requires Inv(s) && Enabled(s, Look(w, k)) && s.wq != [] && s.wq[0] != Exit
    ensures Inv(Apply(s, Look(w, k)))
  {
    var id := s.wq[0].id;
    var i := s.items[id].(linked := false, place := At(w));
    assert Work(id) in s.wq && s.items[id].place == InPool && Story(s.items[id]);
    EntryTaken(s.wq, s.workers, s.exiting, w);
    PoolErase(s.wq, s.items, id, i);
    StoryEdit(s.items, id, i);
    LookCounts(s.idle, s.workers, |s.wq|, w, Taken(id));
    WorkerEdit(s.workers, s.items, w, Taken(id), id, i);
    LoopSame(s.loops, s.items, id, i);
  }

  lemma {:induction false} LookKeeps(s: State, w: nat, k: nat)
    requires Inv(s) && Enabled(s, Look(w, k))
    ensures Inv(Apply(s, Look(w, k)))
  {
    if s.wq == [] {
      LookSleeps(s, w, k);
    } else if s.wq[0] == Exit {
      LookExits(s, w, k);
    } else {
      LookTakes(s, w, k);
    }
  }

  lemma {:induction false} SpuriousKeeps(s: State, w: nat)
    requires Inv(s) && Enabled(s, Spurious(w))
    ensures Inv(Apply(s, Spurious(w)))
  {
    WorkerIdle(s.workers, s.items, w, Woken);
  }

  // A worker goes on with the item i0 that it holds, which becomes i.
  lemma {:induction false} WorkerParts(s: State, w: nat, x: Worker, id: nat, i: Item)
    requires Inv(s) && w < |s.workers| && Busy(s.workers[w]) && s.workers[w].id == id && id in s.items
    requires Busy(x) && x.id == id && Holds(x, i, w) && Story(i) && i.loop == s.items[id].loop
    ensures Inv(s.(workers := s.workers[w := x], items := s.items[id := i]))
  {
    assert Holds(s.workers[w], s.items[id], w);
    assert Kept(s.items[id], id, s.loops[s.items[id].loop]);
    WorkerMoves(s.idle, s.workers, |s.wq|, w, x);
    StoryEdit(s.items, id, i);
    PoolSame(s.wq, s.items, id, i);
    WorkerEdit(s.workers, s.items, w, x, id, i);
    LoopSame(s.loops, s.items, id, i);
  }

  lemma {:induction false} CallKeeps(s: State, w: nat)
    requires Inv(s) && Enabled(s, Call(w))
    ensures Inv(Apply(s, Call(w)))
  {
    var id := s.workers[w].id;
    assert Holds(s.workers[w], s.items[id], w) && Story(s.items[id]);
    WorkerParts(s, w, Running(id), id, s.items[id].(runs := s.items[id].runs + 1));
    CallIs(s, w);
  }

  lemma {:induction false} CallIs(s: State, w: nat)
    requires Enabled(s, Call(w))
    ensures var id := s.workers[w].id;
            Apply(s, Call(w))
            == s.(workers := s.workers[w := Running(id)],
                  items := s.items[id := s.items[id].(runs := s.items[id].runs + 1)])
  {
  }

  lemma {:induction false} ReturnIs(s: State, w: nat)
    requires Enabled(s, Return(w))
    ensures var id := s.workers[w].id;
            Apply(s, Return(w))
            == s.(workers := s.workers[w := Returned(id)],
                  items := s.items[id := s.items[id].(ended := s.items[id].ended + 1)])
  {
  }

  lemma {:induction false} ReturnKeeps(s: State, w: nat)
    requires Inv(s) && Enabled(s, Return(w))
    ensures Inv(Apply(s, Return(w)))
  {
    var id := s.workers[w].id;
    assert Holds(s.workers[w], s.items[id], w) && Story(s.items[id]);
    WorkerParts(s, w, Returned(id), id, s.items[id].(ended := s.items[id].ended + 1));
    ReturnIs(s, w);
  }

  // An item is delivered to its loop.
  lemma {:induction false} DeliverKeeps(loops: seq<Loop>, items: map<nat, Item>, id: nat, f: Fun, pc: LoopPc)
    requires LoopPlaces(loops, items) && id in items && items[id].place != InLoop
    requires var was := loops[items[id].loop].pc; if was == Cancelling(id) then pc == Free else pc == was
    ensures var i := items[id].(work := f, linked := true, place := InLoop);
            var o := loops[i.loop];
            LoopPlaces(loops[i.loop := Loop(o.wq + [id], o.moved, true, pc)], items[id := i])
  {
    var l := items[id].loop;
    var i := items[id].(work := f, linked := true, place := InLoop);
    var o := loops[l];
    var o' := Loop(o.wq + [id], o.moved, true, pc);
    assert LoopPlace(items, o, l);
    assert id !in o.moved + o.wq;
    assert o'.moved + o'.wq == (o.moved + o.wq) + [id];
    LoopEdit(loops, items, l, o', id, i);
  }

  lemma {:induction false} FinishParts(s: State, w: nat)
    requires Inv(s) && w < |s.workers| && s.workers[w].Returned?
    ensures var id := s.workers[w].id;
            var i := s.items[id].(work := Null, linked := true, place := InLoop);
            && WakeUps(s.idle, s.workers[w := Ready], |s.wq|) && ExitLast(s.wq, s.workers[w := Ready], s.exiting)
            && PoolPlaces(s.wq, s.items[id := i]) && WorkerPlaces(s.workers[w := Ready], s.items[id := i])
            && Stories(s.items[id := i])
  {
    var id := s.workers[w].id;
    assert Holds(s.workers[w], s.items[id], w);
    WorkerMoves(s.idle, s.workers, |s.wq|, w, Ready);
    var i := s.items[id].(work := Null, linked := true, place := InLoop);
    assert Story(s.items[id]) && Story(i);
    StoryEdit(s.items, id, i);
    PoolSame(s.wq, s.items, id, i);
    WorkerEdit(s.workers, s.items, w, Ready, id, i);
  }

  lemma {:induction false} FinishKeeps(s: State, w: nat)
    requires Inv(s) && Enabled(s, Finish(w))
    ensures Inv(Apply(s, Finish(w)))
  {
    var id := s.workers[w].id;
    var l := s.items[id].loop;
    FinishParts(s, w);
    assert Holds(s.workers[w], s.items[id], w);
    assert LoopPlace(s.items, s.loops[l], l) && s.loops[l].pc != Cancelling(id);
    DeliverKeeps(s.loops, s.items, id, Null, s.loops[l].pc);
  }

  lemma {:induction false} RecycleKeeps(s: State, l: nat)
    requires Inv(s) && Enabled(s, Recycle(l))
    ensures Inv(Apply(s, Recycle(l)))
  {
    assert LoopPlace(s.items, s.loops[l], l);
    var id := s.loops[l].pc.id;
    var i := s.items[id].(work := Cancelled, linked := true, place := InLoop);
    PoolSame(s.wq, s.items, id, i);
    WorkerSame(s.workers, s.items, id, i);
    DeliverKeeps(s.loops, s.items, id, Cancelled, Free);
  }

  lemma {:induction false} LoopCancels(loops: seq<Loop>, items: map<nat, Item>, id: nat, i: Item)
    requires LoopPlaces(loops, items) && id in items && items[id].loop == i.loop && i.place == Between
    requires loops[i.loop].pc == Free
    ensures var o := loops[i.loop];
            LoopPlaces(loops[i.loop := Loop(Erase(o.wq, id), Erase(o.moved, id), o.pending, Cancelling(id))],
                       items[id := i])
  {
    var l := i.loop;
    var o := loops[l];
    var o' := Loop(Erase(o.wq, id), Erase(o.moved, id), o.pending, Cancelling(id));
    assert LoopPlace(items, o, l);
    ErasedPair(o.moved, o.wq, id);
    assert forall j :: j != id && j in o.moved + o.wq ==> j in o'.moved + o'.wq;
    LoopEdit(loops, items, l, o', id, i);
  }

  lemma {:induction false} EntryCancelled(wq: seq<Entry>, idle: int, ws: seq<Worker>, exiting: bool, id: nat)
    requires Distinct(wq) && WakeUps(idle, ws, |wq|) && ExitLast(wq, ws, exiting)
    ensures var wq' := Erase(wq, Work(id)); WakeUps(idle, ws, |wq'|) && ExitLast(wq', ws, exiting)
  {
    ErasedSeq(wq, Work(id));
    if wq == [Exit] {
      EraseAbsent(wq, Work(id));
    }
  }

  lemma {:induction false} CancelKeeps(s: State, id: nat)
    requires Inv(s) && Enabled(s, Cancel(id))
    ensures Inv(Apply(s, Cancel(id)))
  {
    if Cancellable(s.items[id]) {
      var i := s.items[id].(place := Between, cancels := s.items[id].cancels + 1);
      assert Story(s.items[id]) && !s.items[id].place.At?;
      EntryCancelled(s.wq, s.idle, s.workers, s.exiting, id);
      StoryEdit(s.items, id, i);
      PoolErase(s.wq, s.items, id, i);
      WorkerSame(s.workers, s.items, id, i);
      LoopCancels(s.loops, s.items, id, i);
      CancelIs(s, id, i);
    }
  }

  lemma {:induction false} CancelIs(s: State, id: nat, i: Item)
    requires Enabled(s, Cancel(id)) && Cancellable(s.items[id])
    requires i == s.items[id].(place := Between, cancels := s.items[id].cancels + 1)
    ensures var o := s.loops[i.loop];
            Apply(s, Cancel(id))
            == s.(wq := Erase(s.wq, Work(id)), items := s.items[id := i],
                  loops := s.loops[i.loop := Loop(Erase(o.wq, id), Erase(o.moved, id), o.pending, Cancelling(id))])
  {
  }

  lemma {:induction false} CallbackKeeps(s: State, l: nat)
    requires Inv(s) && Enabled(s, Callback(l))
    ensures Inv(Apply(s, Callback(l)))
  {
    LoopOnly(s.loops, s.items, l, s.loops[l].(pending := false, pc := Called));
  }

  lemma {:induction false} LoopOnly(loops: seq<Loop>, items: map<nat, Item>, l: nat, o: Loop)
    requires LoopPlaces(loops, items) && l < |loops| && LoopPlace(items, o, l)
    requires o.moved + o.wq == loops[l].moved + loops[l].wq
    requires loops[l].pc.Cancelling? ==> o.pc == loops[l].pc
    ensures LoopPlaces(loops[l := o], items)
  {
    forall j | j in items
      ensures Kept(items[j], j, loops[l := o][items[j].loop])
    {
      assert Kept(items[j], j, loops[items[j].loop]);
    }
  }

  lemma {:induction false} MoveKeeps(s: State, l: nat)
    requires Inv(s) && Enabled(s, Move(l))
    ensures Inv(Apply(s, Move(l)))
  {
    var o := s.loops[l];
    assert LoopPlace(s.items, o, l);
    assert o.wq + [] == o.moved + o.wq;
    LoopOnly(s.loops, s.items, l, o.(wq := [], moved := o.wq, pc := Free));
  }

  lemma {:induction false} LoopPops(loops: seq<Loop>, items: map<nat, Item>, l: nat, i: Item)
    requires LoopPlaces(loops, items) && l < |loops| && loops[l].moved != [] && i.loop == l && i.place == Over
    ensures var id := loops[l].moved[0];
            id in items && items[id].place == InLoop
            && LoopPlaces(loops[l := loops[l].(moved := loops[l].moved[1..])], items[id := i])
  {
    var o := loops[l];
    assert LoopPlace(items, o, l);
    var id := o.moved[0];
    var o' := o.(moved := o.moved[1..]);
    var all, rest := o.moved + o.wq, o'.moved + o'.wq;
    assert all == [id] + rest && id in all;
    DistinctApart([id], rest);
    assert id in [id];
    LoopEdit(loops, items, l, o', id, i);
  }

  lemma {:induction false} DoneParts(s: State, l: nat, i: Item)
    requires Inv(s) && l < |s.loops| && s.loops[l].moved != []
    requires s.loops[l].moved[0] in s.items && i.place == Over && i.loop == l && Story(i)
    ensures Inv(s.(loops := s.loops[l := s.loops[l].(moved := s.loops[l].moved[1..])],
                   items := s.items[s.loops[l].moved[0] := i]))
  {
    var id := s.loops[l].moved[0];
    LoopPops(s.loops, s.items, l, i);
    StoryEdit(s.items, id, i);
    PoolSame(s.wq, s.items, id, i);
    WorkerSame(s.workers, s.items, id, i);
  }

  lemma {:induction false} DoneReady(s: State, l: nat)
    requires Inv(s) && l < |s.loops| && s.loops[l].moved != []
    ensures var id := s.loops[l].moved[0];
            id in s.items && s.items[id].place == InLoop && s.items[id].loop == l && Story(s.items[id])
  {
    var id := s.loops[l].moved[0];
    assert LoopPlace(s.items, s.loops[l], l) && id in s.loops[l].moved + s.loops[l].wq;
  }

  function Reported(i: Item): Item {
    i.(place := Over, dones := i.dones + 1, status := if i.work == Cancelled then UV_ECANCELED else 0)
  }

  lemma {:induction false} DoneIs(s: State, l: nat)
    requires Enabled(s, Done(l))
    ensures var id := s.loops[l].moved[0];
            Apply(s, Done(l))
            == s.(loops := s.loops[l := s.loops[l].(moved := s.loops[l].moved[1..])],
                  items := s.items[id := Reported(s.items[id])])
  {
  }

  lemma {:induction false} DoneKeeps(s: State, l: nat)
    requires Inv(s) && Enabled(s, Done(l))
    ensures Inv(Apply(s, Done(l)))
  {
    DoneReady(s, l);
    DoneParts(s, l, Reported(s.items[s.loops[l].moved[0]]));
    DoneIs(s, l);
  }

  lemma {:induction false} StepKeeps(s: State, a: Step)
    requires Inv(s) && Enabled(s, a)
    ensures Inv(Apply(s, a))
  {
    match a
    case Submit(id, l, k) => SubmitKeeps(s, id, l, k);
    case PostExit(k) => PostExitKeeps(s, k);
    case Look(w, k) => LookKeeps(s, w, k);
    case Spurious(w) => SpuriousKeeps(s, w);
    case Call(w) => CallKeeps(s, w);
    case Return(w) => ReturnKeeps(s, w);
    case Finish(w) => FinishKeeps(s, w);
    case Cancel(id) => CancelKeeps(s, id);
    case Recycle(l) => RecycleKeeps(s, l);
    case Callback(l) => CallbackKeeps(s, l);
    case Move(l) => MoveKeeps(s, l);
    case Done(l) => DoneKeeps(s, l);
  }

  // Nobody joins the pool or leaves it.
  lemma {:induction false} StepSizes(s: State, a: Step)
    requires Enabled(s, a)
    ensures |Apply(s, a).workers| == |s.workers| && |Apply(s, a).loops| == |s.loops|
  {
  }

  lemma {:induction false} RunKeeps(s: State, run: seq<Step>)
    requires Inv(s) && Legal(s, run)
    ensures Inv(Run(s, run)) && |Run(s, run).workers| == |s.workers| && |Run(s, run).loops| == |s.loops|
    decreases |run|
  {
    if run != [] {
      StepKeeps(s, run[0]);
      StepSizes(s, run[0]);
      RunKeeps(Apply(s, run[0]), run[1..]);
    }
  }

  lemma {:induction false} ReachableInv(s: State, n: nat, m: nat)
    requires Reachable(s, n, m)
    ensures Inv(s) && |s.workers| == n && |s.loops| == m
  {
    var run :| Legal(Init(n, m), run) && Run(Init(n, m), run) == s;
    InitHolds(n, m);
    RunKeeps(Init(n, m), run);
  }
}
