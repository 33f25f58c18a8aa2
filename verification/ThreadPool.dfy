// The work queue of threadpool.c as a step system: one step per lock section, for any number of workers,
// event loops and work items.
module ThreadPool {
  import opened Sequences

  const UV_ECANCELED := -125

  // What w->work points to.
  datatype Fun = User | Null | Cancelled

  // An element of the global queue.
  datatype Entry = Work(id: nat) | Exit

  // Where a worker is: about to take the global mutex; in uv_cond_wait, not yet signalled; signalled but not yet
  // resumed; about to call w->work; in that call; about to take the mutex of the loop; gone.
  datatype Worker = Ready | Asleep | Woken | Taken(id: nat) | Running(id: nat) | Returned(id: nat) | Exited

  // Where an item is; Between is the gap between the two lock sections of uv__work_cancel.
  datatype Place = InPool | At(w: nat) | Between | InLoop | Over

  // linked is !QUEUE_EMPTY(&w->wq).  place and everything after it is history: how often work() was started
  // and returned, how often uv_cancel succeeded, how often done() ran and with what status.
  datatype Item = Item(loop: nat, work: Fun, linked: bool,
                       place: Place, runs: nat, ended: nat, cancels: nat, dones: nat, status: int)

  // What the thread of a loop is doing: nothing that matters, inside uv__work_cancel, or about to take the
  // loop's mutex in uv__work_done.
  datatype LoopPc = Free | Cancelling(id: nat) | Called

  // wq is loop->wq, moved the local queue of uv__work_done, pending whether wq_async was sent to.
  datatype Loop = Loop(wq: seq<nat>, moved: seq<nat>, pending: bool, pc: LoopPc)

  datatype State = State(wq: seq<Entry>, idle: int, workers: seq<Worker>, loops: seq<Loop>, items: map<nat, Item>,
                         exiting: bool)

  // k is the sleeper that a condition signal wakes, if there is one.
  datatype Step =
    | Submit(id: nat, l: nat, k: nat)
    | PostExit(k: nat)
    | Look(w: nat, k: nat)
    | Spurious(w: nat)
    | Call(w: nat)
    | Return(w: nat)
    | Finish(w: nat)
    | Cancel(id: nat)
    | Recycle(l: nat)
    | Callback(l: nat)
    | Move(l: nat)
    | Done(l: nat)

  // uv_cond_signal: if anybody is waiting, somebody wakes up.
  predicate SignalOk(ws: seq<Worker>, k: nat) {
    Asleep in ws ==> k < |ws| && ws[k] == Asleep
  }

  function Signal(ws: seq<Worker>, k: nat): seq<Worker> {
    if k < |ws| && ws[k] == Asleep then ws[k := Woken] else ws
  }

  function Init(workers: nat, loops: nat): State {
    State([], 0, seq(workers, i => Ready), seq(loops, i => Loop([], [], false, Free)), map[], false)
  }

  // What uv__work_cancel finds under both mutexes.
  predicate Cancellable(i: Item) {
    i.linked && i.work != Null
  }

  predicate Enabled(s: State, a: Step) {
    match a
    case Submit(id, l, k) => id !in s.items && l < |s.loops| && !s.exiting && (s.idle > 0 ==> SignalOk(s.workers, k))
    case PostExit(k) => !s.exiting && (s.idle > 0 ==> SignalOk(s.workers, k))
    case Look(w, k) =>
      && w < |s.workers| && (s.workers[w] == Ready || s.workers[w] == Woken) && SignalOk(s.workers[w := Exited], k)
      && (s.wq != [] && s.wq[0] != Exit ==> s.wq[0].id in s.items)
    case Spurious(w) => w < |s.workers| && s.workers[w] == Asleep
    case Call(w) => w < |s.workers| && s.workers[w].Taken? && s.workers[w].id in s.items
    case Return(w) => w < |s.workers| && s.workers[w].Running? && s.workers[w].id in s.items
    case Finish(w) => w < |s.workers| && s.workers[w].Returned? && s.workers[w].id in s.items
      && s.items[s.workers[w].id].loop < |s.loops|
    case Cancel(id) => id in s.items && s.items[id].dones == 0 && s.items[id].loop < |s.loops|
      && s.loops[s.items[id].loop].pc == Free
    case Recycle(l) => l < |s.loops| && s.loops[l].pc.Cancelling? && s.loops[l].pc.id in s.items
      && s.items[s.loops[l].pc.id].loop == l
    case Callback(l) => l < |s.loops| && s.loops[l].pending && s.loops[l].pc == Free && s.loops[l].moved == []
    case Move(l) => l < |s.loops| && s.loops[l].pc == Called
    case Done(l) => l < |s.loops| && s.loops[l].pc == Free && s.loops[l].moved != [] && s.loops[l].moved[0] in s.items
  }

  // post()
  function Post(s: State, e: Entry, k: nat): State {
    s.(wq := s.wq + [e], workers := if s.idle > 0 then Signal(s.workers, k) else s.workers)
  }

  // The lock section at the top of worker(), entered fresh or on return from uv_cond_wait.
  function LookStep(s: State, w: nat, k: nat): State
    requires Enabled(s, Look(w, k))
  {
    var idle := if s.workers[w] == Woken then s.idle - 1 else s.idle;
    if s.wq == [] then
      s.(idle := idle + 1, workers := s.workers[w := Asleep])
    else if s.wq[0] == Exit then
      s.(idle := idle, workers := Signal(s.workers[w := Exited], k))
    else
      var id := s.wq[0].id;
      s.(wq := s.wq[1..], idle := idle, workers := s.workers[w := Taken(id)],
         items := s.items[id := s.items[id].(linked := false, place := At(w))])
  }

  // The first half of uv__work_cancel; QUEUE_REMOVE takes the item out of whichever queue it is in.
  function CancelStep(s: State, id: nat): State
    requires Enabled(s, Cancel(id))
  {
    var i := s.items[id];
    var o := s.loops[i.loop];
    if Cancellable(i) then
      s.(wq := Erase(s.wq, Work(id)),
         loops := s.loops[i.loop := Loop(Erase(o.wq, id), Erase(o.moved, id), o.pending, Cancelling(id))],
         items := s.items[id := i.(place := Between, cancels := i.cancels + 1)])
    else
      s
  }

  // QUEUE_INSERT_TAIL(&loop->wq, &w->wq) and uv_async_send.
  function Deliver(s: State, id: nat, f: Fun, pc: LoopPc): State
    requires id in s.items && s.items[id].loop < |s.loops|
  {
    var i := s.items[id];
    var o := s.loops[i.loop];
    s.(loops := s.loops[i.loop := Loop(o.wq + [id], o.moved, true, pc)],
       items := s.items[id := i.(work := f, linked := true, place := InLoop)])
  }

  function Apply(s: State, a: Step): State
    requires Enabled(s, a)
  {
    match a
    case Submit(id, l, k) => Post(s, Work(id), k).(items := s.items[id := Item(l, User, true, InPool, 0, 0, 0, 0, 0)])
    case PostExit(k) => Post(s, Exit, k).(exiting := true)
    case Look(w, k) => LookStep(s, w, k)
    case Spurious(w) => s.(workers := s.workers[w := Woken])
    case Call(w) =>
      var id := s.workers[w].id;
      s.(workers := s.workers[w := Running(id)], items := s.items[id := s.items[id].(runs := s.items[id].runs + 1)])
    case Return(w) =>
      var id := s.workers[w].id;
      s.(workers := s.workers[w := Returned(id)], items := s.items[id := s.items[id].(ended := s.items[id].ended + 1)])
    case Finish(w) =>
      var id := s.workers[w].id;
      Deliver(s, id, Null, s.loops[s.items[id].loop].pc).(workers := s.workers[w := Ready])
    case Cancel(id) => CancelStep(s, id)
    case Recycle(l) =>
      var id := s.loops[l].pc.id;
      Deliver(s, id, Cancelled, Free)
    case Callback(l) => s.(loops := s.loops[l := s.loops[l].(pending := false, pc := Called)])
    case Move(l) => s.(loops := s.loops[l := s.loops[l].(wq := [], moved := s.loops[l].wq, pc := Free)])
    case Done(l) =>
      var id := s.loops[l].moved[0];
      var i := s.items[id];
      s.(loops := s.loops[l := s.loops[l].(moved := s.loops[l].moved[1..])],
         items := s.items[id := i.(place := Over, dones := i.dones + 1,
                                   status := if i.work == Cancelled then UV_ECANCELED else 0)])
  }

  predicate Legal(s: State, run: seq<Step>)
    decreases |run|
  {
    run == [] || (Enabled(s, run[0]) && Legal(Apply(s, run[0]), run[1..]))
  }

  function Run(s: State, run: seq<Step>): State
    requires Legal(s, run)
    decreases |run|
  {
    if run == [] then s else Run(Apply(s, run[0]), run[1..])
  }

  // s can be reached by n workers and m loops.
  ghost predicate Reachable(s: State, n: nat, m: nat) {
    exists run :: Legal(Init(n, m), run) && Run(Init(n, m), run) == s
  }
}
