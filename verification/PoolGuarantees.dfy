module PoolGuarantees {
  // What the thread pool guarantees in every interleaving.

  import opened Sequences
  import opened ThreadPool
  import opened PoolHistory
  import opened PoolInvariant

  // What the state at the end of a run says about the item of a submit.
  lemma {:induction false} Facts(n: nat, m: nat, run: seq<Step>, id: nat, l: nat)
    requires Legal(Init(n, m), run) && Submitted(run, id, l)
    ensures var s0 := Init(n, m);
            var s := Run(s0, run);
            && Inv(s) && |s.workers| == n && |s.loops| == m
            && id in s.items && s.items[id].loop == l && Story(s.items[id])
            && s.items[id].runs == Count(s0, run, Started, id) && s.items[id].ended == Count(s0, run, Ended, id)
            && s.items[id].cancels == Count(s0, run, Withdrawn, id) && s.items[id].dones == Count(s0, run, Reported, id)
            && (s.exiting <==> ExitPosted(run))
  {
    var s0 := Init(n, m);
    Registered(s0, run, id, l);
    OnlySubmitted(s0, run, id);
    InitHolds(n, m);
    RunKeeps(s0, run);
    RunAccounts(s0, run, Started, id);
    RunAccounts(s0, run, Ended, id);
    RunAccounts(s0, run, Withdrawn, id);
    RunAccounts(s0, run, Reported, id);
  }

  // For every submit: done() runs at most once.  It sees UV_ECANCELED exactly when some uv_cancel answered 0, and then
  // work() never ran; otherwise work() ran exactly once and was over before.
  lemma {:induction false} Outcome(n: nat, m: nat, run: seq<Step>, id: nat, l: nat)
    requires Legal(Init(n, m), run) && Submitted(run, id, l)
    ensures var s0 := Init(n, m);
            var items := Run(s0, run).items;
            var started, ended := Count(s0, run, Started, id), Count(s0, run, Ended, id);
            var withdrawn, reported := Count(s0, run, Withdrawn, id), Count(s0, run, Reported, id);
            && reported <= 1 && ended <= started <= 1 && (withdrawn > 0 ==> started == 0)
            && (reported == 1 && withdrawn == 0 ==> ended == 1)
            && id in items && (reported == 1 ==> items[id].status == if withdrawn > 0 then UV_ECANCELED else 0)
  {
    Facts(n, m, run, id, l);
  }

  // uv_cancel answers UV_EBUSY exactly when a worker has the item or its work is over, and a worker never calls
  // anything but the user's function.
  lemma {:induction false} CancelAnswer(n: nat, m: nat, run: seq<Step>, id: nat, l: nat)
    requires Legal(Init(n, m), run) && Submitted(run, id, l) && Enabled(Run(Init(n, m), run), Cancel(id))
    ensures var s := Run(Init(n, m), run);
            Happens(s, Cancel(id), Withdrawn, id) <==>
            && Count(Init(n, m), run, Ended, id) == 0
            && forall w :: 0 <= w < |s.workers| && Busy(s.workers[w]) ==> s.workers[w].id != id
  {
    Facts(n, m, run, id, l);
    var s := Run(Init(n, m), run);
    var i := s.items[id];
    if i.place.At? {
      assert s.workers[i.place.w].id == id;
    }
  }

  lemma {:induction false} NeverAborts(s: State, n: nat, m: nat, w: nat)
    requires Reachable(s, n, m) && w < |s.workers| && s.workers[w].Taken?
    ensures Enabled(s, Call(w)) && s.items[s.workers[w].id].work == User
  {
    ReachableInv(s, n, m);
    assert Story(s.items[s.workers[w].id]);
  }

  function Held(ws: seq<Worker>, id: nat): nat {
    multiset(ws)[Taken(id)] + multiset(ws)[Running(id)] + multiset(ws)[Returned(id)]
  }

  // How often a loop holds the item.
  function Kepts(o: Loop, id: nat): nat {
    multiset(o.moved)[id] + multiset(o.wq)[id] + if o.pc == Cancelling(id) then 1 else 0
  }

  lemma {:induction false} CountDistinct<X(!new)>(s: seq<X>, x: X)
    requires Distinct(s)
    ensures multiset(s)[x] == if x in s then 1 else 0
  {
    if x in s {
      var i :| 0 <= i < |s| && s[i] == x;
      assert s == s[..i] + [x] + s[i + 1..];
      assert x !in s[..i] && x !in s[i + 1..];
    }
  }

  lemma {:induction false} CountOnly(ws: seq<Worker>, x: Worker, w: nat)
    requires forall v :: 0 <= v < |ws| && v != w ==> ws[v] != x
    ensures multiset(ws)[x] == if w < |ws| && ws[w] == x then 1 else 0
  {
    if w < |ws| {
      assert ws == ws[..w] + [ws[w]] + ws[w + 1..];
      assert x !in ws[..w] && x !in ws[w + 1..];
    } else {
      assert x !in ws;
    }
  }

  lemma {:induction false} HeldCount(ws: seq<Worker>, items: map<nat, Item>, id: nat)
    requires WorkerPlaces(ws, items) && id in items
    ensures Held(ws, id) == if items[id].place.At? then 1 else 0
  {
    var w := if items[id].place.At? then items[id].place.w else |ws|;
    CountOnly(ws, Taken(id), w);
    CountOnly(ws, Running(id), w);
    CountOnly(ws, Returned(id), w);
  }

  lemma {:induction false} KeptCount(items: map<nat, Item>, o: Loop, l: nat, id: nat)
    requires LoopPlace(items, o, l) && id in items && (items[id].loop == l ==> Kept(items[id], id, o))
    ensures Kepts(o, id) ==
            if items[id].loop == l && (items[id].place == InLoop || items[id].place == Between) then 1 else 0
  {
    CountDistinct(o.moved + o.wq, id);
    assert multiset(o.moved + o.wq) == multiset(o.moved) + multiset(o.wq);
  }

  // No submit is ever lost or duplicated: until its done() has run the item is in exactly one place, counted over the
  // global queue, the hands of all workers and the queues of its loop, and never with another loop.
  lemma {:induction false} NeverLost(n: nat, m: nat, run: seq<Step>, id: nat, l: nat)
    requires Legal(Init(n, m), run) && Submitted(run, id, l)
    ensures var s := Run(Init(n, m), run);
            && l < |s.loops|
            && multiset(s.wq)[Work(id)] + Held(s.workers, id) + Kepts(s.loops[l], id)
               == 1 - Count(Init(n, m), run, Reported, id)
            && forall k :: 0 <= k < |s.loops| && k != l ==> Kepts(s.loops[k], id) == 0
  {
    Facts(n, m, run, id, l);
    OnePlace(Run(Init(n, m), run), id);
  }

  lemma {:induction false} OnePlace(s: State, id: nat)
    requires Inv(s) && id in s.items
    ensures s.items[id].loop < |s.loops|
    ensures multiset(s.wq)[Work(id)] + Held(s.workers, id) + Kepts(s.loops[s.items[id].loop], id) + s.items[id].dones
            == 1
    ensures forall l :: 0 <= l < |s.loops| && l != s.items[id].loop ==> Kepts(s.loops[l], id) == 0
  {
    assert Story(s.items[id]);
    CountDistinct(s.wq, Work(id));
    HeldCount(s.workers, s.items, id);
    forall l | 0 <= l < |s.loops|
      ensures var i := s.items[id];
              Kepts(s.loops[l], id) == if i.loop == l && (i.place == InLoop || i.place == Between) then 1 else 0
    {
      KeptCount(s.items, s.loops[l], l, id);
    }
  }

  // No wake-up is lost: while some worker sleeps, every queued entry has a worker that has been signalled.
  lemma {:induction false} NoLostWakeUp(s: State, n: nat, m: nat)
    requires Reachable(s, n, m)
    ensures Asleep in s.workers ==> |s.wq| <= multiset(s.workers)[Woken]
    ensures s.idle == multiset(s.workers)[Asleep] + multiset(s.workers)[Woken]
  {
    ReachableInv(s, n, m);
  }

  // A worker leaves only once the exit message has been posted and every submitted item has been taken or cancelled.
  lemma {:induction false} ExitsLast(n: nat, m: nat, run: seq<Step>, id: nat, l: nat)
    requires Legal(Init(n, m), run) && Submitted(run, id, l) && Exited in Run(Init(n, m), run).workers
    ensures var s := Run(Init(n, m), run);
            && ExitPosted(run) && s.wq == [Exit]
            && (Count(Init(n, m), run, Started, id) == 1 || Count(Init(n, m), run, Withdrawn, id) > 0
                || Taken(id) in s.workers)
  {
    Facts(n, m, run, id, l);
    var s := Run(Init(n, m), run);
    var i := s.items[id];
    assert Exit in s.wq;
    if i.place.At? {
      assert Holds(s.workers[i.place.w], i, i.place.w);
    }
  }

  // While a is queued no worker has had b.
  ghost predicate Ahead(s: State, a: nat, b: nat) {
    Work(a) in s.wq ==>
      && b in s.items && s.items[b].runs == 0 && !s.items[b].place.At?
      && Precedes(s.wq, Work(a), Work(b))
  }

  lemma {:induction false} Appended(wq: seq<Entry>, e: Entry, x: Entry, y: Entry)
    requires Precedes(wq, x, y) && e != x
    ensures Precedes(wq + [e], x, y)
  {
  }

  lemma {:induction false} LookAhead(s: State, w: nat, k: nat, a: nat, b: nat)
    requires Distinct(s.wq) && Ahead(s, a, b) && Enabled(s, Look(w, k))
    ensures Ahead(Apply(s, Look(w, k)), a, b)
  {
    if s.wq != [] && s.wq[0] != Exit && Work(a) in s.wq[1..] {
      assert s.wq == [s.wq[0]] + s.wq[1..];
      PrecedesTail(s.wq, Work(a), Work(b));
    }
  }

  lemma {:induction false} PostAhead(s: State, x: Step, a: nat, b: nat)
    requires (x.Submit? || x.PostExit?) && Ahead(s, a, b) && Enabled(s, x) && a in s.items
    ensures Ahead(Apply(s, x), a, b)
  {
    if Work(a) in s.wq {
      Appended(s.wq, if x.Submit? then Work(x.id) else Exit, Work(a), Work(b));
    }
  }

  lemma {:induction false} CallAhead(s: State, w: nat, a: nat, b: nat)
    requires Ahead(s, a, b) && Enabled(s, Call(w)) && s.items[s.workers[w].id].place.At?
    ensures Ahead(Apply(s, Call(w)), a, b)
  {
  }

  lemma {:induction false} RestAhead(s: State, x: Step, a: nat, b: nat)
    requires Ahead(s, a, b) && Enabled(s, x)
    requires !x.Submit? && !x.PostExit? && !x.Look? && !x.Call? && !x.Cancel?
    ensures Ahead(Apply(s, x), a, b)
  {
  }

  lemma {:induction false} CancelAhead(s: State, id: nat, a: nat, b: nat)
    requires Distinct(s.wq) && Ahead(s, a, b) && Enabled(s, Cancel(id))
    ensures Ahead(Apply(s, Cancel(id)), a, b)
  {
    ErasedSeq(s.wq, Work(id));
    if Work(a) in s.wq {
      PrecedesErased(s.wq, Work(a), Work(b), Work(id));
    }
  }

  lemma {:induction false} StepAhead(s: State, x: Step, a: nat, b: nat)
    requires Inv(s) && Enabled(s, x) && Ahead(s, a, b) && a in s.items
    ensures Ahead(Apply(s, x), a, b)
  {
    match x
    case Submit(id, l, k) => PostAhead(s, x, a, b);
    case PostExit(k) => PostAhead(s, x, a, b);
    case Look(w, k) => LookAhead(s, w, k, a, b);
    case Call(w) =>
      assert Holds(s.workers[w], s.items[s.workers[w].id], w);
      CallAhead(s, w, a, b);
    case Cancel(id) => CancelAhead(s, id, a, b);
    case Spurious(w) => RestAhead(s, x, a, b);
    case Return(w) => RestAhead(s, x, a, b);
    case Finish(w) => RestAhead(s, x, a, b);
    case Recycle(l) => RestAhead(s, x, a, b);
    case Callback(l) => RestAhead(s, x, a, b);
    case Move(l) => RestAhead(s, x, a, b);
    case Done(l) => RestAhead(s, x, a, b);
  }

  lemma {:induction false} RunAhead(s: State, run: seq<Step>, a: nat, b: nat)
    requires Inv(s) && Legal(s, run) && Ahead(s, a, b) && a in s.items
    ensures Ahead(Run(s, run), a, b)
    decreases |run|
  {
    if run != [] {
      StepKeeps(s, run[0]);
      StepAhead(s, run[0], a, b);
      StepRemembers(s, run[0], a);
      RunAhead(Apply(s, run[0]), run[1..], a, b);
    }
  }

  lemma {:induction false} SubmitAhead(s: State, x: Step, a: nat)
    requires Inv(s) && a in s.items && x.Submit? && Enabled(s, x)
    ensures Ahead(Apply(s, x), a, x.id)
  {
    assert Work(x.id) !in s.wq;
  }

  // First come, first served: of two submits the second is not taken by a worker while the first is still queued.
  lemma {:induction false} TakenInOrder(n: nat, m: nat, run: seq<Step>, i: nat, j: nat)
    requires Legal(Init(n, m), run) && i < j < |run| && run[i].Submit? && run[j].Submit?
    ensures var s := Run(Init(n, m), run);
            Work(run[i].id) in s.wq ==>
              Held(s.workers, run[j].id) == 0 && Count(Init(n, m), run, Started, run[j].id) == 0
  {
    var s0, a, b := Init(n, m), run[i].id, run[j].id;
    var before := run[..j];
    RunCut(s0, run, j);
    InitHolds(n, m);
    RunKeeps(s0, before);
    assert before[i] == Submit(a, run[i].l, run[i].k);
    Registered(s0, before, a, run[i].l);
    var u := Run(s0, before);
    StepRemembers(u, run[j], a);
    SubmitAhead(u, run[j], a);
    StepKeeps(u, run[j]);
    RunAhead(Apply(u, run[j]), run[j + 1..], a, b);
    assert Submit(b, run[j].l, run[j].k) in run;
    Facts(n, m, run, b, run[j].l);
    HeldCount(Run(s0, run).workers, Run(s0, run).items, b);
  }
}
