module PoolHistory {
  // What happens in a run of the thread pool, read off its steps, and how the state keeps account of it.

  import opened Sequences
  import opened ThreadPool

  // work() is called, work() has returned, uv_cancel has answered 0, done() is called.
  datatype Event = Started | Ended | Withdrawn | Reported

  predicate Happens(s: State, a: Step, e: Event, id: nat)
    requires Enabled(s, a)
  {
    match e
    case Started => a.Call? && s.workers[a.w] == Taken(id)
    case Ended => a.Return? && s.workers[a.w] == Running(id)
    case Withdrawn => a == Cancel(id) && Cancellable(s.items[id])
    case Reported => a.Done? && s.loops[a.l].moved[0] == id
  }

  // How often it happens to item id in the run.
  function Count(s: State, run: seq<Step>, e: Event, id: nat): nat
    requires Legal(s, run)
    decreases |run|
  {
    if run == [] then 0 else
    (if Happens(s, run[0], e, id) then 1 else 0) + Count(Apply(s, run[0]), run[1..], e, id)
  }

  // uv_queue_work has been called for item id on loop l.
  ghost predicate Submitted(run: seq<Step>, id: nat, l: nat) {
    exists k :: Submit(id, l, k) in run
  }

  ghost predicate ExitPosted(run: seq<Step>) {
    exists k :: PostExit(k) in run
  }

  // The account kept in the item.
  function Account(s: State, e: Event, id: nat): nat {
    if id !in s.items then 0 else
    match e
    case Started => s.items[id].runs
    case Ended => s.items[id].ended
    case Withdrawn => s.items[id].cancels
    case Reported => s.items[id].dones
  }

  // No step forgets an item or moves it to another loop.
  lemma {:induction false} StepRemembers(s: State, a: Step, id: nat)
    requires Enabled(s, a)
    ensures id in s.items ==> id in Apply(s, a).items && Apply(s, a).items[id].loop == s.items[id].loop
    ensures a.Submit? && a.id == id ==> id in Apply(s, a).items && Apply(s, a).items[id].loop == a.l
    ensures s.exiting || a.PostExit? ==> Apply(s, a).exiting
  {
  }

  lemma {:induction false} StepAccounts(s: State, a: Step, e: Event, id: nat)
    requires Enabled(s, a)
    ensures Account(Apply(s, a), e, id) == Account(s, e, id) + if Happens(s, a, e, id) then 1 else 0
  {
  }

  lemma {:induction false} RunRemembers(s: State, run: seq<Step>, id: nat)
    requires Legal(s, run)
    ensures id in s.items ==> id in Run(s, run).items && Run(s, run).items[id].loop == s.items[id].loop
    ensures s.exiting ==> Run(s, run).exiting
    decreases |run|
  {
    if run != [] {
      StepRemembers(s, run[0], id);
      RunRemembers(Apply(s, run[0]), run[1..], id);
    }
  }

  // The item of every submit is there to the end of the run, with its loop, and so is the exit message.
  lemma {:induction false} Registered(s: State, run: seq<Step>, id: nat, l: nat)
    requires Legal(s, run)
    ensures Submitted(run, id, l) ==> id in Run(s, run).items && Run(s, run).items[id].loop == l
    ensures ExitPosted(run) ==> Run(s, run).exiting
    decreases |run|
  {
    if run != [] {
      assert run == [run[0]] + run[1..];
      StepRemembers(s, run[0], id);
      RunRemembers(Apply(s, run[0]), run[1..], id);
      Registered(Apply(s, run[0]), run[1..], id, l);
    }
  }

  lemma {:induction false} RunAccounts(s: State, run: seq<Step>, e: Event, id: nat)
    requires Legal(s, run)
    ensures Account(Run(s, run), e, id) == Account(s, e, id) + Count(s, run, e, id)
    decreases |run|
  {
    if run != [] {
      StepAccounts(s, run[0], e, id);
      RunAccounts(Apply(s, run[0]), run[1..], e, id);
    }
  }

  // Conversely the items are those that have been submitted, and there is an exit message only if it was posted.
  lemma {:induction false} OnlySubmitted(s: State, run: seq<Step>, id: nat)
    requires Legal(s, run)
    ensures id in Run(s, run).items && id !in s.items ==> Submitted(run, id, Run(s, run).items[id].loop)
    ensures Run(s, run).exiting && !s.exiting ==> ExitPosted(run)
    decreases |run|
  {
    if run != [] {
      var t := Apply(s, run[0]);
      assert run == [run[0]] + run[1..];
      RunRemembers(t, run[1..], id);
      OnlySubmitted(t, run[1..], id);
      OnlySubmit(s, run[0], id);
    }
  }

  lemma {:induction false} OnlySubmit(s: State, a: Step, id: nat)
    requires Enabled(s, a)
    ensures id in Apply(s, a).items && id !in s.items ==> a.Submit? && a.id == id && Apply(s, a).items[id].loop == a.l
    ensures Apply(s, a).exiting && !s.exiting ==> a.PostExit?
  {
  }

  lemma {:induction false} RunJoined(s: State, a: seq<Step>, b: seq<Step>)
    requires Legal(s, a) && Legal(Run(s, a), b)
    ensures Legal(s, a + b) && Run(s, a + b) == Run(Run(s, a), b)
    decreases |a|
  {
    if a == [] {
      assert a + b == b;
    } else {
      assert (a + b)[1..] == a[1..] + b;
      RunJoined(Apply(s, a[0]), a[1..], b);
    }
  }

  // A run up to step j, that step, and the rest.
  lemma {:induction false} RunCut(s: State, run: seq<Step>, j: nat)
    requires Legal(s, run) && j < |run|
    ensures Legal(s, run[..j]) && Enabled(Run(s, run[..j]), run[j])
    ensures var t := Apply(Run(s, run[..j]), run[j]); Legal(t, run[j + 1..]) && Run(t, run[j + 1..]) == Run(s, run)
    decreases j
  {
    if j > 0 {
      assert run[..j][1..] == run[1..][..j - 1] && run[1..][j..] == run[j + 1..];
      RunCut(Apply(s, run[0]), run[1..], j - 1);
    }
  }
}
