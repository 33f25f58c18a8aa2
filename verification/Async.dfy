module Async {
  // The wake-up protocol of unix/async.c as a step system: one step per compare-and-swap, read or write, for any
  // number of sending threads and async handles on one loop.

  import opened Sequences

  // The size of the buffer that uv__async_io reads into.
  const BUFFER := 1024

  // Where a thread is in uv_async_send: outside; past the cheap read, which saw 0; past a successful exchange.
  datatype Sender = Idle | Swapping(h: nat) | Writing(h: nat)

  // Where the loop thread is: in poll, or running callbacks other than async ones; in the read loop of
  // uv__async_io; past it; walking the handles.
  datatype LoopPc = Polling | Reading | Moving | Visiting

  // cb is async_cb != NULL.  History: calls of uv_async_send, exchanges that succeeded, exchanges back by
  // uv__async_io, and calls of async_cb.
  datatype Handle = Handle(open: bool, cb: bool, pending: bool, sends: nat, wins: nat, taken: nat, calls: nat)

  // list is loop->async_handles, todo the local queue of uv__async_io, fd what can be read from the descriptor: a
  // pipe with room for cap bytes, or the counter of an eventfd.
  datatype State = State(handles: map<nat, Handle>, list: seq<nat>, todo: seq<nat>, fd: nat, cap: nat, eventfd: bool,
                         senders: seq<Sender>, pc: LoopPc)

  datatype Step =
    | Open(h: nat, cb: bool)
    | Close(h: nat)
    | Check(t: nat, h: nat)
    | Swap(t: nat)
    | Write(t: nat)
    | Wake
    | Read
    | Take
    | Visit
    | EndPass

  function Init(threads: nat, cap: nat, eventfd: bool): State {
    State(map[], [], [], 0, cap, eventfd, seq(threads, i => Idle), Polling)
  }

  // Handles are opened and closed by the loop thread, between passes or from an async callback.
  predicate Enabled(s: State, a: Step) {
    match a
    case Open(h, cb) => h !in s.handles && (s.pc == Polling || s.pc == Visiting)
    case Close(h) => h in s.handles && s.handles[h].open && (s.pc == Polling || s.pc == Visiting)
    case Check(t, h) => t < |s.senders| && s.senders[t] == Idle && h in s.handles && s.handles[h].open
    case Swap(t) => t < |s.senders| && s.senders[t].Swapping? && s.senders[t].h in s.handles
    case Write(t) => t < |s.senders| && s.senders[t].Writing?
    case Wake => s.pc == Polling && s.fd > 0
    case Read => s.pc == Reading
    case Take => s.pc == Moving
    case Visit => s.pc == Visiting && s.todo != [] && s.todo[0] in s.handles
    case EndPass => s.pc == Visiting && s.todo == []
  }

  // read(): an eventfd gives its whole count, a pipe at most a buffer full.
  function ReadStep(s: State): State {
    if s.eventfd then s.(fd := 0, pc := Moving)
    else if s.fd >= BUFFER then s.(fd := s.fd - BUFFER)
    else s.(fd := 0, pc := Moving)
  }

  function VisitStep(s: State): State
    requires Enabled(s, Visit)
  {
    var h := s.todo[0];
    var a := s.handles[h];
    s.(todo := s.todo[1..], list := s.list + [h],
       handles := if a.pending then
                    s.handles[h := a.(pending := false, taken := a.taken + 1,
                                      calls := if a.cb then a.calls + 1 else a.calls)]
                  else
                    s.handles)
  }

  function Apply(s: State, a: Step): State
    requires Enabled(s, a)
  {
    match a
    case Open(h, cb) => s.(handles := s.handles[h := Handle(true, cb, false, 0, 0, 0, 0)], list := s.list + [h])
    case Close(h) => s.(handles := s.handles[h := s.handles[h].(open := false)], list := Erase(s.list, h),
                        todo := Erase(s.todo, h))
    case Check(t, h) =>
      s.(senders := if s.handles[h].pending then s.senders else s.senders[t := Swapping(h)],
         handles := s.handles[h := s.handles[h].(sends := s.handles[h].sends + 1)])
    case Swap(t) =>
      var h := s.senders[t].h;
      var a := s.handles[h];
      if a.pending then s.(senders := s.senders[t := Idle])
      else s.(senders := s.senders[t := Writing(h)], handles := s.handles[h := a.(pending := true, wins := a.wins + 1)])
    case Write(t) => s.(senders := s.senders[t := Idle], fd := if s.fd < s.cap then s.fd + 1 else s.fd)
    case Wake => s.(pc := Reading)
    case Read => ReadStep(s)
    case Take => s.(todo := s.list, list := [], pc := Visiting)
    case Visit => VisitStep(s)
    case EndPass => s.(pc := Polling)
  }

  predicate Legal(s: State, run: seq<Step>)
    decreases |run|
  {
    run == [] || (Enabled(s, run[0]) && Legal(Apply(s, run[0]), run[1..]))
  }

  function Run(s: State, run: seq<Step>): State
    requires Legal(s, run)
    decreases |run|
  {
    if run == [] then s else Run(Apply(s, run[0]), run[1..])
  }

  ghost predicate Reachable(s: State) {
    exists threads, cap, eventfd, run {:trigger Run(Init(threads, cap, eventfd), run)} ::
      cap > 0 && Legal(Init(threads, cap, eventfd), run) && Run(Init(threads, cap, eventfd), run) == s
  }

  // The two queues together hold each open handle once.
  ghost predicate Queues(s: State) {
    && Distinct(s.todo + s.list) && (s.pc != Visiting ==> s.todo == [])
    && (forall h :: h in s.todo + s.list ==> h in s.handles && s.handles[h].open)
    && (forall h :: h in s.handles && s.handles[h].open ==> h in s.todo + s.list)
  }

  // The pass that is under way has still to come to h.
  ghost predicate ToVisit(s: State, h: nat) {
    s.pc == Reading || s.pc == Moving || h in s.todo
  }

  ghost predicate Noticed(s: State, h: nat) {
    s.fd > 0 || Writing(h) in s.senders || ToVisit(s, h)
  }

  // Every exchange to 1 is taken back once, by uv__async_io, or still stands.
  ghost predicate Books(a: Handle) {
    && a.wins == a.taken + (if a.pending then 1 else 0)
    && a.calls == if a.cb then a.taken else 0
  }

  function Trying(ss: seq<Sender>, h: nat): nat {
    multiset(ss)[Swapping(h)]
  }

  ghost predicate Senders(ss: seq<Sender>, handles: map<nat, Handle>) {
    && (forall t :: 0 <= t < |ss| && ss[t] != Idle ==> ss[t].h in handles)
    && (forall h :: h in handles ==> Books(handles[h]) && handles[h].wins + Trying(ss, h) <= handles[h].sends)
  }

  ghost predicate Inv(s: State) {
    && s.cap > 0 && Queues(s)
    && Senders(s.senders, s.handles)
    && (forall h :: h in s.handles && s.handles[h].open && s.handles[h].pending ==> Noticed(s, h))
  }

  lemma {:induction false} OpenKeeps(s: State, h: nat, cb: bool)
    requires Inv(s) && Enabled(s, Open(h, cb))
    ensures Inv(Apply(s, Open(h, cb)))
  {
    assert h !in s.todo + s.list;
    DistinctJoined(s.todo + s.list, [h]);
    assert s.todo + (s.list + [h]) == (s.todo + s.list) + [h];
    assert Swapping(h) !in s.senders;
  }

  lemma {:induction false} CloseKeeps(s: State, h: nat)
    requires Inv(s) && Enabled(s, Close(h))
    ensures Inv(Apply(s, Close(h)))
  {
    DistinctApart(s.todo, s.list);
    ErasedSeq(s.todo, h);
    ErasedPair(s.todo, s.list, h);
  }

  lemma {:induction false} SenderMoves(ss: seq<Sender>, t: nat, x: Sender, h: nat)
    requires t < |ss|
    ensures Trying(ss[t := x], h)
            == Trying(ss, h) - (if ss[t] == Swapping(h) then 1 else 0) + (if x == Swapping(h) then 1 else 0)
  {
    assert multiset(ss)[ss[t]] > 0;
  }

  lemma {:induction false} SendersEdit(ss: seq<Sender>, handles: map<nat, Handle>, t: nat, x: Sender, h: nat, a: Handle)
    requires Senders(ss, handles) && t < |ss| && h in handles && (x != Idle ==> x.h == h)
    requires ss[t] == Swapping(h) || ss[t] == Idle || ss[t] == Writing(h)
    requires Books(a) && a.wins + Trying(ss[t := x], h) <= a.sends
    ensures Senders(ss[t := x], handles[h := a])
  {
    forall j | j in handles
      ensures Trying(ss[t := x], j) == Trying(ss, j) || j == h
    {
      SenderMoves(ss, t, x, j);
    }
  }

  // What matters to the handles besides h does not get worse.
  lemma {:induction false} StillNoticed(s: State, s': State, t: nat, x: Sender, h: nat, a: Handle)
    requires forall j :: j in s.handles && s.handles[j].open && s.handles[j].pending ==> Noticed(s, j)
    requires t < |s.senders| && (s.senders[t].Writing? ==> s'.fd > 0)
    requires s' == s.(senders := s.senders[t := x], handles := s.handles[h := a], fd := s'.fd) && s'.fd >= s.fd
    requires h in s.handles && a.open == s.handles[h].open && (a.pending ==> s.handles[h].pending || x == Writing(h))
    ensures forall j :: j in s'.handles && s'.handles[j].open && s'.handles[j].pending ==> Noticed(s', j)
  {
    forall j | j in s'.handles && s'.handles[j].open && s'.handles[j].pending
      ensures Noticed(s', j)
    {
      if j == h && x == Writing(h) {
        assert s'.senders[t] == Writing(h);
      } else {
        assert Noticed(s, j);
        if Writing(j) in s.senders && s.senders[t] != Writing(j) {
          var u :| 0 <= u < |s.senders| && s.senders[u] == Writing(j);
          assert s'.senders[u] == Writing(j);
        }
      }
    }
  }

  lemma {:induction false} CheckKeeps(s: State, t: nat, h: nat)
    requires Inv(s) && Enabled(s, Check(t, h))
    ensures Inv(Apply(s, Check(t, h)))
  {
    var a := s.handles[h].(sends := s.handles[h].sends + 1);
    var x := if s.handles[h].pending then Idle else Swapping(h);
    SenderMoves(s.senders, t, x, h);
    SendersEdit(s.senders, s.handles, t, x, h, a);
    var s' := Apply(s, Check(t, h));
    assert s'.senders == s.senders[t := x];
    StillNoticed(s, s', t, x, h, a);
  }

  lemma {:induction false} SwapKeeps(s: State, t: nat)
    requires Inv(s) && Enabled(s, Swap(t))
    ensures Inv(Apply(s, Swap(t)))
  {
    var h := s.senders[t].h;
    var a := s.handles[h];
    var x := if a.pending then Idle else Writing(h);
    var a' := if a.pending then a else a.(pending := true, wins := a.wins + 1);
    SenderMoves(s.senders, t, x, h);
    SendersEdit(s.senders, s.handles, t, x, h, a');
    var s' := Apply(s, Swap(t));
    assert s'.handles == s.handles[h := a'];
    StillNoticed(s, s', t, x, h, a');
  }

  lemma {:induction false} WriteKeeps(s: State, t: nat)
    requires Inv(s) && Enabled(s, Write(t))
    ensures Inv(Apply(s, Write(t)))
  {
  }

  lemma {:induction false} TakeKeeps(s: State)
    requires Inv(s) && Enabled(s, Take)
    ensures Inv(Apply(s, Take))
  {
    assert s.list + [] == s.todo + s.list;
  }

  lemma {:induction false} VisitKeeps(s: State)
    requires Inv(s) && Enabled(s, Visit)
    ensures Inv(Apply(s, Visit))
  {
    var h, rest := s.todo[0], s.todo[1..] + s.list;
    assert s.todo + s.list == [h] + rest;
    DistinctApart([h], rest);
    assert h in [h];
    DistinctJoined(rest, [h]);
    assert s.todo[1..] + (s.list + [h]) == rest + [h];
  }

  lemma {:induction false} StepKeeps(s: State, a: Step)
    requires Inv(s) && Enabled(s, a)
    ensures Inv(Apply(s, a))
  {
    match a
    case Open(h, cb) => OpenKeeps(s, h, cb);
    case Close(h) => CloseKeeps(s, h);
    case Check(t, h) => CheckKeeps(s, t, h);
    case Swap(t) => SwapKeeps(s, t);
    case Write(t) => WriteKeeps(s, t);
    case Wake =>
    case Read =>
    case Take => TakeKeeps(s);
    case Visit => VisitKeeps(s);
    case EndPass =>
  }

  lemma {:induction false} RunKeeps(s: State, run: seq<Step>)
    requires Inv(s) && Legal(s, run)
    ensures Inv(Run(s, run))
    decreases |run|
  {
    if run != [] {
      StepKeeps(s, run[0]);
      RunKeeps(Apply(s, run[0]), run[1..]);
    }
  }

  lemma {:induction false} ReachableInv(s: State)
    requires Reachable(s)
    ensures Inv(s)
  {
    var threads, cap, eventfd, run :|
      cap > 0 && Legal(Init(threads, cap, eventfd), run) && Run(Init(threads, cap, eventfd), run) == s;
    assert Inv(Init(threads, cap, eventfd));
    RunKeeps(Init(threads, cap, eventfd), run);
  }

  // No wake-up is lost: a pending handle has made the descriptor readable, or its sender is about to, or the pass
  // under way will still visit it.
  lemma {:induction false} NoLostWakeUp(s: State, h: nat)
    requires Reachable(s) && h in s.handles && s.handles[h].open && s.handles[h].pending
    ensures s.fd > 0 || Writing(h) in s.senders || ToVisit(s, h)
  {
    ReachableInv(s);
  }

  // Callbacks never outnumber sends; they fall behind only by sends that found the handle pending.
  lemma {:induction false} CallbacksBounded(s: State, h: nat)
    requires Reachable(s) && h in s.handles
    ensures var a := s.handles[h]; a.calls <= a.taken <= a.wins <= a.sends && a.wins <= a.taken + 1
  {
    ReachableInv(s);
  }

  // Nothing to read, nobody in the middle of a send, no pass under way.
  ghost predicate Quiescent(s: State) {
    s.fd == 0 && s.pc == Polling && forall t :: 0 <= t < |s.senders| ==> s.senders[t] == Idle
  }

  // The step delivers to h, and calls its callback if it has one.
  ghost predicate Delivers(s: State, a: Step, h: nat) {
    a == Visit && s.todo != [] && s.todo[0] == h && h in s.handles && s.handles[h].pending
  }

  // A send to h takes effect: it finds h pending already, or makes it so.
  ghost predicate Sends(s: State, a: Step, h: nat) {
    (exists t: nat :: a == Check(t, h) && h in s.handles && s.handles[h].pending)
    || (exists t: nat :: a == Swap(t) && t < |s.senders| && s.senders[t] == Swapping(h))
  }

  // The state before step i of a run.
  function StateAt(s: State, run: seq<Step>, i: nat): State
    requires Legal(s, run) && i <= |run|
    decreases i
  {
    if i == 0 then s else StateAt(Apply(s, run[0]), run[1..], i - 1)
  }

  lemma {:induction false} LegalAt(s: State, run: seq<Step>, i: nat)
    requires Legal(s, run) && i < |run|
    ensures Enabled(StateAt(s, run, i), run[i]) && Legal(Apply(StateAt(s, run, i), run[i]), run[i + 1..])
    ensures Run(Apply(StateAt(s, run, i), run[i]), run[i + 1..]) == Run(s, run)
    ensures forall j :: i < j <= |run| ==>
      StateAt(s, run, j) == StateAt(Apply(StateAt(s, run, i), run[i]), run[i + 1..], j - i - 1)
    decreases i
  {
    if i > 0 {
      LegalAt(Apply(s, run[0]), run[1..], i - 1);
      assert run[1..][i..] == run[i + 1..];
    }
  }

  lemma {:induction false} StaysPending(s: State, a: Step, h: nat)
    requires Enabled(s, a) && h in s.handles && s.handles[h].open && s.handles[h].pending
    requires a != Close(h) && !Delivers(s, a, h)
    ensures var s' := Apply(s, a); h in s'.handles && s'.handles[h].open && s'.handles[h].pending
  {
  }

  lemma {:induction false} PendingServed(s: State, run: seq<Step>, h: nat) returns (j: nat)
    requires Inv(s) && Legal(s, run) && h in s.handles && s.handles[h].open && s.handles[h].pending
    requires Close(h) !in run && Quiescent(Run(s, run))
    ensures j < |run| && Delivers(StateAt(s, run, j), run[j], h)
    decreases |run|
  {
    if run == [] {
      assert false;
    } else if Delivers(s, run[0], h) {
      j := 0;
    } else {
      StepKeeps(s, run[0]);
      StaysPending(s, run[0], h);
      j := PendingServed(Apply(s, run[0]), run[1..], h);
      j := j + 1;
    }
  }

  lemma {:induction false} SendPending(s: State, a: Step, h: nat)
    requires Enabled(s, a) && Sends(s, a, h) && h in s.handles && s.handles[h].open
    ensures var s' := Apply(s, a); h in s'.handles && s'.handles[h].open && s'.handles[h].pending
  {
  }

  // Once the system is quiescent, every send to a handle that was not closed has been followed by a delivery.
  lemma {:induction false} EverySendServed(s0: State, run: seq<Step>, i: nat, h: nat) returns (j: nat)
    requires Reachable(s0) && Legal(s0, run) && Quiescent(Run(s0, run)) && Close(h) !in run
    requires i < |run| && Sends(StateAt(s0, run, i), run[i], h)
    requires h in StateAt(s0, run, i).handles && StateAt(s0, run, i).handles[h].open
    ensures i < j < |run| && Delivers(StateAt(s0, run, j), run[j], h)
  {
    ReachableInv(s0);
    LegalAt(s0, run, i);
    InvAt(s0, run, i);
    var s := StateAt(s0, run, i);
    StepKeeps(s, run[i]);
    SendPending(s, run[i], h);
    var rest := run[i + 1..];
    assert forall a :: a in rest ==> a in run;
    var k := PendingServed(Apply(s, run[i]), rest, h);
    j := i + 1 + k;
    assert rest[k] == run[j];
  }

  lemma {:induction false} InvAt(s: State, run: seq<Step>, i: nat)
    requires Inv(s) && Legal(s, run) && i <= |run|
    ensures Inv(StateAt(s, run, i))
    decreases i
  {
    if i > 0 {
      StepKeeps(s, run[0]);
      InvAt(Apply(s, run[0]), run[1..], i - 1);
    }
  }

  // A send that is past its cheap read stays before the exchange until the exchange is made.
  lemma {:induction false} StaysSwapping(s: State, a: Step, t: nat, h: nat)
    requires Enabled(s, a) && t < |s.senders| && s.senders[t] == Swapping(h) && a != Swap(t)
    ensures |Apply(s, a).senders| == |s.senders| && Apply(s, a).senders[t] == Swapping(h)
  {
  }

  // The exchange that a send past its cheap read makes before everything is quiet.
  lemma {:induction false} ExchangeMade(s: State, run: seq<Step>, t: nat, h: nat) returns (k: nat)
    requires Legal(s, run) && Quiescent(Run(s, run)) && t < |s.senders| && s.senders[t] == Swapping(h)
    ensures k < |run| && run[k] == Swap(t) && t < |StateAt(s, run, k).senders|
    ensures StateAt(s, run, k).senders[t] == Swapping(h)
    decreases |run|
  {
    if run == [] {
      assert false;
    } else if run[0] == Swap(t) {
      k := 0;
    } else {
      StaysSwapping(s, run[0], t, h);
      k := ExchangeMade(Apply(s, run[0]), run[1..], t, h);
      k := k + 1;
    }
  }

  // Handles are opened once and then stay open until they are closed.
  lemma {:induction false} StaysOpen(s: State, a: Step, h: nat)
    requires Enabled(s, a) && h in s.handles
    ensures h in Apply(s, a).handles && Apply(s, a).handles[h].cb == s.handles[h].cb
    ensures Apply(s, a).handles[h].open <==> s.handles[h].open && a != Close(h)
  {
  }

  lemma {:induction false} OpenAt(s: State, run: seq<Step>, i: nat, h: nat)
    requires Legal(s, run) && i <= |run| && h in s.handles
    ensures h in StateAt(s, run, i).handles && StateAt(s, run, i).handles[h].cb == s.handles[h].cb
    ensures StateAt(s, run, i).handles[h].open <==> s.handles[h].open && Close(h) !in run[..i]
    decreases i
  {
    if i > 0 {
      StaysOpen(s, run[0], h);
      OpenAt(Apply(s, run[0]), run[1..], i - 1, h);
      assert run[..i] == [run[0]] + run[1..][..i - 1];
    }
  }

  // Every call of uv_async_send on an open handle is followed by a delivery, once the system is quiescent and unless
  // the handle is closed.
  lemma {:induction false} EveryCallServed(s0: State, run: seq<Step>, i: nat, h: nat) returns (j: nat)
    requires Reachable(s0) && Legal(s0, run) && Quiescent(Run(s0, run)) && Close(h) !in run
    requires i < |run| && run[i].Check? && run[i].h == h
    ensures i < j < |run| && Delivers(StateAt(s0, run, j), run[j], h)
  {
    var s, t := StateAt(s0, run, i), run[i].t;
    LegalAt(s0, run, i);
    if s.handles[h].pending {
      assert run[i] == Check(t, h);
      j := EverySendServed(s0, run, i, h);
    } else {
      var u, rest := Apply(s, run[i]), run[i + 1..];
      var k := ExchangeMade(u, rest, t, h);
      assert rest[k] == run[i + 1 + k] && StateAt(s0, run, i + 1 + k) == StateAt(u, rest, k);
      OpenAt(u, rest, k, h);
      assert forall a :: a in rest[..k] ==> a in run;
      j := EverySendServed(s0, run, i + 1 + k, h);
    }
  }

  // After a handle has been closed its callback is not called again.
  lemma {:induction false} NeverAfterClose(s0: State, run: seq<Step>, i: nat, j: nat, h: nat)
    requires Reachable(s0) && Legal(s0, run) && i < j < |run| && run[i] == Close(h)
    ensures !Delivers(StateAt(s0, run, j), run[j], h)
  {
    LegalAt(s0, run, i);
    var s := StateAt(s0, run, i);
    var u, rest := Apply(s, run[i]), run[i + 1..];
    StaysOpen(s, run[i], h);
    OpenAt(u, rest, j - i - 1, h);
    ReachableInv(s0);
    InvAt(s0, run, j);
    var v := StateAt(s0, run, j);
    assert v == StateAt(u, rest, j - i - 1);
    assert v.todo != [] ==> v.todo[0] in v.todo + v.list;
  }

  // A handle that has been opened is open, with its callback, until it is closed.
  lemma {:induction false} OpenedAt(s0: State, run: seq<Step>, i: nat, j: nat, h: nat, cb: bool)
    requires Legal(s0, run) && i < j <= |run| && run[i] == Open(h, cb)
    ensures var v := StateAt(s0, run, j);
            && h in v.handles && v.handles[h].cb == cb
            && (v.handles[h].open <==> Close(h) !in run[i + 1..j])
  {
    LegalAt(s0, run, i);
    var u, rest := Apply(StateAt(s0, run, i), run[i]), run[i + 1..];
    OpenAt(u, rest, j - i - 1, h);
    assert rest[..j - i - 1] == run[i + 1..j];
  }

  // uv_async_send is called for h; the callback of h is called.
  datatype Event = Sent | Called

  ghost predicate Happens(s: State, a: Step, e: Event, h: nat)
    requires Enabled(s, a)
  {
    match e
    case Sent => a.Check? && a.h == h
    case Called => Delivers(s, a, h) && s.handles[h].cb
  }

  ghost function Count(s: State, run: seq<Step>, e: Event, h: nat): nat
    requires Legal(s, run)
    decreases |run|
  {
    if run == [] then 0 else
    (if Happens(s, run[0], e, h) then 1 else 0) + Count(Apply(s, run[0]), run[1..], e, h)
  }

  function Account(s: State, e: Event, h: nat): nat {
    if h !in s.handles then 0 else if e.Sent? then s.handles[h].sends else s.handles[h].calls
  }

  lemma {:induction false} StepAccounts(s: State, a: Step, e: Event, h: nat)
    requires Enabled(s, a)
    ensures Account(Apply(s, a), e, h) == Account(s, e, h) + if Happens(s, a, e, h) then 1 else 0
  {
  }

  lemma {:induction false} RunAccounts(s: State, run: seq<Step>, e: Event, h: nat)
    requires Legal(s, run)
    ensures Account(Run(s, run), e, h) == Account(s, e, h) + Count(s, run, e, h)
    decreases |run|
  {
    if run != [] {
      StepAccounts(s, run[0], e, h);
      RunAccounts(Apply(s, run[0]), run[1..], e, h);
    }
  }

  // In every run a callback is called at most as often as uv_async_send was called for its handle.
  lemma {:induction false} NoSpuriousCall(threads: nat, cap: nat, eventfd: bool, run: seq<Step>, h: nat)
    requires cap > 0 && Legal(Init(threads, cap, eventfd), run)
    ensures Count(Init(threads, cap, eventfd), run, Called, h) <= Count(Init(threads, cap, eventfd), run, Sent, h)
  {
    var s0 := Init(threads, cap, eventfd);
    RunAccounts(s0, run, Called, h);
    RunAccounts(s0, run, Sent, h);
    assert Reachable(Run(s0, run));
    ReachableInv(Run(s0, run));
  }

  // uv__async_io leaves its read loop only when the descriptor is empty.
  lemma {:induction false} ReadsAll(s: State)
    requires Enabled(s, Read)
    ensures var s' := Apply(s, Read); s'.pc == Moving ==> s'.fd == 0
    ensures var s' := Apply(s, Read); s'.pc != Moving ==> s'.fd < s.fd && s' == s.(fd := s'.fd)
  {
  }

  function IndexOf(s: seq<nat>, h: nat): (i: nat)
    ensures i <= |s| && (h in s ==> i < |s|)
  {
    if s == [] || s[0] == h then 0 else 1 + IndexOf(s[1..], h)
  }

  // How many reads empty the descriptor.
  function Reads(s: State): nat {
    if s.eventfd then 1 else s.fd / BUFFER + 1
  }

  // How many steps the loop needs, from poll on, to come to the last of its handles, the write included that makes the
  // descriptor readable.
  function FromPoll(s: State): nat {
    (if s.fd > 0 then 1 + Reads(s) else 3) + |s.todo| + |s.list| + 2
  }

  // How far the pending handle h is from its delivery.
  function Distance(s: State, h: nat): nat {
    match s.pc
    case Polling => FromPoll(s)
    case Reading => Reads(s) + |s.todo| + |s.list| + 2
    case Moving => |s.todo| + |s.list| + 2
    case Visiting => if h in s.todo then IndexOf(s.todo, h) + 1 else |s.todo| + 1 + FromPoll(s)
  }

  // A step of the loop, or the end of a send, after which h is nearer to its delivery, or delivered.
  ghost predicate Nears(s: State, a: Step, h: nat) {
    && Enabled(s, a) && (a.Write? || a.Wake? || a.Read? || a.Take? || a.Visit? || a.EndPass?)
    && (Delivers(s, a, h) || Distance(Apply(s, a), h) < Distance(s, h))
  }

  lemma {:induction false} VisitNears(s: State, h: nat)
    requires Enabled(s, Visit) && h in s.handles && s.handles[h].pending
    ensures Nears(s, Visit, h)
  {
    if s.todo[0] != h {
      assert h in s.todo <==> h in s.todo[1..];
    }
  }

  lemma {:induction false} TakeNears(s: State, h: nat)
    requires Enabled(s, Take) && h in s.list
    ensures Nears(s, Take, h)
  {
  }

  lemma {:induction false} WriteNears(s: State, t: nat, h: nat)
    requires Enabled(s, Write(t)) && s.pc == Polling && s.fd == 0 && s.cap > 0
    ensures Nears(s, Write(t), h)
  {
  }

  // The protocol does not stall: while an open handle is pending, the loop or a sender can take a step that brings it
  // nearer to its delivery.
  lemma {:induction false} NeverStalls(s: State, h: nat) returns (a: Step)
    requires Reachable(s) && h in s.handles && s.handles[h].open && s.handles[h].pending
    ensures Nears(s, a, h)
  {
    ReachableInv(s);
    a := Nearer(s, h);
  }

  lemma {:induction false} Nearer(s: State, h: nat) returns (a: Step)
    requires Inv(s) && h in s.handles && s.handles[h].open && s.handles[h].pending
    ensures Nears(s, a, h)
  {
    assert Noticed(s, h) && h in s.todo + s.list;
    match s.pc
    case Reading => a := Read;
    case Moving =>
      a := Take;
      TakeNears(s, h);
    case Visiting =>
      if s.todo == [] {
        a := EndPass;
      } else {
        assert s.todo[0] in s.todo + s.list;
        a := Visit;
        VisitNears(s, h);
      }
    case Polling =>
      if s.fd > 0 {
        a := Wake;
      } else {
        var t :| 0 <= t < |s.senders| && s.senders[t] == Writing(h);
        a := Write(t);
        WriteNears(s, t, h);
      }
  }

  // So the loop, once the sender has finished its write, delivers to h within that many steps.
  lemma {:induction false} Delivery(s: State, h: nat) returns (run: seq<Step>)
    requires Reachable(s) && h in s.handles && s.handles[h].open && s.handles[h].pending
    ensures Legal(s, run) && 0 < |run| <= Distance(s, h) && LoopOnly(run)
    ensures Delivers(StateAt(s, run, |run| - 1), run[|run| - 1], h)
  {
    ReachableInv(s);
    run := DeliveryFrom(s, h);
  }

  predicate LoopOnly(run: seq<Step>) {
    forall a :: a in run ==> a.Write? || a.Wake? || a.Read? || a.Take? || a.Visit? || a.EndPass?
  }

  lemma {:induction false} DeliveryFrom(s: State, h: nat) returns (run: seq<Step>)
    requires Inv(s) && h in s.handles && s.handles[h].open && s.handles[h].pending
    ensures Legal(s, run) && 0 < |run| <= Distance(s, h) && LoopOnly(run)
    ensures Delivers(StateAt(s, run, |run| - 1), run[|run| - 1], h)
    decreases Distance(s, h)
  {
    var a := Nearer(s, h);
    run := [a];
    if !Delivers(s, a, h) {
      StepKeeps(s, a);
      StaysPending(s, a, h);
      var rest := DeliveryFrom(Apply(s, a), h);
      run := [a] + rest;
      assert run[1..] == rest;
    } else {
      assert run[1..] == [];
    }
  }
}
