module FsPoll {
  // The life of poll contexts in fs-poll.c.  Every method of Loop that stands for a callback may be called whenever
  // its event is due, in any order.

  import opened FsPollSpec

  const UV_ENOMEM := -12

  // timer_handle: stopped, started, closing (uv_close called), closed.
  datatype TimerState = Inactive | Active | Closing | Closed

  // uv_fs_poll_t
  class Handle {
    var active: bool
    var pollCtx: Ctx?

    // uv_fs_poll_init
    constructor ()
      ensures !active && pollCtx == null
    {
      active, pollCtx := false, null;
    }
  }

  // struct poll_ctx
  class Ctx {
    var parent: Handle?
    var busy: int
    const interval: nat
    var startTime: nat
    var timer: TimerState
    var due: nat
    var stat: bool   // fs_req is in flight
    var statbuf: StatBuf
    var freed: bool
    ghost var outcomes: seq<Outcome>  // of the stats that ended while the context had a parent
    ghost var reports: seq<Report>    // the calls of poll_cb

    // The outcomes so far decide everything the context remembers and has reported.
    ghost predicate Consistent()
      reads this
    {
      && (forall i :: 0 <= i < |outcomes| ==> Proper(outcomes[i]))
      && busy == Busy(outcomes) && statbuf == LastGood(outcomes) && reports == Reports(outcomes)
    }

    constructor (parent: Handle, interval: nat, now: nat)
      ensures this.parent == parent && this.interval == (if interval != 0 then interval else 1) && startTime == now
      ensures timer == Inactive && !stat && !freed && outcomes == [] && Consistent()
    {
      this.parent, this.interval, startTime := parent, if interval != 0 then interval else 1, now;
      busy, timer, due, stat, statbuf, freed := 0, Inactive, 0, false, ZERO_STATBUF, false;
      outcomes, reports := [], [];
    }
  }

  // What a poll callback may do with the handles.  A start may find no memory, or fail to submit its stat request.
  datatype Act = Start(h: Handle, interval: nat, memory: bool, submit: int) | Stop(h: Handle)

  // Whether h is active once the acts have been done.
  function ActiveAfter(acts: seq<Act>, h: Handle, was: bool): bool {
    if acts == [] then was else
    var n := |acts| - 1;
    var before := ActiveAfter(acts[..n], h, was);
    if acts[n].h != h then before
    else acts[n].Start? && (before || (acts[n].memory && acts[n].submit == 0))
  }

  class Loop {
    var time: nat
    ghost var handles: set<Handle>
    ghost var ctxs: set<Ctx>

    // A context is busy with exactly one thing: a stat, an armed timer or a closing one, or it is the current one,
    // whose poll_cb is running.  While it has a parent, the two belong to each other.
    ghost predicate CtxOk(c: Ctx, current: Ctx?)
      reads this, c, handles
    {
      && c.interval >= 1 && c.startTime <= time
      && (c.freed <==> c.timer == Closed)
      && (c.freed ==> c.parent == null && !c.stat && c != current)
      && (!c.freed ==>
            if c == current then !c.stat && c.timer == Inactive
            else if c.stat then c.timer == Inactive
            else if c.parent != null then c.timer == Active
            else c.timer == Closing)
      && (c.parent != null ==> c.parent in handles && c.parent.pollCtx == c)
      && (c.parent != null && c != current ==> c.Consistent())
      && (c.timer == Active ==> OnGrid(c.due, c.startTime, c.interval))
    }

    ghost predicate Valid(current: Ctx?)
      reads this, handles, ctxs
    {
      && (forall c :: c in ctxs ==> CtxOk(c, current))
      && (forall h :: h in handles ==> (h.active <==> h.pollCtx != null))
      && (forall h :: h in handles && h.pollCtx != null ==> h.pollCtx in ctxs && h.pollCtx.parent == h)
      && (current != null ==> current in ctxs)
    }

    constructor (now: nat)
      ensures Valid(null) && handles == {} && ctxs == {} && time == now
    {
      time, handles, ctxs := now, {}, {};
    }

    ghost predicate GoodAct(a: Act)
      reads `handles
    {
      a.h in handles && (a.Start? ==> a.submit <= 0)
    }

    method UvClose(c: Ctx)
      requires c.timer == Inactive || c.timer == Active
      modifies c`timer
      ensures c.timer == Closing
    {
      c.timer := Closing;
    }

    // uv_fs_poll_start.  memory says whether the context can be allocated, submit what uv_fs_stat answers.
    method StartPoll(h: Handle, interval: nat, memory: bool, submit: int, ghost current: Ctx?) returns (err: int)
      requires Valid(current) && h in handles && submit <= 0
      modifies `ctxs, h
      ensures Valid(current)
      ensures err == if old(h.active) then 0 else if !memory then UV_ENOMEM else submit
      ensures old(h.active) || err != 0 ==> ctxs == old(ctxs) && unchanged(h)
      ensures !old(h.active) && err == 0 ==>
                && h.active && h.pollCtx != null && fresh(h.pollCtx) && ctxs == old(ctxs) + {h.pollCtx}
                && h.pollCtx.parent == h && h.pollCtx.stat && h.pollCtx.timer == Inactive && h.pollCtx.outcomes == []
                && h.pollCtx.interval == (if interval != 0 then interval else 1) && h.pollCtx.startTime == time
    {
      if h.active {
        return 0;
      }
      if !memory {
        return UV_ENOMEM;
      }
      var ctx := new Ctx(h, interval, time);
      err := submit;
      if err < 0 {
        ctx.freed := true;
        return;
      }
      ctx.stat := true;
      h.pollCtx := ctx;
      h.active := true;
      ctxs := ctxs + {ctx};
      forall c | c in ctxs
        ensures CtxOk(c, current)
      {
        assert c != ctx ==> old(CtxOk(c, current));
      }
    }

    // uv_fs_poll_stop
    method StopPoll(h: Handle, ghost current: Ctx?)
      requires Valid(current) && h in handles
      modifies h, ctxs`parent, ctxs`timer
      ensures Valid(current) && !h.active && h.pollCtx == null
      ensures forall c :: c in ctxs ==> c.parent == if old(c.parent) == h then null else old(c.parent)
    {
      if !h.active {
        return;
      }
      var ctx := h.pollCtx;
      assert ctx != null && ctx.parent != null;
      ctx.parent := null;
      h.pollCtx := null;
      if ctx.timer == Active {
        UvClose(ctx);
      }
      h.active := false;
      forall c | c in ctxs
        ensures CtxOk(c, current)
      {
        assert old(CtxOk(c, current));
      }
    }

    // What the user does in a poll callback.
    method Callback(acts: seq<Act>, ghost current: Ctx)
      requires Valid(current) && forall a :: a in acts ==> GoodAct(a)
      modifies `ctxs, handles, ctxs`parent, ctxs`timer
      ensures Valid(current) && old(ctxs) <= ctxs && fresh(ctxs - old(ctxs))
      ensures forall h :: h in handles ==> h.active == ActiveAfter(acts, h, old(h.active))
    {
      var i := 0;
      assert acts[..0] == [];
      while i < |acts|
        invariant 0 <= i <= |acts| && Valid(current) && old(ctxs) <= ctxs && fresh(ctxs - old(ctxs))
        invariant forall h :: h in handles ==> h.active == ActiveAfter(acts[..i], h, old(h.active))
      {
        assert acts[..i + 1][..i] == acts[..i];
        var a := acts[i];
        assert a in acts;
        match a {
          case Start(h, interval, memory, submit) =>
            var _ := StartPoll(h, interval, memory, submit, current);
          case Stop(h) => StopPoll(h, current);
        }
        i := i + 1;
      }
      assert acts[..i] == acts;
    }

    // The call of ctx->poll_cb.  The report is what the user sees, acts what the user does.
    method Report(c: Ctx, r: Report, acts: seq<Act>)
      requires Valid(c) && forall a :: a in acts ==> GoodAct(a)
      modifies `ctxs, handles, ctxs`parent, ctxs`timer, c`reports
      ensures Valid(c) && old(ctxs) <= ctxs && fresh(ctxs - old(ctxs)) && c.reports == old(c.reports) + [r]
      ensures forall h :: h in handles ==> h.active == ActiveAfter(acts, h, old(h.active))
    {
      c.reports := c.reports + [r];
      forall d | d in ctxs
        ensures CtxOk(d, c)
      {
        assert old(CtxOk(d, c));
      }
      Callback(acts, c);
    }

    // poll_cb from the test of req->result up to the label out.
    method Digest(c: Ctx, o: Outcome, acts: seq<Act>)
      requires Valid(c) && c.Consistent() && Proper(o) && forall a :: a in acts ==> GoodAct(a)
      modifies `ctxs, handles, ctxs`parent, ctxs`timer, c`reports, c`busy, c`statbuf, c`outcomes
      ensures Valid(c) && c.Consistent() && old(ctxs) <= ctxs && fresh(ctxs - old(ctxs))
      ensures c.outcomes == old(c.outcomes) + [o]
      ensures var was := old(c.outcomes);
              var differs := if was == [] then o.Failed? else Differ(was[|was| - 1], o);
              var curr := if o.Got? then o.buf else ZERO_STATBUF;
              c.reports == old(c.reports) +
              if differs then [FsPollSpec.Report(if o.Failed? then o.err else 0, LastGood(was), curr)] else []
      ensures forall h :: h in handles ==>
                h.active == if c.reports == old(c.reports) then old(h.active) else ActiveAfter(acts, h, old(h.active))
    {
      ghost var os := c.outcomes;
      ReportsMore(os, o);
      BusyDecides(os, o);
      match o {
        case Failed(err) =>
          if c.busy != err {
            Report(c, FsPollSpec.Report(err, c.statbuf, ZERO_STATBUF), acts);
            c.busy := err;
          }
        case Got(buf) =>
          if c.busy != 0 && (c.busy < 0 || !StatBufEq(c.statbuf, buf)) {
            Report(c, FsPollSpec.Report(0, c.statbuf, buf), acts);
          }
          c.statbuf := buf;
          c.busy := 1;
      }
      c.outcomes := os + [o];
      forall d | d in ctxs
        ensures CtxOk(d, c)
      {
      }
    }

    // poll_cb, when the stat of c has ended.
    method PollCb(c: Ctx, o: Outcome, acts: seq<Act>)
      requires Valid(null) && c in ctxs && c.stat && Proper(o) && forall a :: a in acts ==> GoodAct(a)
      modifies `ctxs, handles, ctxs`parent, ctxs`timer, c
      ensures Valid(null)
      ensures old(c.parent) == null ==>
        c.timer == Closing && c.outcomes == old(c.outcomes) && c.reports == old(c.reports)
      ensures old(c.parent) != null ==> c.outcomes == old(c.outcomes) + [o] && c.reports == Reports(c.outcomes)
      ensures old(c.parent) != null ==>
                var was := old(c.outcomes);
                var differs := if was == [] then o.Failed? else Differ(was[|was| - 1], o);
                var curr := if o.Got? then o.buf else ZERO_STATBUF;
                c.reports == old(c.reports) +
                if differs then [FsPollSpec.Report(if o.Failed? then o.err else 0, LastGood(was), curr)] else []
      ensures c.parent != null ==>
        c.timer == Active && time < c.due <= time + c.interval && OnGrid(c.due, c.startTime, c.interval)
      ensures forall h :: h in handles ==>
                h.active == if c.reports == old(c.reports) then old(h.active) else ActiveAfter(acts, h, old(h.active))
    {
      assert CtxOk(c, null) && !c.freed;
      c.stat := false;
      if c.parent == null {
        UvClose(c);
        assert CtxOk(c, null);
        return;
      }
      assert Valid(c);
      Digest(c, o, acts);
      Out(c);
    }

    // poll_cb from the label out on.
    method Out(c: Ctx)
      requires Valid(c) && c.Consistent()
      modifies c`timer, c`due
      ensures Valid(null)
      ensures c.parent == null ==> c.timer == Closing
      ensures c.parent != null ==>
        c.timer == Active && time < c.due <= time + c.interval && OnGrid(c.due, c.startTime, c.interval)
    {
      if c.parent == null {
        UvClose(c);
      } else {
        c.due := time + Delay(time, c.startTime, c.interval);
        c.timer := Active;
      }
      forall d | d in ctxs
        ensures CtxOk(d, null)
      {
        assert old(CtxOk(d, c));
      }
    }

    // timer_cb: the assertions hold whenever the timer can fire.
    method TimerCb(c: Ctx)
      requires Valid(null) && c in ctxs && c.timer == Active && c.due <= time
      modifies c`timer, c`startTime, c`stat
      ensures Valid(null) && c.stat && c.startTime == time && c.parent != null
    {
      c.timer := Inactive;
      assert c.parent != null;
      assert c.parent.pollCtx == c;
      c.startTime := time;
      c.stat := true;
      forall d | d in ctxs
        ensures CtxOk(d, null)
      {
        assert old(CtxOk(d, null));
      }
    }

    // timer_close_cb: the memory goes, once, and nothing refers to it any more.
    method TimerCloseCb(c: Ctx)
      requires Valid(null) && c in ctxs && c.timer == Closing
      modifies c`timer, c`freed
      ensures Valid(null) && !old(c.freed) && c.freed
      ensures !c.stat && c.parent == null && forall h :: h in handles ==> h.pollCtx != c
    {
      assert CtxOk(c, null);
      c.timer := Closed;
      c.freed := true;
      forall d | d in ctxs
        ensures CtxOk(d, null)
      {
        assert old(CtxOk(d, null));
      }
    }

    // The loop updates its idea of the time.
    method Advance(now: nat)
      requires Valid(null) && now >= time
      modifies `time
      ensures Valid(null) && time == now
    {
      time := now;
    }

    method Add(h: Handle)
      requires Valid(null) && h !in handles && !h.active && h.pollCtx == null
      modifies `handles
      ensures Valid(null) && handles == old(handles) + {h}
    {
      handles := handles + {h};
    }
  }
}
