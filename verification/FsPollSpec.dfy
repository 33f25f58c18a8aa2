module FsPollSpec {
  // When an fs-poll handle reports, and how stat results are compared.

  datatype Timespec = Timespec(sec: int, nsec: int)

  // uv_stat_t
  datatype StatBuf = StatBuf(dev: nat, mode: nat, nlink: nat, uid: nat, gid: nat, rdev: nat, ino: nat, size: nat,
                             blksize: nat, blocks: nat, flags: nat, gen: nat,
                             atim: Timespec, mtim: Timespec, ctim: Timespec, birthtim: Timespec)

  const ZERO_TIME := Timespec(0, 0)
  const ZERO_STATBUF := StatBuf(0, 0, 0, 0, 0, 0, 0, 0, 0, 0, 0, 0, ZERO_TIME, ZERO_TIME, ZERO_TIME, ZERO_TIME)

  // The fields that do not count as a change: links, device type, block counts and the time of last access.
  function Essence(s: StatBuf): StatBuf {
    s.(nlink := 0, rdev := 0, blksize := 0, blocks := 0, atim := ZERO_TIME)
  }

  // statbuf_eq
  predicate StatBufEq(a: StatBuf, b: StatBuf)
    ensures StatBufEq(a, b) <==> Essence(a) == Essence(b)
    ensures StatBufEq(a, b) <==>
            b == a.(nlink := b.nlink, rdev := b.rdev, blksize := b.blksize, blocks := b.blocks, atim := b.atim)
  {
    && a.ctim.nsec == b.ctim.nsec
    && a.mtim.nsec == b.mtim.nsec
    && a.birthtim.nsec == b.birthtim.nsec
    && a.ctim.sec == b.ctim.sec
    && a.mtim.sec == b.mtim.sec
    && a.birthtim.sec == b.birthtim.sec
    && a.size == b.size
    && a.mode == b.mode
    && a.uid == b.uid
    && a.gid == b.gid
    && a.ino == b.ino
    && a.dev == b.dev
    && a.flags == b.flags
    && a.gen == b.gen
  }

  // The end of one stat request.
  datatype Outcome = Failed(err: int) | Got(buf: StatBuf)

  predicate Proper(o: Outcome) {
    o.Failed? ==> o.err < 0
  }

  datatype Report = Report(status: int, prev: StatBuf, curr: StatBuf)

  // Whether two outcomes in a row are different to the user.
  predicate Differ(a: Outcome, b: Outcome) {
    if a.Got? && b.Got? then Essence(a.buf) != Essence(b.buf) else a != b
  }

  // The last result that was not an error.
  function LastGood(os: seq<Outcome>): StatBuf {
    if os == [] then ZERO_STATBUF
    else if os[|os| - 1].Got? then os[|os| - 1].buf
    else LastGood(os[..|os| - 1])
  }

  // Outcome i is reported: the first one if it is an error, any other if it differs from the one before.
  predicate Reported(os: seq<Outcome>, i: nat)
    requires i < |os|
  {
    if i == 0 then os[0].Failed? else Differ(os[i - 1], os[i])
  }

  function ReportOf(os: seq<Outcome>, i: nat): Report
    requires i < |os|
  {
    match os[i]
    case Failed(e) => Report(e, LastGood(os[..i]), ZERO_STATBUF)
    case Got(b) => Report(0, LastGood(os[..i]), b)
  }

  // All reports, in order.
  function Reports(os: seq<Outcome>): seq<Report> {
    if os == [] then []
    else
      var n := |os| - 1;
      Reports(os[..n]) + if Reported(os, n) then [ReportOf(os, n)] else []
  }

  // busy_polling: 0 at first, 1 after a success, the error code after an error.
  function Busy(os: seq<Outcome>): int {
    if os == [] then 0 else if os[|os| - 1].Got? then 1 else os[|os| - 1].err
  }

  lemma {:induction false} ReportsMore(os: seq<Outcome>, o: Outcome)
    ensures Reports(os + [o]) == Reports(os) + if Reported(os + [o], |os|) then [ReportOf(os + [o], |os|)] else []
    ensures (os + [o])[..|os|] == os
    ensures LastGood(os + [o]) == if o.Got? then o.buf else LastGood(os)
  {
    assert (os + [o])[..|os|] == os;
  }

  // The test on busy_polling decides whether the next outcome is reported.
  lemma {:induction false} BusyDecides(os: seq<Outcome>, o: Outcome)
    requires Proper(o) && forall i :: 0 <= i < |os| ==> Proper(os[i])
    ensures Reported(os + [o], |os|) <==>
            match o
            case Failed(e) => Busy(os) != e
            case Got(b) => Busy(os) != 0 && (Busy(os) < 0 || !StatBufEq(LastGood(os), b))
  {
    assert |os| > 0 ==> (os + [o])[|os| - 1] == os[|os| - 1];
  }

  lemma {:induction false} ReportCount(os: seq<Outcome>, r: Report)
    ensures r in Reports(os) <==> exists i :: 0 <= i < |os| && Reported(os, i) && ReportOf(os, i) == r
  {
    if os != [] {
      var n := |os| - 1;
      ReportCount(os[..n], r);
      forall i | 0 <= i < n
        ensures Reported(os[..n], i) == Reported(os, i) && ReportOf(os[..n], i) == ReportOf(os, i)
      {
        assert os[..n][..i] == os[..i];
      }
    }
  }

  // The first success is silent.
  lemma {:induction false} FirstSuccessSilent(b: StatBuf)
    ensures Reports([Got(b)]) == []
  {
    assert [Got(b)][..0] == [];
    assert Reports([]) == [];
  }

  // The delay that poll_cb asks for is between 1 and the interval, and ends on the grid that began at start.
  function Delay(now: nat, start: nat, interval: nat): (d: nat)
    requires start <= now && interval >= 1
    ensures 1 <= d <= interval && OnGrid(now + d, start, interval)
  {
    var k := (now - start) / interval + 1;
    GridPoint(now - start, interval);
    assert now + (interval - (now - start) % interval) == start + k * interval;
    interval - (now - start) % interval
  }

  ghost predicate OnGrid(t: nat, start: nat, interval: nat) {
    exists k: nat :: k >= 1 && t == start + k * interval
  }

  lemma {:induction false} GridPoint(x: nat, n: nat)
    requires n >= 1
    ensures x + (n - x % n) == (x / n + 1) * n
  {
    assert x == x / n * n + x % n;
    assert (x / n + 1) * n == x / n * n + n;
  }
}
