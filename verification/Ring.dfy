module Ring {
  // The intrusive circular lists of queue.h.  A ring is listed from its head: r[0] is the head, r[1..] the elements.

  import opened Sequences

  // QUEUE.  internal and open belong to the handle the link is embedded in, if any.
  class Link {
    var next: Link?
    var prev: Link?
    const internal: bool
    var open: bool

    constructor (internal: bool)
      ensures this.internal == internal && !open
    {
      next, prev := null, null;
      this.internal, open := internal, false;
    }
  }

  function After(r: seq<Link>, i: nat): Link
    requires i < |r|
  {
    if i + 1 < |r| then r[i + 1] else r[0]
  }

  function Before(r: seq<Link>, i: nat): Link
    requires i < |r|
  {
    if i > 0 then r[i - 1] else r[|r| - 1]
  }

  ghost predicate IsRing(r: seq<Link>)
    reads r`next, r`prev
  {
    && |r| > 0 && Distinct(r)
    && forall i {:trigger r[i].next} {:trigger r[i].prev} :: 0 <= i < |r| ==>
         r[i].next == After(r, i) && r[i].prev == Before(r, i)
  }

  method Init(q: Link)
    modifies q`next, q`prev
    ensures IsRing([q])
  {
    q.next := q;
    q.prev := q;
  }

  method Empty(h: Link, ghost r: seq<Link>) returns (b: bool)
    requires IsRing(r) && h == r[0]
    ensures b <==> |r| == 1
  {
    b := h == h.next;
  }

  method InsertHead(h: Link, q: Link, ghost r: seq<Link>)
    requires IsRing(r) && h == r[0] && q !in r
    modifies h`next, After(r, 0)`prev, q`next, q`prev
    ensures IsRing([h, q] + r[1..])
  {
    q.next := h.next;
    q.prev := h;
    q.next.prev := q;
    h.next := q;
  }

  method InsertTail(h: Link, q: Link, ghost r: seq<Link>)
    requires IsRing(r) && h == r[0] && q !in r
    modifies h`prev, Before(r, 0)`next, q`next, q`prev
    ensures IsRing(r + [q])
  {
    q.next := h;
    q.prev := h.prev;
    q.prev.next := q;
    h.prev := q;
  }

  method RemoveLinks(q: Link, ghost before: Link, ghost after: Link)
    requires q.prev == before && q.next == after && before != q && after != q
    modifies before`next, after`prev
    ensures before.next == after && after.prev == before
  {
    q.prev.next := q.next;
    q.next.prev := q.prev;
  }

  // The links of q itself are left as they were.
  method Remove(q: Link, ghost r: seq<Link>, ghost i: nat)
    requires IsRing(r) && 1 <= i < |r| && q == r[i]
    modifies Before(r, i)`next, After(r, i)`prev
    ensures IsRing(r[..i] + r[i + 1..])
  {
    RemoveLinks(q, Before(r, i), After(r, i));
    ghost var n := if i + 1 < |r| then i + 1 else 0;
    forall j | 0 <= j < |r| && j != i
      ensures r[j].next == if j == i - 1 then After(r, i) else After(r, j)
    {
      assert j != i - 1 ==> r[j] != r[i - 1];
    }
    forall j | 0 <= j < |r| && j != i
      ensures r[j].prev == if j == n then r[i - 1] else Before(r, j)
    {
      assert j != n ==> r[j] != r[n];
    }
    Without(r, i);
  }

  lemma {:induction false} Without(r: seq<Link>, i: nat)
    requires Distinct(r) && 1 <= i < |r|
    requires forall j :: 0 <= j < |r| && j != i ==> r[j].next == if j == i - 1 then After(r, i) else After(r, j)
    requires forall j :: 0 <= j < |r| && j != i ==>
      r[j].prev == if j == (if i + 1 < |r| then i + 1 else 0) then r[i - 1] else Before(r, j)
    ensures IsRing(r[..i] + r[i + 1..])
  {
  }

  method AddLinks(h: Link, n: Link, ghost last: Link, ghost first: Link, ghost end: Link)
    requires h.prev == last && last.next == h && n.next == first && n.prev == end && first.prev == n && end.next == n
    requires (first == n <==> end == n) && h != n && h != first && h != end && last != n && last != first && last != end
    modifies h`prev, last`next, first`prev, end`next
    ensures last.next == if first == n then h else first
    ensures h.prev == if first == n then last else end
    ensures first != n ==> first.prev == last && end.next == h
  {
    h.prev.next := n.next;
    n.next.prev := h.prev;
    h.prev := n.prev;
    h.prev.next := h;
  }

  // The elements of n go to the end of h; the ring of n is no longer one.
  method Add(h: Link, n: Link, ghost r: seq<Link>, ghost s: seq<Link>)
    requires IsRing(r) && IsRing(s) && h == r[0] && n == s[0]
    requires forall i, j :: 0 <= i < |r| && 0 <= j < |s| ==> r[i] != s[j]
    modifies r`next, r`prev, s`next, s`prev
    ensures IsRing(r + s[1..])
  {
    ghost var k, l := |r|, |s|;
    AddLinks(h, n, r[k - 1], After(s, 0), s[l - 1]);
    Joined(r, s[1..]);
  }

  lemma {:induction false} Joined(r: seq<Link>, u: seq<Link>)
    requires |r| > 0 && Distinct(r) && Distinct(u) && forall i, j :: 0 <= i < |r| && 0 <= j < |u| ==> r[i] != u[j]
    requires forall j :: 0 <= j < |r| ==> r[j].next == (if j == |r| - 1 && |u| > 0 then u[0] else After(r, j))
    requires forall j :: 0 <= j < |r| ==> r[j].prev == (if j == 0 && |u| > 0 then u[|u| - 1] else Before(r, j))
    requires forall j :: 0 <= j < |u| ==> u[j].next == (if j == |u| - 1 then r[0] else After(u, j))
    requires forall j :: 0 <= j < |u| ==> u[j].prev == (if j == 0 then r[|r| - 1] else Before(u, j))
    ensures IsRing(r + u)
  {
    var t, k := r + u, |r|;
    forall i | 0 <= i < |t|
      ensures t[i].next == After(t, i) && t[i].prev == Before(t, i)
    {
      assert t[i] == if i < k then r[i] else u[i - k];
    }
  }

  method SplitLinks(h: Link, q: Link, n: Link, ghost last: Link, ghost before: Link)
    requires h.prev == last && q.prev == before && last.next == h && before.next == q
    requires last != before && last != h && q != h && q != before && n != h && n != q && n != last && n != before
    modifies n`next, n`prev, h`prev, q`prev, last`next, before`next
    ensures n.next == q && q.prev == n && n.prev == last && last.next == n && h.prev == before && before.next == h
  {
    n.prev := h.prev;
    n.prev.next := n;
    n.next := q;
    h.prev := q.prev;
    h.prev.next := h;
    q.prev := n;
  }

  // The elements from q on move to the new head n.
  method Split(h: Link, q: Link, n: Link, ghost r: seq<Link>, ghost i: nat)
    requires IsRing(r) && h == r[0] && 1 <= i < |r| && q == r[i] && n !in r
    modifies r`next, r`prev, n`next, n`prev
    ensures IsRing(r[..i]) && IsRing([n] + r[i..])
  {
    SplitLinks(h, q, n, r[|r| - 1], r[i - 1]);
    PartedFront(r, i);
    Headed(r[i..], n);
  }

  // What Split leaves behind ...
  lemma {:induction false} PartedFront(r: seq<Link>, i: nat)
    requires 1 <= i < |r| && Distinct(r)
    requires forall j :: 0 <= j < i ==> r[j].next == if j == i - 1 then r[0] else After(r, j)
    requires forall j :: 0 <= j < i ==> r[j].prev == if j == 0 then r[i - 1] else Before(r, j)
    ensures IsRing(r[..i])
  {
  }

  // ... and what it moves: u, closed by its new head n.
  lemma {:induction false} Headed(u: seq<Link>, n: Link)
    requires |u| > 0 && Distinct(u) && n !in u && n.next == u[0] && n.prev == u[|u| - 1]
    requires forall j :: 0 <= j < |u| ==> u[j].next == if j == |u| - 1 then n else After(u, j)
    requires forall j :: 0 <= j < |u| ==> u[j].prev == if j == 0 then n else Before(u, j)
    ensures IsRing([n] + u)
  {
    var t := [n] + u;
    forall k | 1 <= k < |t|
      ensures t[k].next == After(t, k) && t[k].prev == Before(t, k)
    {
      assert t[k] == u[k - 1];
    }
  }

  method Move(h: Link, n: Link, ghost r: seq<Link>)
    requires IsRing(r) && h == r[0] && n !in r
    modifies r`next, r`prev, n`next, n`prev
    ensures IsRing([h]) && IsRing([n] + r[1..])
  {
    var empty := Empty(h, r);
    if empty {
      Init(n);
      assert r == [h];
    } else {
      var q := h.next;
      Split(h, q, n, r, 1);
      assert r[..1] == [h];
    }
  }

  // QUEUE_FOREACH sees the elements in order.
  method Foreach(h: Link, ghost r: seq<Link>) returns (seen: seq<Link>)
    requires IsRing(r) && h == r[0]
    ensures seen == r[1..]
  {
    seen := [];
    var q := h.next;
    ghost var i := 1;
    while q != h
      invariant 1 <= i <= |r| && q == (if i < |r| then r[i] else h) && seen == r[1..i]
      decreases |r| - i
    {
      assert r[1..i + 1] == r[1..i] + [q];
      seen := seen + [q];
      q := q.next;
      i := i + 1;
    }
  }
}
