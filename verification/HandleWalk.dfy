module HandleWalk {
  // uv_walk of uv-common.c, with callbacks that open and close handles.

  import opened Ring
  import opened Sequences

  // What a callback may do to the handles of the loop.
  datatype Edit = Open(x: Link) | Close(x: Link)

  // The elements outside d, in order.
  ghost function Keep(s: seq<Link>, d: set<Link>): (t: seq<Link>)
    ensures |t| <= |s|
  {
    if s == [] then [] else if s[0] in d then Keep(s[1..], d) else [s[0]] + Keep(s[1..], d)
  }

  ghost function Closed(edits: seq<Edit>): set<Link> {
    if edits == [] then {} else
    Closed(edits[..|edits| - 1]) + if edits[|edits| - 1].Close? then {edits[|edits| - 1].x} else {}
  }

  // The edits of the k-th callback.
  function Edits(script: seq<seq<Edit>>, k: nat): seq<Edit> {
    if k < |script| then script[k] else []
  }

  // The callbacks of a walk that still has todo before it and has made k of them: a handle is called back unless it
  // is internal or an earlier callback has closed it, even if that or another one has opened it again.
  ghost function Visits(todo: seq<Link>, script: seq<seq<Edit>>, k: nat): seq<Link>
    decreases |todo|
  {
    if todo == [] then [] else
    if todo[0].internal then Visits(todo[1..], script, k) else
    [todo[0]] + Visits(Keep(todo[1..], Closed(Edits(script, k))), script, k + 1)
  }

  lemma {:induction false} ClosedIn(edits: seq<Edit>, x: Link)
    ensures x in Closed(edits) <==> Close(x) in edits
  {
    if edits != [] {
      var n := |edits| - 1;
      ClosedIn(edits[..n], x);
      assert edits == edits[..n] + [edits[n]];
    }
  }

  // One of the callbacks from number lo on, but before number hi, closes x.
  ghost predicate ClosedWithin(script: seq<seq<Edit>>, lo: nat, hi: nat, x: Link) {
    exists j :: lo <= j < hi && j < |script| && Close(x) in script[j]
  }

  lemma {:induction false} KeepDistinct(s: seq<Link>, d: set<Link>)
    requires Distinct(s)
    ensures Distinct(Keep(s, d))
  {
    if s != [] {
      assert s == [s[0]] + s[1..] && s[0] !in s[1..];
      KeepDistinct(s[1..], d);
      KeepIn(s[1..], d, s[0]);
    }
  }

  // Every handle is called back at most once, and only if it was there at the start, is not internal and has not been
  // closed by then ...
  lemma {:induction false} VisitedRight(todo: seq<Link>, script: seq<seq<Edit>>, k: nat)
    requires Distinct(todo)
    ensures var v := Visits(todo, script, k);
            && Distinct(v)
            && forall i :: 0 <= i < |v| ==> v[i] in todo && !v[i].internal && !ClosedWithin(script, k, k + i, v[i])
    decreases |todo|
  {
    if todo != [] {
      var q, t := todo[0], todo[1..];
      assert todo == [q] + t && q !in t;
      if q.internal {
        VisitedRight(t, script, k);
      } else {
        var d := Closed(Edits(script, k));
        var u := Keep(t, d);
        KeepDistinct(t, d);
        VisitedRight(u, script, k + 1);
        var w := Visits(u, script, k + 1);
        forall i | 0 <= i < |w|
          ensures w[i] in t && !ClosedWithin(script, k, k + i + 1, w[i])
        {
          KeepIn(t, d, w[i]);
          ClosedIn(Edits(script, k), w[i]);
        }
      }
    }
  }

  lemma {:induction false} KeepOrder(s: seq<Link>, d: set<Link>, x: Link, y: Link)
    requires Distinct(s) && Precedes(Keep(s, d), x, y) && x in Keep(s, d) && y in Keep(s, d)
    ensures Precedes(s, x, y)
  {
    var t := s[1..];
    assert s == [s[0]] + t && s[0] !in t;
    if s[0] in d {
      KeepOrder(t, d, x, y);
      KeepIn(s, d, x);
      KeepIn(s, d, y);
      PrecedesLonger(s, x, y);
    } else {
      var k := Keep(t, d);
      assert Keep(s, d) == [s[0]] + k;
      PrecedesTail(Keep(s, d), x, y);
      assert Keep(s, d)[1..] == k;
      KeepIn(t, d, s[0]);
      if x == s[0] {
        PrecedesHead(s, y);
      } else {
        KeepOrder(t, d, x, y);
        PrecedesLonger(s, x, y);
      }
    }
  }

  // An element of the rest keeps its place when the first element is put back.
  lemma {:induction false} OrderLifted(s: seq<Link>, d: set<Link>, x: Link, y: Link)
    requires Distinct(s) && s != [] && y in Keep(s[1..], d)
    requires x == s[0] || (x in Keep(s[1..], d) && Precedes(Keep(s[1..], d), x, y))
    ensures Precedes(s, x, y)
  {
    var t := s[1..];
    assert s == [s[0]] + t && s[0] !in t;
    KeepIn(t, d, y);
    if x == s[0] {
      PrecedesHead(s, y);
    } else {
      KeepIn(t, d, x);
      KeepOrder(t, d, x, y);
      PrecedesLonger(s, x, y);
    }
  }

  lemma {:induction false} VisitedIn(todo: seq<Link>, script: seq<seq<Edit>>, k: nat, i: nat)
    requires Distinct(todo) && i < |Visits(todo, script, k)|
    ensures Visits(todo, script, k)[i] in todo
  {
    VisitedRight(todo, script, k);
  }

  // The callbacks come in the order in which the handles were in the queue ...
  lemma {:induction false} VisitedInOrder(todo: seq<Link>, script: seq<seq<Edit>>, k: nat, i: nat, j: nat)
    requires Distinct(todo) && i < j < |Visits(todo, script, k)|
    ensures Precedes(todo, Visits(todo, script, k)[i], Visits(todo, script, k)[j])
    decreases |todo|
  {
    var t := todo[1..];
    if todo[0].internal {
      var w := Visits(t, script, k);
      KeepAll(t);
      VisitedIn(t, script, k, i);
      VisitedIn(t, script, k, j);
      VisitedInOrder(t, script, k, i, j);
      OrderLifted(todo, {}, w[i], w[j]);
    } else {
      var d := Closed(Edits(script, k));
      var w := Visits(Keep(t, d), script, k + 1);
      KeepDistinct(t, d);
      VisitedIn(Keep(t, d), script, k + 1, j - 1);
      if i > 0 {
        VisitedIn(Keep(t, d), script, k + 1, i - 1);
        VisitedInOrder(Keep(t, d), script, k + 1, i - 1, j - 1);
      }
      OrderLifted(todo, d, if i == 0 then todo[0] else w[i - 1], w[j - 1]);
    }
  }

  lemma {:induction false} PrecedesLonger(s: seq<Link>, x: Link, y: Link)
    requires s != [] && Precedes(s[1..], x, y) && x != s[0] && y != s[0]
    ensures Precedes(s, x, y)
  {
    forall i, j | 0 <= i < |s| && 0 <= j < |s| && s[i] == x && s[j] == y
      ensures i < j
    {
      assert s[1..][i - 1] == x && s[1..][j - 1] == y;
    }
  }

  lemma {:induction false} PrecedesHead(s: seq<Link>, y: Link)
    requires Distinct(s) && s != [] && y != s[0]
    ensures Precedes(s, s[0], y)
  {
  }

  // ... and none is left out for another reason.
  lemma {:induction false} NoneMissed(todo: seq<Link>, script: seq<seq<Edit>>, k: nat, x: Link)
    requires x in todo && !x.internal && x !in Visits(todo, script, k)
    ensures ClosedWithin(script, k, k + |Visits(todo, script, k)|, x)
    decreases |todo|
  {
    var q, t := todo[0], todo[1..];
    assert todo == [q] + t;
    if q.internal {
      NoneMissed(t, script, k, x);
    } else {
      var d := Closed(Edits(script, k));
      KeepIn(t, d, x);
      ClosedIn(Edits(script, k), x);
      if x !in d {
        NoneMissed(Keep(t, d), script, k + 1, x);
      }
    }
  }

  lemma {:induction false} KeepAbsent(s: seq<Link>, d: set<Link>, x: Link)
    requires x !in s
    ensures Keep(s, d + {x}) == Keep(s, d)
  {
    if s != [] {
      KeepAbsent(s[1..], d, x);
    }
  }

  lemma {:induction false} KeepIn(s: seq<Link>, d: set<Link>, x: Link)
    ensures x in Keep(s, d) <==> x in s && x !in d
  {
    if s != [] {
      assert s == [s[0]] + s[1..];
      KeepIn(s[1..], d, x);
    }
  }

  lemma {:induction false} KeepAll(s: seq<Link>)
    ensures Keep(s, {}) == s
  {
    if s != [] {
      KeepAll(s[1..]);
    }
  }

  lemma {:induction false} KeepErase(s: seq<Link>, d: set<Link>, x: Link)
    requires Distinct(s)
    ensures Keep(s, d + {x}) == Erase(Keep(s, d), x)
  {
    if s != [] {
      assert s == [s[0]] + s[1..];
      KeepErase(s[1..], d, x);
      if s[0] == x && x !in d {
        KeepAbsent(s[1..], d, x);
        assert Keep(s, d)[1..] == Keep(s[1..], d);
      } else if s[0] !in d {
        assert Keep(s, d)[1..] == Keep(s[1..], d);
      }
    }
  }

  lemma {:induction false} KeepEdit(s: seq<Link>, edits: seq<Edit>, i: nat)
    requires Distinct(s) && i < |edits|
    ensures var t := Keep(s, Closed(edits[..i])); var e := edits[i];
            Keep(s, Closed(edits[..i + 1])) == if e.Close? then Erase(t, e.x) else t
  {
    assert edits[..i + 1][..i] == edits[..i];
    var d := Closed(edits[..i]);
    if edits[i].Close? {
      KeepErase(s, d, edits[i].x);
    } else {
      assert d + {} == d;
    }
  }

  // What has been visited and what is still to come make up the whole walk.
  ghost predicate SoFar(start: seq<Link>, script: seq<seq<Edit>>, visited: seq<Link>, todo: seq<Link>) {
    Visits(start, script, 0) == visited + Visits(todo, script, |visited|)
  }

  lemma {:induction false} CalledBack(start: seq<Link>, script: seq<seq<Edit>>, visited: seq<Link>, todo: seq<Link>)
    requires SoFar(start, script, visited, todo) && todo != []
    ensures if todo[0].internal then SoFar(start, script, visited, todo[1..])
            else SoFar(start, script, visited + [todo[0]], Keep(todo[1..], Closed(Edits(script, |visited|))))
  {
  }

  lemma {:induction false} AllVisited(start: seq<Link>, script: seq<seq<Edit>>)
    ensures var v := Visits(start, script, 0);
            forall x :: x in start && !x.internal && x !in v ==> ClosedWithin(script, 0, |v|, x)
  {
    var v := Visits(start, script, 0);
    forall x | x in start && !x.internal && x !in v
      ensures ClosedWithin(script, 0, |v|, x)
    {
      NoneMissed(start, script, 0, x);
    }
  }

  lemma {:induction false} EraseAt(s: seq<Link>, i: nat)
    requires Distinct(s) && i < |s|
    ensures Erase(s, s[i]) == s[..i] + s[i + 1..]
  {
    if i > 0 {
      EraseAt(s[1..], i - 1);
      assert s[1..][..i - 1] == s[1..i];
    }
  }

  ghost function Index(s: seq<Link>, x: Link): (i: nat)
    requires x in s
    ensures i < |s| && s[i] == x
  {
    if s[0] == x then 0 else Index(s[1..], x) + 1
  }

  lemma {:induction false} WithoutAt(h: Link, s: seq<Link>, i: nat)
    requires Distinct([h] + s) && i < |s|
    ensures ([h] + s)[..i + 1] + ([h] + s)[i + 2..] == [h] + Erase(s, s[i])
  {
    DistinctTail(h, s);
    EraseAt(s, i);
    assert ([h] + s)[..i + 1] == [h] + s[..i] && ([h] + s)[i + 2..] == s[i + 1..];
    assert [h] + s[..i] + s[i + 1..] == [h] + (s[..i] + s[i + 1..]);
  }

  // The ring o, which has nothing in common with that of x, stays as it is.
  method UnlinkAt(x: Link, ghost h: Link, ghost s: seq<Link>, ghost i: nat, ghost o: seq<Link>)
    requires IsRing([h] + s) && i < |s| && s[i] == x
    requires IsRing(o) && Before([h] + s, i + 1) !in o && After([h] + s, i + 1) !in o
    modifies Before([h] + s, i + 1)`next, After([h] + s, i + 1)`prev
    ensures IsRing([h] + Erase(s, x)) && IsRing(o)
  {
    Remove(x, [h] + s, i + 1);
    WithoutAt(h, s, i);
  }

  class Loop {
    const head: Link
    ghost var links: set<Link>  // the handle objects of the program, open or not

    constructor ()
      ensures fresh(head) && links == {} && IsRing([head])
    {
      head := new Link(false);
      links := {};
      new;
      Init(head);
    }

    ghost predicate Rings(queue: Link, main: seq<Link>, todo: seq<Link>)
      reads head`next, head`prev, queue`next, queue`prev, main`next, main`prev, todo`next, todo`prev
    {
      IsRing([head] + main) && IsRing([queue] + todo)
    }

    ghost function OpenLinks(): set<Link>
      reads this`links, links`open
    {
      set x | x in links && x.open
    }

    // main is loop->handle_queue, todo what uv_walk has still to visit; together they hold the open handles.
    ghost predicate Valid(queue: Link, main: seq<Link>, todo: seq<Link>)
      reads this`links, links`open
      reads head`next, head`prev, queue`next, queue`prev, main`next, main`prev, todo`next, todo`prev
    {
      && Rings(queue, main, todo) && Members(OpenLinks(), main, todo)
      && head != queue && head !in links && queue !in links
    }

    // QUEUE_REMOVE of an open handle, from whichever ring it is in.
    method Unlink(x: Link, queue: Link, ghost main: seq<Link>, ghost todo: seq<Link>)
      requires Rings(queue, main, todo) && Apart(queue, main, todo)
      requires x in main || x in todo
      modifies head`next, head`prev, queue`next, queue`prev, main`next, main`prev, todo`next, todo`prev
      ensures Rings(queue, Erase(main, x), Erase(todo, x))
    {
      ghost var mine := x in main;
      ghost var h, s, g, o := head, main, queue, todo;
      if !mine {
        h, s, g, o := queue, todo, head, main;
      }
      ghost var i := Index(s, x);
      assert Before([h] + s, i + 1) in [h] + s && After([h] + s, i + 1) in [h] + s;
      UnlinkAt(x, h, s, i, [g] + o);
      EraseAbsent(o, x);
    }

    ghost predicate Apart(queue: Link, main: seq<Link>, todo: seq<Link>) {
      && head != queue && head !in todo && queue !in main
      && forall x :: x in main ==> x !in todo
    }

    lemma {:induction false} ValidFacts(queue: Link, main: seq<Link>, todo: seq<Link>)
      requires Valid(queue, main, todo)
      ensures Distinct(main) && Distinct(todo) && Apart(queue, main, todo)
      ensures head !in main && queue !in todo
      ensures forall x :: x in main || x in todo ==> x in links && x.open
      ensures ([queue] + todo)[1..] == todo
    {
      DistinctTail(head, main);
      DistinctTail(queue, todo);
      assert forall x :: x in OpenLinks() ==> x in links && x.open;
    }

    // uv__handle_init, as far as the handle queue goes.
    method HandleInit(x: Link, queue: Link, ghost main: seq<Link>, ghost todo: seq<Link>)
      returns (ghost main': seq<Link>)
      requires Valid(queue, main, todo) && x in links
      modifies head`next, head`prev, queue`next, queue`prev, links`next, links`prev, links`open
      ensures Valid(queue, main', todo)
      ensures main' == if x in main || x in todo then main else main + [x]
    {
      ValidFacts(queue, main, todo);
      ghost var open := OpenLinks();
      main' := main;
      if !x.open {
        main' := main + [x];
        InsertTail(head, x, [head] + main);
        assert [head] + main' == ([head] + main) + [x];
        assert IsRing([queue] + todo);
        x.open := true;
        assert OpenLinks() == open + {x};
      }
    }

    // uv__finish_close, as far as the handle queue goes.
    method FinishClose(x: Link, queue: Link, ghost main: seq<Link>, ghost todo: seq<Link>)
      requires Valid(queue, main, todo) && x in links
      modifies head`next, head`prev, queue`next, queue`prev, links`next, links`prev, links`open
      ensures Valid(queue, Erase(main, x), Erase(todo, x))
    {
      ValidFacts(queue, main, todo);
      ghost var open := OpenLinks();
      MembersErased(open, main, todo, x);
      if x.open {
        Unlink(x, queue, main, todo);
        x.open := false;
        assert OpenLinks() == open - {x};
      } else {
        EraseAbsent(main, x);
        EraseAbsent(todo, x);
      }
    }

    method Perform(e: Edit, queue: Link, ghost main: seq<Link>, ghost todo: seq<Link>)
      returns (ghost main': seq<Link>, ghost todo': seq<Link>)
      requires Valid(queue, main, todo) && e.x in links
      modifies head`next, head`prev, queue`next, queue`prev, links`next, links`prev, links`open
      ensures Valid(queue, main', todo')
      ensures e.Open? ==> todo' == todo && main' == if e.x in main || e.x in todo then main else main + [e.x]
      ensures e.Close? ==> todo' == Erase(todo, e.x) && main' == Erase(main, e.x)
    {
      if e.Open? {
        main' := HandleInit(e.x, queue, main, todo);
        todo' := todo;
      } else {
        FinishClose(e.x, queue, main, todo);
        main', todo' := Erase(main, e.x), Erase(todo, e.x);
      }
    }

    // A callback that performs the edits one after the other.
    method Callback(edits: seq<Edit>, queue: Link, ghost main: seq<Link>, ghost todo: seq<Link>)
      returns (ghost main': seq<Link>, ghost todo': seq<Link>)
      requires Valid(queue, main, todo) && (forall e :: e in edits ==> e.x in links)
      modifies head`next, head`prev, queue`next, queue`prev, links`next, links`prev, links`open
      ensures Valid(queue, main', todo') && todo' == Keep(todo, Closed(edits))
    {
      main', todo' := main, todo;
      var i := 0;
      ValidFacts(queue, main, todo);
      KeepAll(todo);
      assert edits[..0] == [];
      while i < |edits|
        invariant 0 <= i <= |edits| && Valid(queue, main', todo')
        invariant todo' == Keep(todo, Closed(edits[..i]))
      {
        var e := edits[i];
        assert e in edits;
        main', todo' := Perform(e, queue, main', todo');
        KeepEdit(todo, edits, i);
        i := i + 1;
      }
      assert edits[..i] == edits;
    }

    // QUEUE_REMOVE(q) and QUEUE_INSERT_TAIL(&loop->handle_queue, q) for the head q of the local queue.
    method Advance(queue: Link, ghost main: seq<Link>, ghost todo: seq<Link>) returns (q: Link)
      requires Valid(queue, main, todo) && todo != []
      modifies head`next, head`prev, queue`next, queue`prev, links`next, links`prev
      ensures q == todo[0] && Valid(queue, main + [q], todo[1..])
    {
      ValidFacts(queue, main, todo);
      ghost var open := OpenLinks();
      assert ([queue] + todo)[1] == todo[0];
      assert ([queue] + todo)[0].next == After([queue] + todo, 0);
      q := queue.next;
      Unlink(q, queue, main, todo);
      EraseAbsent(main, q);
      assert Erase(todo, q) == todo[1..];
      InsertTail(head, q, [head] + main);
      assert [head] + (main + [q]) == ([head] + main) + [q];
      assert IsRing([queue] + todo[1..]);
      assert OpenLinks() == open;
      MembersMoved(open, main, todo);
    }

    // The local queue of uv_walk takes over the handles.
    method Begin(ghost start: seq<Link>) returns (queue: Link)
      requires IsRing([head] + start) && Members(OpenLinks(), start, []) && head !in links
      modifies head`next, head`prev, links`next, links`prev
      ensures fresh(queue) && Valid(queue, [], start) && Distinct(start)
    {
      queue := new Link(false);
      DistinctTail(head, start);
      ghost var open := OpenLinks();
      assert forall x :: x in start ==> x in open && x in links;
      Ring.Move(head, queue, [head] + start);
      assert ([head] + start)[1..] == start && [head] + [] == [head];
      assert OpenLinks() == open;
    }

    // uv_walk.  script[k] is what the k-th callback does; visited lists the callbacks in order.
    method Walk(script: seq<seq<Edit>>, ghost start: seq<Link>) returns (visited: seq<Link>, ghost main: seq<Link>)
      requires IsRing([head] + start) && Members(OpenLinks(), start, []) && head !in links
      requires forall k, e :: 0 <= k < |script| && e in script[k] ==> e.x in links
      modifies head`next, head`prev, links`next, links`prev, links`open
      ensures IsRing([head] + main) && Members(OpenLinks(), main, [])
      ensures visited == Visits(start, script, 0) && Distinct(visited)
      ensures forall i :: 0 <= i < |visited| ==>
                visited[i] in start && !visited[i].internal && !ClosedWithin(script, 0, i, visited[i])
      ensures forall x :: x in start && !x.internal && x !in visited ==> ClosedWithin(script, 0, |visited|, x)
    {
      var queue := Begin(start);
      main, visited := [], [];
      ghost var todo := start;
      while true
        invariant fresh(queue) && Valid(queue, main, todo)
        invariant SoFar(start, script, visited, todo)
        decreases |todo|
      {
        var empty := Empty(queue, [queue] + todo);
        if empty {
          assert todo == [];
          break;
        }
        CalledBack(start, script, visited, todo);
        var q := Advance(queue, main, todo);
        main, todo := main + [q], todo[1..];
        if q.internal {
          continue;
        }
        var edits := Edits(script, |visited|);
        main, todo := Callback(edits, queue, main, todo);
        visited := visited + [q];
      }
      VisitedRight(start, script, 0);
      AllVisited(start, script);
    }
  }

  lemma {:induction false} DistinctTail(h: Link, s: seq<Link>)
    requires Distinct([h] + s)
    ensures Distinct(s) && h !in s
  {
    assert ([h] + s)[0] == h && forall j :: 0 <= j < |s| ==> ([h] + s)[j + 1] == s[j];
  }

  lemma {:induction false} EraseIn(s: seq<Link>, x: Link)
    requires Distinct(s)
    ensures forall i :: 0 <= i < |Erase(s, x)| ==> Erase(s, x)[i] in s && Erase(s, x)[i] != x
    ensures forall i :: 0 <= i < |s| && s[i] != x ==> s[i] in Erase(s, x)
  {
    if s != [] {
      var u := s[1..];
      assert s[0] !in u && forall i :: 0 <= i < |u| ==> u[i] == s[i + 1];
      EraseIn(u, x);
      forall i | 0 <= i < |Erase(u, x)|
        ensures Erase(u, x)[i] in s
      {
        assert Erase(u, x)[i] in u;
      }
    }
  }

  lemma {:induction false} MembersErased(open: set<Link>, main: seq<Link>, todo: seq<Link>, x: Link)
    requires Members(open, main, todo) && Distinct(main) && Distinct(todo)
    ensures Members(open - {x}, Erase(main, x), Erase(todo, x))
  {
    EraseIn(main, x);
    EraseIn(todo, x);
  }

  lemma {:induction false} MembersMoved(open: set<Link>, main: seq<Link>, todo: seq<Link>)
    requires Members(open, main, todo) && todo != [] && Distinct(todo)
    ensures Members(open, main + [todo[0]], todo[1..])
  {
    assert todo == [todo[0]] + todo[1..];
  }

  // The two rings share the open handles among them.
  ghost predicate Members(open: set<Link>, main: seq<Link>, todo: seq<Link>) {
    && (forall x :: x in main ==> x in open && x !in todo)
    && (forall x :: x in todo ==> x in open)
    && (forall x :: x in open ==> x in main || x in todo)
  }
}
