module RBWalk {
  // RB_FIND, RB_NFIND, RB_NEXT, RB_PREV, RB_MINMAX and the RB_FOREACH loops, all read-only.

  import opened RBShape
  import opened RBBalance
  import opened RBSplice
  import opened RBTree

  // The nearest node above the focus that comes after it, and the one that comes before it.
  function NextUp(k: Ctx): Node? {
    match k
    case Top(_, _) => null
    case InL(_, n, _, _) => n
    case InR(up, _, _, _) => NextUp(up)
  }

  function PrevUp(k: Ctx): Node? {
    match k
    case Top(_, _) => null
    case InL(up, _, _, _) => PrevUp(up)
    case InR(_, _, n, _) => n
  }

  function First(s: seq<Node>): Node? {
    if s == [] then null else s[0]
  }

  function Last(s: seq<Node>): Node? {
    if s == [] then null else s[|s| - 1]
  }

  lemma {:induction false} NextUpAfter(k: Ctx)
    ensures First(After(k)) == NextUp(k)
  {
    if k.InR? {
      NextUpAfter(k.up);
    }
  }

  lemma {:induction false} PrevUpBefore(k: Ctx)
    ensures Last(Before(k)) == PrevUp(k)
  {
    if k.InL? {
      PrevUpBefore(k.up);
    }
  }

  function Succ(s: seq<Node>, i: nat): Node?
    requires i < |s|
  {
    if i + 1 < |s| then s[i + 1] else null
  }

  function Pred(s: seq<Node>, i: nat): Node?
    requires i < |s|
  {
    if i == 0 then null else s[i - 1]
  }

  // r follows x in s.
  ghost predicate Follows(s: seq<Node>, x: Node, r: Node?) {
    forall i {:trigger Succ(s, i)} :: 0 <= i < |s| && s[i] == x ==> r == Succ(s, i)
  }

  ghost predicate Precedes(s: seq<Node>, x: Node, r: Node?) {
    forall i {:trigger Pred(s, i)} :: 0 <= i < |s| && s[i] == x ==> r == Pred(s, i)
  }

  lemma {:induction false} FollowsAt(s: seq<Node>, i: nat, r: Node?)
    requires i < |s| && Follows(s, s[i], r)
    ensures r == if i + 1 < |s| then s[i + 1] else null
  {
    assert r == Succ(s, i);
  }

  lemma {:induction false} PrecedesAt(s: seq<Node>, i: nat, r: Node?)
    requires i < |s| && Precedes(s, s[i], r)
    ensures r == if i == 0 then null else s[i - 1]
  {
    assert r == Pred(s, i);
  }

  lemma {:induction false} Neighbours(a: seq<Node>, x: Node, b: seq<Node>)
    requires Ascending(a + [x] + b)
    ensures Follows(a + [x] + b, x, First(b)) && Precedes(a + [x] + b, x, Last(a))
  {
    var s := a + [x] + b;
    assert s[|a|] == x;
  }

  lemma {:induction false} Ends(a: seq<Node>, b: seq<Node>)
    ensures First(a + b) == if a == [] then First(b) else First(a)
    ensures Last(a + b) == if b == [] then Last(a) else Last(b)
  {
  }

  lemma {:induction false} Regrouped(a: seq<Node>, b: seq<Node>, x: Node, c: seq<Node>, d: seq<Node>)
    ensures a + (b + [x] + c) + d == (a + b) + [x] + (c + d)
  {
  }

  lemma {:induction false} Filled(t: Tree)
    ensures Inorder(t) == [] <==> t.Leaf?
  {
  }

  lemma {:induction false} InorderFirst(t: Tree)
    requires t.T?
    ensures Inorder(t) != []
    ensures First(Inorder(t)) == if t.l.T? then First(Inorder(t.l)) else t.n
    ensures Last(Inorder(t)) == if t.r.T? then Last(Inorder(t.r)) else t.n
  {
    assert t.l.T? ==> |Inorder(t.l)| > 0;
    assert t.r.T? ==> |Inorder(t.r)| > 0;
  }

  method LeftEnd(x: Node, ghost s: set<Node>, ghost k: Ctx, ghost t: Tree, ghost root: Node?) returns (r: Node)
    requires At(Mem(s), k, t, root) && t.T? && t.n == x
    ensures First(Inorder(t)) == r
  {
    r := x;
    ghost var k', t' := k, t;
    Here(Mem(s), k', t', root);
    while r.left != null
      invariant At(Mem(s), k', t', root) && t'.T? && t'.n == r && r.left == Root(t'.l)
      invariant First(Inorder(t')) == First(Inorder(t))
      decreases t'
    {
      r := r.left;
      InorderFirst(t');
      k', t' := InL(k', t'.n, t'.c, t'.r), t'.l;
      Zip(Mem(s), k', t', root);
      Here(Mem(s), k', t', root);
    }
    InorderFirst(t');
  }

  method RightEnd(x: Node, ghost s: set<Node>, ghost k: Ctx, ghost t: Tree, ghost root: Node?) returns (r: Node)
    requires At(Mem(s), k, t, root) && t.T? && t.n == x
    ensures Last(Inorder(t)) == r
  {
    r := x;
    ghost var k', t' := k, t;
    Here(Mem(s), k', t', root);
    while r.right != null
      invariant At(Mem(s), k', t', root) && t'.T? && t'.n == r && r.right == Root(t'.r)
      invariant Last(Inorder(t')) == Last(Inorder(t))
      decreases t'
    {
      r := r.right;
      InorderFirst(t');
      k', t' := InR(k', t'.l, t'.n, t'.c), t'.r;
      Zip(Mem(s), k', t', root);
      Here(Mem(s), k', t', root);
    }
    InorderFirst(t');
  }

  // What comes after and before the node at the focus of a whole tree.
  lemma {:induction false} LocatedNext(s: Tree, lo: int, hi: int, k: Ctx, t: Tree)
    requires Between(s, lo, hi) && Plug(k, t) == s && t.T?
    ensures Follows(Inorder(s), t.n, if t.r.T? then First(Inorder(t.r)) else NextUp(k))
  {
    var a, b := Before(k) + Inorder(t.l), Inorder(t.r) + After(k);
    PlugFlat(k, t);
    InorderKeys(s, lo, hi);
    Regrouped(Before(k), Inorder(t.l), t.n, Inorder(t.r), After(k));
    Neighbours(a, t.n, b);
    NextUpAfter(k);
    Ends(Inorder(t.r), After(k));
    Filled(t.r);
  }

  lemma {:induction false} LocatedPrev(s: Tree, lo: int, hi: int, k: Ctx, t: Tree)
    requires Between(s, lo, hi) && Plug(k, t) == s && t.T?
    ensures Precedes(Inorder(s), t.n, if t.l.T? then Last(Inorder(t.l)) else PrevUp(k))
  {
    var a, b := Before(k) + Inorder(t.l), Inorder(t.r) + After(k);
    PlugFlat(k, t);
    InorderKeys(s, lo, hi);
    Regrouped(Before(k), Inorder(t.l), t.n, Inorder(t.r), After(k));
    Neighbours(a, t.n, b);
    PrevUpBefore(k);
    Ends(Before(k), Inorder(t.l));
    Filled(t.l);
  }

  // The way up from a node without a right child.
  method ClimbNext(x: Node, ghost s: set<Node>, ghost k: Ctx, ghost t: Tree, ghost root: Node?) returns (r: Node?)
    requires At(Mem(s), k, t, root) && t.T? && t.n == x
    ensures r == NextUp(k)
  {
    ghost var m := Mem(s);
    Here(m, k, t, root);
    var elm := x;
    if elm.parent != null && elm == elm.parent.left {
      elm := elm.parent;
      return elm;
    }
    ghost var k', t' := k, t;
    while elm.parent != null && elm == elm.parent.right
      invariant At(m, k', t', root) && t'.T? && t'.n == elm && elm in s && elm.parent == Owner(k')
      invariant !k'.Top? ==> k'.n in s && (k'.InR? <==> k'.n.right == elm)
      invariant NextUp(k') == NextUp(k)
      decreases k'
    {
      elm := elm.parent;
      Zip(m, k', t', root);
      k', t' := k'.up, Close(k', t');
      Here(m, k', t', root);
    }
    r := elm.parent;
  }

  method Next(x: Node, ghost h: Head) returns (r: Node?)
    requires h.Valid() && x in h.nodes
    ensures Follows(Inorder(h.shape), x, r)
  {
    ghost var m := Mem(h.nodes);
    ghost var k, t := Locate(Top(h.lo, h.hi), h.shape, x);
    UnplugAt(m, k, t, h.root);
    Here(m, k, t, h.root);
    LocatedNext(h.shape, h.lo, h.hi, k, t);
    if x.right != null {
      Zip(m, InR(k, t.l, x, t.c), t.r, h.root);
      r := LeftEnd(x.right, h.nodes, InR(k, t.l, x, t.c), t.r, h.root);
    } else {
      r := ClimbNext(x, h.nodes, k, t, h.root);
    }
  }

  // The way up from a node without a left child.
  method ClimbPrev(x: Node, ghost s: set<Node>, ghost k: Ctx, ghost t: Tree, ghost root: Node?) returns (r: Node?)
    requires At(Mem(s), k, t, root) && t.T? && t.n == x
    ensures r == PrevUp(k)
  {
    ghost var m := Mem(s);
    Here(m, k, t, root);
    var elm := x;
    if elm.parent != null && elm == elm.parent.right {
      elm := elm.parent;
      return elm;
    }
    ghost var k', t' := k, t;
    while elm.parent != null && elm == elm.parent.left
      invariant At(m, k', t', root) && t'.T? && t'.n == elm && elm in s && elm.parent == Owner(k')
      invariant !k'.Top? ==> k'.n in s && (k'.InL? <==> k'.n.left == elm)
      invariant PrevUp(k') == PrevUp(k)
      decreases k'
    {
      elm := elm.parent;
      Zip(m, k', t', root);
      k', t' := k'.up, Close(k', t');
      Here(m, k', t', root);
    }
    r := elm.parent;
  }

  method Prev(x: Node, ghost h: Head) returns (r: Node?)
    requires h.Valid() && x in h.nodes
    ensures Precedes(Inorder(h.shape), x, r)
  {
    ghost var m := Mem(h.nodes);
    ghost var k, t := Locate(Top(h.lo, h.hi), h.shape, x);
    UnplugAt(m, k, t, h.root);
    Here(m, k, t, h.root);
    LocatedPrev(h.shape, h.lo, h.hi, k, t);
    if x.left != null {
      Zip(m, InL(k, x, t.c, t.r), t.l, h.root);
      r := RightEnd(x.left, h.nodes, InL(k, x, t.c, t.r), t.l, h.root);
    } else {
      r := ClimbPrev(x, h.nodes, k, t, h.root);
    }
  }

  // RB_PREV undoes RB_NEXT.
  lemma {:induction false} PrevOfNext(s: seq<Node>, x: Node, r: Node, p: Node?)
    requires Ascending(s) && x in s && Follows(s, x, r) && Precedes(s, r, p)
    ensures r in s && p == x
  {
    var i :| 0 <= i < |s| && s[i] == x;
    FollowsAt(s, i, r);
    PrecedesAt(s, i + 1, p);
  }

  method MinMax(h: Head, val: int) returns (parent: Node?)
    requires h.Valid()
    ensures parent == if val < 0 then First(Inorder(h.shape)) else Last(Inorder(h.shape))
  {
    var tmp := h.root;
    parent := null;
    ghost var k, t := Top(h.lo, h.hi), h.shape;
    ghost var m := Mem(h.nodes);
    while tmp != null
      invariant At(m, k, t, h.root) && tmp == Root(t)
      invariant if val < 0 then First(Inorder(h.shape)) == (if t.T? then First(Inorder(t)) else parent)
                else Last(Inorder(h.shape)) == (if t.T? then Last(Inorder(t)) else parent)
      decreases t
    {
      Here(m, k, t, h.root);
      InorderFirst(t);
      parent := tmp;
      if val < 0 {
        tmp := tmp.left;
        k, t := InL(k, t.n, t.c, t.r), t.l;
      } else {
        tmp := tmp.right;
        k, t := InR(k, t.l, t.n, t.c), t.r;
      }
      Zip(m, k, t, h.root);
    }
  }

  // One downward step of a search for key, on either side of the node at the focus.
  lemma {:induction false} StepDown(m: Memory, k: Ctx, t: Tree, root: Node?)
    requires At(m, k, t, root) && t.T?
    ensures t.n in m && m[t.n] == Cell(Root(t.l), Root(t.r), Owner(k), t.c)
    ensures At(m, InL(k, t.n, t.c, t.r), t.l, root) && At(m, InR(k, t.l, t.n, t.c), t.r, root)
  {
    Here(m, k, t, root);
    Zip(m, InL(k, t.n, t.c, t.r), t.l, root);
    Zip(m, InR(k, t.l, t.n, t.c), t.r, root);
  }

  lemma {:induction false} FirstIsLeast(a: seq<Node>, b: seq<Node>, key: int)
    requires Ascending(a + b)
    requires forall n :: n in a ==> n.key < key
    ensures b != [] ==> forall n :: n in a + b && key <= n.key ==> b[0].key <= n.key
  {
    forall n | n in a + b && key <= n.key
      ensures b != [] ==> b[0].key <= n.key
    {
      var i :| 0 <= i < |a + b| && (a + b)[i] == n;
      assert i < |a| ==> n in a;
      if b != [] {
        assert (a + b)[|a|] == b[0];
      }
    }
  }

  lemma {:induction false} Listing(h: Head)
    requires h.Valid()
    ensures h.nodes == SetOf(Inorder(h.shape)) && Ascending(Inorder(h.shape))
  {
    ElemsInorder(h.shape);
    InorderKeys(h.shape, h.lo, h.hi);
  }

  lemma {:induction false} Listed(h: Head, i: nat)
    requires h.Valid() && i < |Inorder(h.shape)|
    ensures Inorder(h.shape)[i] in h.nodes
  {
    ElemsInorder(h.shape);
    assert Inorder(h.shape)[i] in SetOf(Inorder(h.shape));
  }

  // Bounds wide enough for the nodes of h and for key.
  function Wide(lo: int, hi: int, key: int): Ctx {
    Top(if key <= lo then key - 1 else lo, if hi <= key then key + 1 else hi)
  }

  // What an unsuccessful search has established about the whole tree.
  lemma {:induction false} Exhausted(h: Head, k: Ctx, key: int)
    requires h.Valid() && Plug(k, Leaf) == h.shape && Around(k) && Lo(k) < key < Hi(k)
    ensures forall n :: n in h.nodes ==> n.key != key
    ensures NextUp(k) == null ==> forall n :: n in h.nodes ==> n.key < key
    ensures NextUp(k) != null ==> var r := NextUp(k);
      r in h.nodes && key <= r.key && forall n :: n in h.nodes && key <= n.key ==> r.key <= n.key
  {
    var a, b := Before(k), After(k);
    PlugFlat(k, Leaf);
    NextUpAfter(k);
    OutsideKeys(k);
    Listing(h);
    assert Inorder(h.shape) == a + b;
    FirstIsLeast(a, b, key);
  }

  // RB_NFIND: the least node whose key is not below the given one.
  method NFind(h: Head, key: int) returns (r: Node?)
    requires h.Valid()
    ensures r == null ==> forall n :: n in h.nodes ==> n.key < key
    ensures r != null ==> r in h.nodes && key <= r.key && forall n :: n in h.nodes && key <= n.key ==> r.key <= n.key
  {
    var tmp := h.root;
    var res: Node? := null;
    ghost var m := Mem(h.nodes);
    ghost var k, t := Wide(h.lo, h.hi, key), h.shape;
    Widen(h.shape, h.lo, h.hi, k.lo, k.hi);
    while tmp != null
      invariant At(m, k, t, h.root) && tmp == Root(t) && Plug(k, t) == h.shape
      invariant res == NextUp(k) && Lo(k) < key < Hi(k)
      decreases t
    {
      StepDown(m, k, t, h.root);
      if key < tmp.key {
        res := tmp;
        tmp := tmp.left;
        k, t := InL(k, t.n, t.c, t.r), t.l;
      } else if tmp.key < key {
        tmp := tmp.right;
        k, t := InR(k, t.l, t.n, t.c), t.r;
      } else {
        FocusIn(k, t);
        return tmp;
      }
    }
    Exhausted(h, k, key);
    r := res;
  }

  method Find(h: Head, key: int) returns (r: Node?)
    requires h.Valid()
    ensures r == null <==> forall n :: n in h.nodes ==> n.key != key
    ensures r != null ==> r in h.nodes && r.key == key
  {
    var tmp := h.root;
    ghost var m := Mem(h.nodes);
    ghost var k, t := Wide(h.lo, h.hi, key), h.shape;
    Widen(h.shape, h.lo, h.hi, k.lo, k.hi);
    while tmp != null
      invariant At(m, k, t, h.root) && tmp == Root(t) && Plug(k, t) == h.shape
      invariant Lo(k) < key < Hi(k)
      decreases t
    {
      StepDown(m, k, t, h.root);
      if key < tmp.key {
        tmp := tmp.left;
        k, t := InL(k, t.n, t.c, t.r), t.l;
      } else if tmp.key < key {
        tmp := tmp.right;
        k, t := InR(k, t.l, t.n, t.c), t.r;
      } else {
        FocusIn(k, t);
        return tmp;
      }
    }
    Exhausted(h, k, key);
    r := null;
  }

  // RB_FOREACH visits every node once, in ascending order.
  method ForEach(h: Head) returns (visited: seq<Node>)
    requires h.Valid()
    ensures visited == Inorder(h.shape)
    ensures Ascending(visited) && h.nodes == SetOf(visited)
  {
    visited := [];
    ghost var s := Inorder(h.shape);
    var x := MinMax(h, -1);
    while x != null
      invariant |visited| <= |s| && visited == s[..|visited|]
      invariant x == if |visited| < |s| then s[|visited|] else null
      decreases |s| - |visited|
    {
      Listed(h, |visited|);
      var y := Next(x, h);
      FollowsAt(s, |visited|, y);
      visited := visited + [x];
      x := y;
    }
    Listing(h);
  }

  // The last n elements of s, last first.
  ghost function Backwards(s: seq<Node>, n: nat): seq<Node>
    requires n <= |s|
  {
    if n == 0 then [] else Backwards(s, n - 1) + [s[|s| - n]]
  }

  lemma {:induction false} BackwardsAt(s: seq<Node>, n: nat)
    requires n <= |s|
    ensures var b := Backwards(s, n); |b| == n && forall i :: 0 <= i < n ==> b[i] == s[|s| - 1 - i]
  {
    if n > 0 {
      BackwardsAt(s, n - 1);
    }
  }

  method ForEachReverse(h: Head) returns (visited: seq<Node>)
    requires h.Valid()
    ensures |visited| == |Inorder(h.shape)|
    ensures forall i :: 0 <= i < |visited| ==> visited[i] == Inorder(h.shape)[|visited| - 1 - i]
  {
    visited := [];
    ghost var s := Inorder(h.shape);
    var x := MinMax(h, 1);
    while x != null
      invariant |visited| <= |s| && visited == Backwards(s, |visited|)
      invariant x == if |visited| < |s| then s[|s| - 1 - |visited|] else null
      decreases |s| - |visited|
    {
      ghost var j := |s| - 1 - |visited|;
      Listed(h, j);
      var y := Prev(x, h);
      PrecedesAt(s, j, y);
      visited := visited + [x];
      x := y;
    }
    BackwardsAt(s, |s|);
  }
}
