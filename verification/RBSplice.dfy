// Taking a node out of a tree with a hole: the splice and the transplant of RB_REMOVE.
module RBSplice {
  import opened RBShape
  import opened RBBalance

  // The context whose inner part is chain and whose outer part is k.
  function Graft(chain: Ctx, k: Ctx): Ctx {
    match chain
    case Top(_, _) => k
    case InL(up, n, c, r) => InL(Graft(up, k), n, c, r)
    case InR(up, l, n, c) => InR(Graft(up, k), l, n, c)
  }

  lemma {:induction false} GraftClosed(m: Memory, chain: Ctx, k: Ctx, t: Tree, root: Node?)
    requires At(m, Graft(chain, k), t, root)
    ensures At(m, k, Plug(chain, t), root)
  {
    if !chain.Top? {
      Zip(m, Graft(chain, k), t, root);
      GraftClosed(m, chain.up, k, Close(chain, t), root);
    }
  }

  lemma {:induction false} GraftOpened(m: Memory, chain: Ctx, k: Ctx, t: Tree, root: Node?)
    requires At(m, k, Plug(chain, t), root)
    ensures At(m, Graft(chain, k), t, root)
  {
    if !chain.Top? {
      GraftOpened(m, chain.up, k, Close(chain, t), root);
      Zip(m, Graft(chain, k), t, root);
    }
  }

  lemma {:induction false} GraftFlat(chain: Ctx, k: Ctx, t: Tree)
    ensures Plug(Graft(chain, k), t) == Plug(k, Plug(chain, t))
    ensures Base(Graft(chain, k)) == Base(k)
    ensures Flat(Graft(chain, k), t) == Flat(k, Plug(chain, t))
  {
    if !chain.Top? {
      FlatUp(Graft(chain, k), t);
      GraftFlat(chain.up, k, Close(chain, t));
    }
  }

  // Colours do not depend on which node carries them.
  lemma {:induction false} GraftSwap(chain: Ctx, k: Ctx, l: Tree, x: Node, y: Node, c: Color, h: nat)
    requires CtxRB(Graft(chain, InR(k, l, x, c)), h)
    ensures CtxRB(Graft(chain, InR(k, l, y, c)), h)
    ensures OwnerRed(Graft(chain, InR(k, l, y, c))) == OwnerRed(Graft(chain, InR(k, l, x, c)))
  {
    if !chain.Top? {
      GraftSwap(chain.up, k, l, x, y, c, h + Step(chain.c));
    }
  }

  predicate Leftmost(chain: Ctx) {
    chain.Top? || (chain.InL? && Leftmost(chain.up))
  }

  lemma {:induction false} LeftmostBefore(chain: Ctx)
    requires Leftmost(chain)
    ensures Before(chain) == []
  {
    if !chain.Top? {
      LeftmostBefore(chain.up);
    }
  }

  lemma {:induction false} Narrow(t: Tree, lo: int, hi: int, lo': int, hi': int)
    requires Between(t, lo, hi)
    requires forall n :: n in Inorder(t) ==> lo' < n.key < hi'
    ensures Between(t, lo', hi')
  {
    if t.T? {
      assert forall n :: n in Inorder(t.l) || n in Inorder(t.r) || n == t.n ==> n in Inorder(t);
      InorderKeys(t.l, lo, t.n.key);
      InorderKeys(t.r, t.n.key, hi);
      Narrow(t.l, lo, t.n.key, lo', t.n.key);
      Narrow(t.r, t.n.key, hi, t.n.key, hi');
    }
  }

  // Some way down to a given node.
  lemma {:induction false} Locate(k: Ctx, t: Tree, x: Node) returns (k': Ctx, t': Tree)
    requires x in Elems(t)
    ensures Plug(k', t') == Plug(k, t) && Base(k') == Base(k) && t'.T? && t'.n == x
    decreases t
  {
    if x == t.n {
      return k, t;
    } else if x in Elems(t.l) {
      k', t' := Locate(InL(k, t.n, t.c, t.r), t.l, x);
    } else {
      k', t' := Locate(InR(k, t.l, t.n, t.c), t.r, x);
    }
  }

  lemma {:induction false} UnplugAt(m: Memory, k: Ctx, t: Tree, root: Node?)
    requires At(m, Base(k), Plug(k, t), root)
    ensures At(m, k, t, root)
  {
    if !k.Top? {
      UnplugAt(m, k.up, Close(k, t), root);
      Zip(m, k, t, root);
    }
  }

  // A node with one child (or none) is bypassed.
  lemma {:induction false} Bypassed(m: Memory, m': Memory, k: Ctx, t: Tree, c: Tree, root: Node?, root': Node?)
    requires At(m, k, t, root) && t.T?
    requires (t.l.Leaf? && c == t.r) || (t.r.Leaf? && c == t.l)
    requires forall n :: n in m && n != t.n && n != Root(c) && n != Owner(k) ==> n in m' && m'[n] == m[n]
    requires OwnerRelinked(m, m', k, Root(c), root, root')
    requires c.T? ==> c.n in m && c.n in m' && m'[c.n] == m[c.n].(parent := Owner(k))
    ensures At(m', k, c, root')
  {
    Here(m, k, t, root);
    Widen(c, if c == t.r then t.n.key else Lo(k), if c == t.l then t.n.key else Hi(k), Lo(k), Hi(k));
    assert Wired(m, c, t.n);
    RelinkedWired(m, m', k, t.n, Root(c), root, root');
    assert SameIn(m, m', Lo(k), t.n.key, Root(c)) && SameIn(m, m', t.n.key, Hi(k), Root(c));
    if c == t.r {
      ReparentedWired(m, m', c, t.n, Owner(k), t.n.key, Hi(k));
    } else {
      ReparentedWired(m, m', c, t.n, Owner(k), Lo(k), t.n.key);
    }
  }

  // The successor x takes the place of the removed node.
  lemma {:induction false} Transplanted(m: Memory, m': Memory, k: Ctx, t: Tree, x: Node, root: Node?, root': Node?)
    requires At(m, k, t, root) && t.T? && t.l.T?
    requires t.n.key < x.key < Hi(k) && Between(t.r, x.key, Hi(k))
    requires forall n :: n in m && n != x && n != t.n && n != Root(t.l) && n != Root(t.r) && n != Owner(k) ==>
      n in m' && m'[n] == m[n]
    requires OwnerRelinked(m, m', k, x, root, root')
    requires x in m' && m'[x] == Cell(Root(t.l), Root(t.r), Owner(k), t.c)
    requires t.l.n in m && t.l.n in m' && m'[t.l.n] == m[t.l.n].(parent := x)
    requires t.r.T? ==> t.r.n in m && t.r.n in m' && m'[t.r.n] == m[t.r.n].(parent := x)
    ensures At(m', k, T(t.l, x, t.c, t.r), root')
  {
    Here(m, k, t, root);
    assert Between(t.l, Lo(k), t.n.key);
    ReparentedWired(m, m', t.l, t.n, x, Lo(k), t.n.key);
    ReparentedWired(m, m', t.r, t.n, x, x.key, Hi(k));
    RelinkedWired(m, m', k, t.n, x, root, root');
    Widen(t.l, Lo(k), t.n.key, Lo(k), x.key);
  }

  // What is left in place of a node that is taken out, seen from its hole.
  predicate Mendable(k: Ctx, c: Tree, color: Color) {
    if color.Black? then Short(k, c) else Fits(k, c)
  }

  lemma {:induction false} BypassedRB(k: Ctx, t: Tree, c: Tree)
    requires Fits(k, t) && t.T?
    requires (t.l.Leaf? && c == t.r) || (t.r.Leaf? && c == t.l)
    ensures Mendable(k, c, t.c)
  {
    assert IsRB(c) && BH(c) == 0;
    assert IsRB(Blacken(c)) by {
      if c.T? {
        assert IsRB(c.l) && IsRB(c.r) && BH(c.l) == BH(c.r);
      }
    }
  }

  lemma {:induction false} BypassedFlat(k: Ctx, t: Tree, c: Tree) returns (a: seq<Node>, b: seq<Node>)
    requires t.T?
    requires (t.l.Leaf? && c == t.r) || (t.r.Leaf? && c == t.l)
    ensures Flat(k, t) == a + [t.n] + b && Flat(k, c) == a + b
  {
    a := Before(k) + Inorder(t.l);
    b := Inorder(t.r) + After(k);
    assert Flat(k, t) == a + [t.n] + b;
    assert Flat(k, c) == a + b;
  }

  // Taking one node out of the sorted sequence takes exactly it out of the set.
  lemma {:induction false} Shrunk(t: Tree, d: Tree, x: Node, a: seq<Node>, b: seq<Node>, lo: int, hi: int)
    requires Between(t, lo, hi) && Inorder(t) == a + [x] + b && Inorder(d) == a + b
    ensures Elems(d) == Elems(t) - {x}
  {
    InorderKeys(t, lo, hi);
    ElemsInorder(t);
    ElemsInorder(d);
    var s := Inorder(t);
    assert s[|a|] == x;
    forall n | n in a + b
      ensures n != x
    {
      if n in a {
        var i :| 0 <= i < |a| && a[i] == n;
        assert s[i] == n;
      } else {
        var i :| 0 <= i < |b| && b[i] == n;
        assert s[|a| + 1 + i] == n;
      }
    }
  }

  // The successor sub.n of t.n, found at the bottom of chain, moved to the place of t.n.
  lemma {:induction false} SplicedRB(k: Ctx, t: Tree, chain: Ctx, sub: Tree)
    requires t.T? && IsRB(Plug(k, t)) && !IsRed(Plug(k, t))
    requires sub.T? && sub.l.Leaf? && Plug(chain, sub) == t.r
    ensures Mendable(Graft(chain, InR(k, t.l, sub.n, t.c)), sub.r, sub.c)
  {
    var k1 := InR(k, t.l, t.n, t.c);
    var kk := Graft(chain, k1);
    GraftFlat(chain, k1, sub);
    UnplugRB(kk, sub);
    BypassedRB(kk, sub, sub.r);
    GraftSwap(chain, k, t.l, t.n, sub.n, t.c, if sub.c.Black? then BH(sub.r) + 1 else BH(sub.r));
    var k2 := Graft(chain, InR(k, t.l, sub.n, t.c));
  }

  lemma {:induction false} SuccessorFirst(chain: Ctx, sub: Tree)
    requires sub.T? && sub.l.Leaf? && Leftmost(chain)
    ensures Inorder(Plug(chain, sub)) == [sub.n] + Inorder(Plug(chain, sub.r))
  {
    PlugFlat(chain, sub);
    PlugFlat(chain, sub.r);
    LeftmostBefore(chain);
    assert Inorder(sub) == [] + [sub.n] + Inorder(sub.r);
  }

  lemma {:induction false} SplicedFlat(k: Ctx, t: Tree, x: Node, r': Tree) returns (a: seq<Node>, b: seq<Node>)
    requires t.T? && Inorder(t.r) == [x] + Inorder(r')
    ensures Flat(k, t) == a + [t.n] + b && Flat(InR(k, t.l, x, t.c), r') == a + b
  {
    var p, l, r, q := Before(k), Inorder(t.l), Inorder(r'), After(k);
    a, b := p + l, [x] + r + q;
    assert p + (l + [t.n] + ([x] + r)) + q == a + [t.n] + b;
    assert (p + l + [x]) + r + q == a + b;
  }

  lemma {:induction false} SplicedKeys(r: Tree, x: Node, r': Tree, lo: int, hi: int, hi': int)
    requires Between(r, lo, hi) && Between(r', lo, hi') && Inorder(r) == [x] + Inorder(r')
    ensures lo < x.key < hi && Between(r', x.key, hi)
  {
    InorderKeys(r, lo, hi);
    assert Inorder(r)[0] == x;
    forall n | n in Inorder(r')
      ensures x.key < n.key < hi
    {
      var i :| 0 <= i < |Inorder(r')| && Inorder(r')[i] == n;
      assert Inorder(r)[i + 1] == n;
    }
    Narrow(r', lo, hi', x.key, hi);
  }

  // The memory no longer has to mention a node that left the tree.
  lemma {:induction false} Forgotten(m: Memory, t: Tree, p: Node?, x: Node)
    requires Wired(m, t, p) && x !in Elems(t)
    ensures Wired(m - {x}, t, p)
  {
    if t.T? {
      Forgotten(m, t.l, t.n, x);
      Forgotten(m, t.r, t.n, x);
    }
  }
}
