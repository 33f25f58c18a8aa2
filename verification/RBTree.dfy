// RB_INSERT and RB_REMOVE of tree.h with their rotations and colour fixes, in place.
module RBTree {
  import opened RBShape
  import opened RBBalance
  import opened RBSplice

  class Head {
    var root: Node?
    ghost var nodes: set<Node>
    ghost var shape: Tree
    ghost var lo: int
    ghost var hi: int

    // RB_INIT
    constructor ()
      ensures Valid() && nodes == {}
    {
      root := null;
      nodes, shape, lo, hi := {}, Leaf, 0, 0;
    }

    ghost predicate Valid()
      reads this, nodes
    {
      && At(Mem(nodes), Top(lo, hi), shape, root)
      && IsRB(shape) && !IsRed(shape)
      && nodes == Elems(shape)
    }

    method SetColor(x: Node, col: Color, ghost s: set<Node>, ghost k: Ctx, ghost t: Tree)
      requires At(Mem(s), k, t, root) && t.T? && t.n == x
      modifies x
      ensures At(Mem(s), k, Paint(t, col), root)
    {
      ghost var m := Mem(s);
      x.color := col;
      Recolored(m, Mem(s), k, t, col, root);
    }

    method Replace(p: Node?, x: Node, y: Node?, ghost k: Ctx)
      requires p == Owner(k)
      requires k.InL? ==> p.left == x
      requires k.InR? ==> p.left != x
      modifies `root, if p == null then {} else {p}
      ensures root == if p == null then y else old(root)
      ensures k.InL? ==> p.left == y && p.right == old(p.right)
      ensures k.InR? ==> p.left == old(p.left) && p.right == y
      ensures p != null ==> p.parent == old(p.parent) && p.color == old(p.color)
    {
      if p != null {
        if p.left == x {
          p.left := y;
        } else {
          p.right := y;
        }
      } else {
        root := y;
      }
    }

    method RotateLeftLinks(elm: Node, tmp: Node, ghost b: Node?, ghost k: Ctx)
      requires elm.right == tmp && tmp.left == b && elm.parent == Owner(k)
      requires elm != tmp && b != elm && b != tmp
      requires !k.Top? ==> k.n != elm && k.n != tmp && k.n != b
      requires k.InL? ==> k.n.left == elm
      requires k.InR? ==> k.n.left != elm
      modifies `root, elm, tmp, if b == null then {} else {b}, if k.Top? then {} else {k.n}
      ensures root == if k.Top? then tmp else old(root)
      ensures elm.left == old(elm.left) && elm.right == b && elm.parent == tmp && elm.color == old(elm.color)
      ensures tmp.left == elm && tmp.right == old(tmp.right) && tmp.parent == Owner(k) && tmp.color == old(tmp.color)
      ensures b != null ==>
        b.left == old(b.left) && b.right == old(b.right) && b.parent == elm && b.color == old(b.color)
      ensures k.InL? ==> k.n.left == tmp && k.n.right == old(k.n.right)
      ensures k.InR? ==> k.n.left == old(k.n.left) && k.n.right == tmp
      ensures !k.Top? ==> k.n.parent == old(k.n.parent) && k.n.color == old(k.n.color)
    {
      elm.right := tmp.left;
      if elm.right != null {
        tmp.left.parent := elm;
      }
      tmp.parent := elm.parent;
      Replace(tmp.parent, elm, tmp, k);
      tmp.left := elm;
      elm.parent := tmp;
    }

    method RotateRightLinks(elm: Node, tmp: Node, ghost b: Node?, ghost k: Ctx)
      requires elm.left == tmp && tmp.right == b && elm.parent == Owner(k)
      requires elm != tmp && b != elm && b != tmp
      requires !k.Top? ==> k.n != elm && k.n != tmp && k.n != b
      requires k.InL? ==> k.n.left == elm
      requires k.InR? ==> k.n.left != elm
      modifies `root, elm, tmp, if b == null then {} else {b}, if k.Top? then {} else {k.n}
      ensures root == if k.Top? then tmp else old(root)
      ensures elm.right == old(elm.right) && elm.left == b && elm.parent == tmp && elm.color == old(elm.color)
      ensures tmp.right == elm && tmp.left == old(tmp.left) && tmp.parent == Owner(k) && tmp.color == old(tmp.color)
      ensures b != null ==>
        b.left == old(b.left) && b.right == old(b.right) && b.parent == elm && b.color == old(b.color)
      ensures k.InL? ==> k.n.left == tmp && k.n.right == old(k.n.right)
      ensures k.InR? ==> k.n.left == old(k.n.left) && k.n.right == tmp
      ensures !k.Top? ==> k.n.parent == old(k.n.parent) && k.n.color == old(k.n.color)
    {
      elm.left := tmp.right;
      if elm.left != null {
        tmp.right.parent := elm;
      }
      tmp.parent := elm.parent;
      Replace(tmp.parent, elm, tmp, k);
      tmp.right := elm;
      elm.parent := tmp;
    }

    method RotateLeft(elm: Node, ghost s: set<Node>, ghost k: Ctx, ghost t: Tree)
      requires At(Mem(s), k, t, root) && t.T? && t.n == elm && t.r.T?
      modifies `root, s
      ensures At(Mem(s), k, T(T(t.l, elm, t.c, t.r.l), t.r.n, t.r.c, t.r.r), root)
    {
      ghost var m, root0 := Mem(s), root;
      ghost var T(a, x, xc, T(b, y, yc, c)) := t;
      Here(m, k, t, root);
      RotateLeftFacts(m, k, a, x, xc, b, y, yc, c, root);
      RotateLeftLinks(elm, elm.right, Root(b), k);
      RotatedLeft(m, Mem(s), k, a, x, xc, b, y, yc, c, root0, root);
    }

    method RotateRight(elm: Node, ghost s: set<Node>, ghost k: Ctx, ghost t: Tree)
      requires At(Mem(s), k, t, root) && t.T? && t.n == elm && t.l.T?
      modifies `root, s
      ensures At(Mem(s), k, T(t.l.l, t.l.n, t.l.c, T(t.l.r, elm, t.c, t.r)), root)
    {
      ghost var m, root0 := Mem(s), root;
      ghost var T(T(a, x, xc, b), y, yc, c) := t;
      Here(m, k, t, root);
      RotateRightFacts(m, k, a, x, xc, b, y, yc, c, root);
      RotateRightLinks(elm, elm.left, Root(b), k);
      RotatedRight(m, Mem(s), k, a, x, xc, b, y, yc, c, root0, root);
    }

    method SetColorOther(x: Node, col: Color, ghost s: set<Node>, ghost k: Ctx, ghost t: Tree)
      requires At(Mem(s), k, t, root) && !k.Top? && Other(k).T? && Other(k).n == x
      modifies x
      ensures At(Mem(s), WithOther(k, Paint(Other(k), col)), t, root)
    {
      ghost var o := Across(k, t);
      Crossed(Mem(s), k, t, root);
      SetColor(x, col, s, o, Other(k));
      Crossed(Mem(s), o, Paint(Other(k), col), root);
    }

    method SetColorOwner(x: Node, col: Color, ghost s: set<Node>, ghost k: Ctx, ghost t: Tree)
      requires At(Mem(s), k, t, root) && !k.Top? && k.n == x
      modifies x
      ensures At(Mem(s), CtxPaint(k, col), t, root)
    {
      Zip(Mem(s), k, t, root);
      SetColor(x, col, s, k.up, Close(k, t));
      Zip(Mem(s), CtxPaint(k, col), t, root);
    }

    // RB_INSERT_COLOR, uncle red: push the blackness of the grandparent down.
    method PushDown(parent: Node, gparent: Node, tmp: Node, ghost s: set<Node>, ghost k: Ctx, ghost t: Tree)
      requires At(Mem(s), k, t, root) && t.T? && t.n == parent
      requires !k.Top? && k.n == gparent && Other(k).T? && Other(k).n == tmp
      modifies s
      ensures At(Mem(s), k.up, PushedDownAt(k, t), root)
    {
      Here(Mem(s), k, t, root);
      OtherFacts(Mem(s), k, t, root);
      SetColorOther(tmp, Black, s, k, t);
      ghost var k1 := WithOther(k, Paint(Other(k), Black));
      SetColor(parent, Black, s, k1, t);
      SetColorOwner(gparent, Red, s, k1, Paint(t, Black));
      Zip(Mem(s), CtxPaint(k1, Red), Paint(t, Black), root);
    }

    // RB_SET_BLACKRED(parent, gparent) and the closing rotation about the grandparent.
    method LiftLeft(parent: Node, gparent: Node, ghost s: set<Node>, ghost k: Ctx, ghost t: Tree)
      requires At(Mem(s), k, t, root) && k.InL? && k.up.InL? && k.n == parent && k.up.n == gparent
      modifies `root, s
      ensures At(Mem(s), Lifted(k), t, root)
    {
      ghost var p, g := Close(k, t), k.up;
      Zip(Mem(s), k, t, root);
      SetColor(parent, Black, s, g, p);
      SetColorOwner(gparent, Red, s, g, Blacken(p));
      Zip(Mem(s), CtxPaint(g, Red), Blacken(p), root);
      RotateRight(gparent, s, g.up, T(Blacken(p), gparent, Red, g.r));
      Zip(Mem(s), Lifted(k), t, root);
    }

    method LiftRight(parent: Node, gparent: Node, ghost s: set<Node>, ghost k: Ctx, ghost t: Tree)
      requires At(Mem(s), k, t, root) && k.InR? && k.up.InR? && k.n == parent && k.up.n == gparent
      modifies `root, s
      ensures At(Mem(s), Lifted(k), t, root)
    {
      ghost var p, g := Close(k, t), k.up;
      Zip(Mem(s), k, t, root);
      SetColor(parent, Black, s, g, p);
      SetColorOwner(gparent, Red, s, g, Blacken(p));
      Zip(Mem(s), CtxPaint(g, Red), Blacken(p), root);
      RotateLeft(gparent, s, g.up, T(g.l, gparent, Red, Blacken(p)));
      Zip(Mem(s), Lifted(k), t, root);
    }

    // One turn of the RB_INSERT_COLOR loop whose parent is a left child.
    method InsertStepLeft(elm: Node, parent: Node, gparent: Node, ghost s: set<Node>, ghost k: Ctx, ghost t: Tree)
      returns (next: Node, ghost k': Ctx, ghost t': Tree)
      requires At(Mem(s), k, t, root) && RedFocus(k, t) && OwnerRed(k) && k.up.InL?
      requires t.n == elm && k.n == parent && k.up.n == gparent
      modifies `root, s
      ensures At(Mem(s), k', t', root) && RedFocus(k', t') && t'.n == next
      ensures Depth(k') < Depth(k) && Base(k') == Base(k) && Flat(k', t') == Flat(k, t)
    {
      ghost var pt := Close(k, t);
      RedParent(k, t);
      Zip(Mem(s), k, t, root);
      Here(Mem(s), k, t, root);
      SiblingCell(Mem(s), k.up, pt, root);
      var tmp := gparent.right;
      if tmp != null && tmp.color == Red {
        PushDown(parent, gparent, tmp, s, k.up, pt);
        UncleRed(k, t);
        return gparent, k.up.up, PushedDown(k, t);
      }
      var p := parent;
      next := elm;
      k', t' := k, t;
      if parent.right == elm {
        RotateLeft(parent, s, k.up, pt);
        Inner(k, t);
        p, next := elm, parent;
        k', t' := InL(k.up, elm, Red, t.r), T(k.l, parent, Red, t.l);
        Zip(Mem(s), k', t', root);
      }
      LiftLeft(p, gparent, s, k', t');
      Lift(k', t');
      k' := Lifted(k');
    }

    // ... and whose parent is a right child.
    method InsertStepRight(elm: Node, parent: Node, gparent: Node, ghost s: set<Node>, ghost k: Ctx, ghost t: Tree)
      returns (next: Node, ghost k': Ctx, ghost t': Tree)
      requires At(Mem(s), k, t, root) && RedFocus(k, t) && OwnerRed(k) && k.up.InR?
      requires t.n == elm && k.n == parent && k.up.n == gparent
      modifies `root, s
      ensures At(Mem(s), k', t', root) && RedFocus(k', t') && t'.n == next
      ensures Depth(k') < Depth(k) && Base(k') == Base(k) && Flat(k', t') == Flat(k, t)
    {
      ghost var pt := Close(k, t);
      RedParent(k, t);
      Zip(Mem(s), k, t, root);
      Here(Mem(s), k, t, root);
      SiblingCell(Mem(s), k.up, pt, root);
      var tmp := gparent.left;
      if tmp != null && tmp.color == Red {
        PushDown(parent, gparent, tmp, s, k.up, pt);
        UncleRed(k, t);
        return gparent, k.up.up, PushedDown(k, t);
      }
      var p := parent;
      next := elm;
      k', t' := k, t;
      if parent.left == elm {
        RotateRight(parent, s, k.up, pt);
        Inner(k, t);
        p, next := elm, parent;
        k', t' := InR(k.up, t.l, elm, Red), T(t.r, parent, Red, k.r);
        Zip(Mem(s), k', t', root);
      }
      LiftRight(p, gparent, s, k', t');
      Lift(k', t');
      k' := Lifted(k');
    }

    method InsertColor(elm0: Node, ghost s: set<Node>, ghost k0: Ctx, ghost t0: Tree) returns (ghost done: Tree)
      requires At(Mem(s), k0, t0, root) && RedFocus(k0, t0) && t0.n == elm0
      modifies `root, s
      ensures At(Mem(s), Base(k0), done, root) && IsRB(done) && !IsRed(done)
      ensures Inorder(done) == Flat(k0, t0)
    {
      var elm := elm0;
      ghost var k, t := k0, t0;
      Here(Mem(s), k, t, root);
      while elm.parent != null && elm.parent.color == Red
        invariant At(Mem(s), k, t, root) && RedFocus(k, t) && t.n == elm
        invariant elm.parent == Owner(k) && (!k.Top? ==> k.n.color == k.c)
        invariant Base(k) == Base(k0) && Flat(k, t) == Flat(k0, t0)
        decreases Depth(k)
      {
        var parent := elm.parent;
        Zip(Mem(s), k, t, root);
        RedParent(k, t);
        Here(Mem(s), k, t, root);
        Here(Mem(s), k.up, Close(k, t), root);
        var gparent := parent.parent;
        if parent == gparent.left {
          elm, k, t := InsertStepLeft(elm, parent, gparent, s, k, t);
        } else {
          elm, k, t := InsertStepRight(elm, parent, gparent, s, k, t);
        }
        Here(Mem(s), k, t, root);
      }
      Finished(Mem(s), k, t, root);
      SetColor(root, Black, s, Base(k), Plug(k, t));
      done := Blacken(Plug(k, t));
    }

    // RB_SET and the link from the parent.
    method Hang(elm: Node, parent: Node?, comp: int, ghost s: set<Node>, ghost k: Ctx)
      requires At(Mem(s), k, Leaf, root) && Lo(k) < elm.key < Hi(k) && elm !in s
      requires parent == Owner(k) && (k.InL? ==> comp < 0) && (k.InR? ==> comp > 0)
      modifies `root, elm, s
      ensures At(Mem(s + {elm}), k, T(Leaf, elm, Red, Leaf), root)
    {
      ghost var m, root0 := Mem(s), root;
      Here(m, k, Leaf, root);
      elm.parent := parent;
      elm.left, elm.right := null, null;
      elm.color := Red;
      if parent != null {
        if comp < 0 {
          parent.left := elm;
        } else {
          parent.right := elm;
        }
      } else {
        root := elm;
      }
      Hung(m, Mem(s + {elm}), k, elm, root0, root);
    }

    // The search loop of RB_INSERT: stops at a node with an equal key or at an empty hole.
    method Descend(elm: Node, ghost k0: Ctx) returns (tmp: Node?, parent: Node?, comp: int, ghost k: Ctx, ghost t: Tree)
      requires At(Mem(nodes), k0, shape, root) && k0.Top? && Lo(k0) < elm.key < Hi(k0)
      ensures At(Mem(nodes), k, t, root) && tmp == Root(t) && Plug(k, t) == shape && Base(k) == k0
      ensures tmp == null ==>
        Lo(k) < elm.key < Hi(k) && parent == Owner(k) && (k.InL? ==> comp < 0) && (k.InR? ==> comp > 0)
      ensures tmp != null ==> tmp.key == elm.key
    {
      tmp, parent, comp := root, null, 0;
      k, t := k0, shape;
      while tmp != null
        invariant At(Mem(nodes), k, t, root) && tmp == Root(t) && parent == Owner(k)
        invariant Plug(k, t) == shape && Base(k) == k0
        invariant Lo(k) < elm.key < Hi(k)
        invariant (k.InL? ==> comp < 0) && (k.InR? ==> comp > 0)
        decreases t
      {
        parent := tmp;
        comp := elm.key - parent.key;
        Here(Mem(nodes), k, t, root);
        if comp < 0 {
          tmp := tmp.left;
          k, t := InL(k, t.n, t.c, t.r), t.l;
          Zip(Mem(nodes), k, t, root);
        } else if comp > 0 {
          tmp := tmp.right;
          k, t := InR(k, t.l, t.n, t.c), t.r;
          Zip(Mem(nodes), k, t, root);
        } else {
          return;
        }
      }
    }

    // Hang elm into the hole found by the search and restore the colours.
    method Attach(elm: Node, parent: Node?, comp: int, ghost s: set<Node>, ghost k: Ctx) returns (ghost done: Tree)
      requires At(Mem(s), k, Leaf, root) && Lo(k) < elm.key < Hi(k) && elm !in s && CtxRB(k, 0)
      requires parent == Owner(k) && (k.InL? ==> comp < 0) && (k.InR? ==> comp > 0)
      modifies `root, elm, s
      ensures At(Mem(s + {elm}), Base(k), done, root) && IsRB(done) && !IsRed(done)
      ensures Inorder(done) == Flat(k, T(Leaf, elm, Red, Leaf))
    {
      Hang(elm, parent, comp, s, k);
      done := InsertColor(elm, s + {elm}, k, T(Leaf, elm, Red, Leaf));
    }

    method Grow(elm: Node, parent: Node?, comp: int, ghost k: Ctx)
      requires At(Mem(nodes), k, Leaf, root) && Lo(k) < elm.key < Hi(k) && elm !in nodes
      requires CtxRB(k, 0) && nodes == Elems(Plug(k, Leaf))
      requires parent == Owner(k) && (k.InL? ==> comp < 0) && (k.InR? ==> comp > 0)
      modifies this, elm, nodes
      ensures Valid() && nodes == old(nodes) + {elm}
    {
      ghost var s, b := nodes + {elm}, Base(k);
      ghost var done := Attach(elm, parent, comp, nodes, k);
      Grown(k, elm, Red, done);
      ghost var m := Mem(s);
      nodes, shape, lo, hi := s, done, b.lo, b.hi;
      assert Mem(s) == m;
    }

    method Insert(elm: Node) returns (r: Node?)
      requires Valid()
      modifies this, elm, nodes
      ensures Valid()
      ensures r != null ==> r in nodes && r.key == elm.key
      ensures r != null ==> unchanged(this) && unchanged(elm) && unchanged(nodes)
      ensures r == null ==> nodes == old(nodes) + {elm} && forall n :: n in old(nodes) ==> n.key != elm.key
    {
      ghost var lo', hi' := if elm.key <= lo then elm.key - 1 else lo, if hi <= elm.key then elm.key + 1 else hi;
      Widen(shape, lo, hi, lo', hi');
      var tmp, parent, comp;
      ghost var k, t;
      tmp, parent, comp, k, t := Descend(elm, Top(lo', hi'));
      if tmp != null {
        FocusIn(k, t);
        return tmp;
      }
      Absent(k, elm);
      UnplugRB(k, Leaf);
      Grow(elm, parent, comp, k);
      r := null;
    }

    // RB_REMOVE_COLOR, sibling red: RB_SET_BLACKRED(tmp, parent) and a rotation about the parent.
    method RaiseSiblingLeft(parent: Node, tmp: Node, ghost s: set<Node>, ghost k: Ctx, ghost t: Tree)
      requires At(Mem(s), k, t, root) && k.InL? && k.n == parent && k.r.T? && k.r.n == tmp
      modifies `root, s
      ensures At(Mem(s), SiblingRaised(k), t, root)
    {
      ghost var k1 := CtxPaint(WithOther(k, Blacken(k.r)), Red);
      Here(Mem(s), k, t, root);
      OtherFacts(Mem(s), k, t, root);
      SetColorOther(tmp, Black, s, k, t);
      SetColorOwner(parent, Red, s, WithOther(k, Paint(k.r, Black)), t);
      Zip(Mem(s), k1, t, root);
      RotateLeft(parent, s, k.up, Close(k1, t));
      ghost var k' := SiblingRaised(k);
      Zip(Mem(s), k'.up, Close(k', t), root);
      Zip(Mem(s), k', t, root);
    }

    method RaiseSiblingRight(parent: Node, tmp: Node, ghost s: set<Node>, ghost k: Ctx, ghost t: Tree)
      requires At(Mem(s), k, t, root) && k.InR? && k.n == parent && k.l.T? && k.l.n == tmp
      modifies `root, s
      ensures At(Mem(s), SiblingRaised(k), t, root)
    {
      ghost var k1 := CtxPaint(WithOther(k, Blacken(k.l)), Red);
      Here(Mem(s), k, t, root);
      OtherFacts(Mem(s), k, t, root);
      SetColorOther(tmp, Black, s, k, t);
      SetColorOwner(parent, Red, s, WithOther(k, Paint(k.l, Black)), t);
      Zip(Mem(s), k1, t, root);
      RotateRight(parent, s, k.up, Close(k1, t));
      ghost var k' := SiblingRaised(k);
      Zip(Mem(s), k'.up, Close(k', t), root);
      Zip(Mem(s), k', t, root);
    }

    // RB_REMOVE_COLOR, near nephew red: paint it black, the sibling red, and rotate about the sibling.
    method RaiseNearLeft(tmp: Node, ghost s: set<Node>, ghost k: Ctx, ghost t: Tree)
      requires At(Mem(s), k, t, root) && k.InL? && k.r.T? && k.r.n == tmp && k.r.l.T?
      modifies `root, s
      ensures At(Mem(s), NearRaised(k), t, root)
    {
      ghost var o, w := Across(k, t), k.r;
      Crossed(Mem(s), k, t, root);
      Here(Mem(s), o, w, root);
      ghost var kw := InL(o, w.n, w.c, w.r);
      Zip(Mem(s), kw, w.l, root);
      Here(Mem(s), kw, w.l, root);
      var oleft := tmp.left;
      if oleft != null {
        SetColor(oleft, Black, s, kw, w.l);
      }
      SetColorOwner(tmp, Red, s, kw, Paint(w.l, Black));
      Zip(Mem(s), CtxPaint(kw, Red), Paint(w.l, Black), root);
      RotateRight(tmp, s, o, T(Paint(w.l, Black), tmp, Red, w.r));
      Crossed(Mem(s), o, NearRaised(k).r, root);
    }

    method RaiseNearRight(tmp: Node, ghost s: set<Node>, ghost k: Ctx, ghost t: Tree)
      requires At(Mem(s), k, t, root) && k.InR? && k.l.T? && k.l.n == tmp && k.l.r.T?
      modifies `root, s
      ensures At(Mem(s), NearRaised(k), t, root)
    {
      ghost var o, w := Across(k, t), k.l;
      Crossed(Mem(s), k, t, root);
      Here(Mem(s), o, w, root);
      ghost var kw := InR(o, w.l, w.n, w.c);
      Zip(Mem(s), kw, w.r, root);
      Here(Mem(s), kw, w.r, root);
      var oright := tmp.right;
      if oright != null {
        SetColor(oright, Black, s, kw, w.r);
      }
      SetColorOwner(tmp, Red, s, kw, Paint(w.r, Black));
      Zip(Mem(s), CtxPaint(kw, Red), Paint(w.r, Black), root);
      RotateLeft(tmp, s, o, T(w.l, tmp, Red, Paint(w.r, Black)));
      Crossed(Mem(s), o, NearRaised(k).l, root);
    }

    // RB_REMOVE_COLOR, far nephew red: the sibling takes the parent's colour and place.
    method RaiseFarLeft(parent: Node, tmp: Node, ghost s: set<Node>, ghost k: Ctx, ghost t: Tree)
      requires At(Mem(s), k, t, root) && k.InL? && k.n == parent && k.r.T? && k.r.n == tmp
      modifies `root, s
      ensures At(Mem(s), k.up, FarRaised(k, t), root)
    {
      ghost var w := k.r;
      Here(Mem(s), k, t, root);
      OtherFacts(Mem(s), k, t, root);
      SetColorOther(tmp, parent.color, s, k, t);
      ghost var w1 := Paint(w, k.c);
      ghost var k1 := WithOther(k, w1);
      SetColorOwner(parent, Black, s, k1, t);
      ghost var k2 := CtxPaint(k1, Black);
      Crossed(Mem(s), k2, t, root);
      ghost var o := Across(k2, t);
      ghost var kw := InR(o, w.l, w.n, k.c);
      Zip(Mem(s), kw, w.r, root);
      Here(Mem(s), kw, w.r, root);
      if tmp.right != null {
        SetColor(tmp.right, Black, s, kw, w.r);
      }
      Zip(Mem(s), kw, Blacken(w.r), root);
      Zip(Mem(s), o, T(w.l, w.n, k.c, Blacken(w.r)), root);
      RotateLeft(parent, s, k.up, T(t, parent, Black, T(w.l, w.n, k.c, Blacken(w.r))));
    }

    method RaiseFarRight(parent: Node, tmp: Node, ghost s: set<Node>, ghost k: Ctx, ghost t: Tree)
      requires At(Mem(s), k, t, root) && k.InR? && k.n == parent && k.l.T? && k.l.n == tmp
      modifies `root, s
      ensures At(Mem(s), k.up, FarRaised(k, t), root)
    {
      ghost var w := k.l;
      Here(Mem(s), k, t, root);
      OtherFacts(Mem(s), k, t, root);
      SetColorOther(tmp, parent.color, s, k, t);
      ghost var w1 := Paint(w, k.c);
      ghost var k1 := WithOther(k, w1);
      SetColorOwner(parent, Black, s, k1, t);
      ghost var k2 := CtxPaint(k1, Black);
      Crossed(Mem(s), k2, t, root);
      ghost var o := Across(k2, t);
      ghost var kw := InL(o, w.n, k.c, w.r);
      Zip(Mem(s), kw, w.l, root);
      Here(Mem(s), kw, w.l, root);
      if tmp.left != null {
        SetColor(tmp.left, Black, s, kw, w.l);
      }
      Zip(Mem(s), kw, Blacken(w.l), root);
      Zip(Mem(s), o, T(Blacken(w.l), w.n, k.c, w.r), root);
      RotateRight(parent, s, k.up, T(T(Blacken(w.l), w.n, k.c, w.r), parent, Black, t));
    }

    // One turn of the RB_REMOVE_COLOR loop with the focus on the left.  Either the shortage is
    // mended (stop) or it moves up to the parent.
    method RemoveStepLeft(parent: Node, ghost s: set<Node>, ghost k0: Ctx, ghost t: Tree)
      returns (stop: bool, ghost k': Ctx, ghost t': Tree)
      requires At(Mem(s), k0, t, root) && Short(k0, t) && k0.InL? && !IsRed(t) && k0.n == parent
      modifies `root, s
      ensures At(Mem(s), k', t', root) && Base(k') == Base(k0) && Flat(k', t') == Flat(k0, t) && t'.T?
      ensures stop ==> Fits(k', t')
      ensures !stop ==> Short(k', t') && t'.n == parent && (IsRed(t') || Depth(k') < Depth(k0))
    {
      ghost var k := k0;
      ShortFacts(k, t);
      Here(Mem(s), k, t, root);
      OtherFacts(Mem(s), k, t, root);
      var tmp := parent.right;
      if tmp.color == Red {
        RaiseSiblingLeft(parent, tmp, s, k, t);
        SiblingRed(k, t);
        k := SiblingRaised(k);
        ShortFacts(k, t);
        Here(Mem(s), k, t, root);
        OtherFacts(Mem(s), k, t, root);
        tmp := parent.right;
      }
      stop, k', t' := RemoveBlackLeft(parent, tmp, s, k, t);
    }

    // ... once the sibling is black.
    method RemoveBlackLeft(parent: Node, tmp0: Node, ghost s: set<Node>, ghost k0: Ctx, ghost t: Tree)
      returns (stop: bool, ghost k': Ctx, ghost t': Tree)
      requires At(Mem(s), k0, t, root) && Short(k0, t) && k0.InL? && !IsRed(t)
      requires k0.n == parent && k0.r.T? && k0.r.n == tmp0 && !IsRed(k0.r)
      modifies `root, s
      ensures At(Mem(s), k', t', root) && Base(k') == Base(k0) && Flat(k', t') == Flat(k0, t) && t'.T?
      ensures stop ==> Fits(k', t')
      ensures !stop ==> Short(k', t') && t'.n == parent && k' == k0.up && t'.c == k0.c
    {
      ghost var k := k0;
      var tmp := tmp0;
      SiblingFacts(Mem(s), k, t, root);
      if (tmp.left == null || tmp.left.color == Black) && (tmp.right == null || tmp.right.color == Black) {
        SetColorOther(tmp, Red, s, k, t);
        NephewsBlack(k, t);
        Zip(Mem(s), WithOther(k, Paint(k.r, Red)), t, root);
        return false, k.up, SiblingPainted(k, t);
      }
      if tmp.right == null || tmp.right.color == Black {
        RaiseNearLeft(tmp, s, k, t);
        NearRed(k, t);
        k := NearRaised(k);
        SiblingFacts(Mem(s), k, t, root);
        tmp := parent.right;
      }
      RaiseFarLeft(parent, tmp, s, k, t);
      FarRed(k, t);
      return true, k.up, FarRaised(k, t);
    }

    // One turn of the RB_REMOVE_COLOR loop with the focus on the right.
    method RemoveStepRight(parent: Node, ghost s: set<Node>, ghost k0: Ctx, ghost t: Tree)
      returns (stop: bool, ghost k': Ctx, ghost t': Tree)
      requires At(Mem(s), k0, t, root) && Short(k0, t) && k0.InR? && !IsRed(t) && k0.n == parent
      modifies `root, s
      ensures At(Mem(s), k', t', root) && Base(k') == Base(k0) && Flat(k', t') == Flat(k0, t) && t'.T?
      ensures stop ==> Fits(k', t')
      ensures !stop ==> Short(k', t') && t'.n == parent && (IsRed(t') || Depth(k') < Depth(k0))
    {
      ghost var k := k0;
      ShortFacts(k, t);
      Here(Mem(s), k, t, root);
      OtherFacts(Mem(s), k, t, root);
      var tmp := parent.left;
      if tmp.color == Red {
        RaiseSiblingRight(parent, tmp, s, k, t);
        SiblingRed(k, t);
        k := SiblingRaised(k);
        ShortFacts(k, t);
        Here(Mem(s), k, t, root);
        OtherFacts(Mem(s), k, t, root);
        tmp := parent.left;
      }
      stop, k', t' := RemoveBlackRight(parent, tmp, s, k, t);
    }

    // ... once the sibling is black.
    method RemoveBlackRight(parent: Node, tmp0: Node, ghost s: set<Node>, ghost k0: Ctx, ghost t: Tree)
      returns (stop: bool, ghost k': Ctx, ghost t': Tree)
      requires At(Mem(s), k0, t, root) && Short(k0, t) && k0.InR? && !IsRed(t)
      requires k0.n == parent && k0.l.T? && k0.l.n == tmp0 && !IsRed(k0.l)
      modifies `root, s
      ensures At(Mem(s), k', t', root) && Base(k') == Base(k0) && Flat(k', t') == Flat(k0, t) && t'.T?
      ensures stop ==> Fits(k', t')
      ensures !stop ==> Short(k', t') && t'.n == parent && k' == k0.up && t'.c == k0.c
    {
      ghost var k := k0;
      var tmp := tmp0;
      SiblingFacts(Mem(s), k, t, root);
      if (tmp.left == null || tmp.left.color == Black) && (tmp.right == null || tmp.right.color == Black) {
        SetColorOther(tmp, Red, s, k, t);
        NephewsBlack(k, t);
        Zip(Mem(s), WithOther(k, Paint(k.l, Red)), t, root);
        return false, k.up, SiblingPainted(k, t);
      }
      if tmp.left == null || tmp.left.color == Black {
        RaiseNearRight(tmp, s, k, t);
        NearRed(k, t);
        k := NearRaised(k);
        SiblingFacts(Mem(s), k, t, root);
        tmp := parent.left;
      }
      RaiseFarRight(parent, tmp, s, k, t);
      FarRed(k, t);
      return true, k.up, FarRaised(k, t);
    }

    // One turn of the RB_REMOVE_COLOR loop on either side.
    method RemoveTurn(parent: Node, elm: Node?, ghost s: set<Node>, ghost k: Ctx, ghost t: Tree)
      returns (stop: bool, ghost k': Ctx, ghost t': Tree)
      requires At(Mem(s), k, t, root) && Short(k, t) && !k.Top? && !IsRed(t)
      requires elm == Root(t) && parent == k.n
      modifies `root, s
      ensures At(Mem(s), k', t', root) && Base(k') == Base(k) && Flat(k', t') == Flat(k, t)
      ensures IsRB(Blacken(t')) && t'.T?
      ensures stop ==> k'.Top? && root == t'.n
      ensures !stop ==> Short(k', t') && t'.n == parent && (IsRed(t') || Depth(k') < Depth(k))
      ensures !stop ==> parent.parent == Owner(k') && parent.color == t'.c
    {
      Here(Mem(s), k, t, root);
      OtherFacts(Mem(s), k, t, root);
      ShortFacts(k, t);
      if parent.left == elm {
        stop, k', t' := RemoveStepLeft(parent, s, k, t);
      } else {
        stop, k', t' := RemoveStepRight(parent, s, k, t);
      }
      Here(Mem(s), k', t', root);
      if stop {
        Settled(Mem(s), k', t', root);
        k', t' := Base(k'), Plug(k', t');
      }
    }

    method RemoveColor(parent0: Node?, elm0: Node?, ghost s: set<Node>, ghost k0: Ctx, ghost t0: Tree)
      returns (ghost done: Tree)
      requires At(Mem(s), k0, t0, root) && Short(k0, t0)
      requires elm0 == Root(t0) && parent0 == Owner(k0)
      modifies `root, s
      ensures At(Mem(s), Base(k0), done, root) && IsRB(done) && !IsRed(done)
      ensures Inorder(done) == Flat(k0, t0)
    {
      var parent, elm := parent0, elm0;
      ghost var k, t := k0, t0;
      Here(Mem(s), k, t, root);
      while (elm == null || elm.color == Black) && elm != root
        invariant At(Mem(s), k, t, root) && Base(k) == Base(k0) && Flat(k, t) == Flat(k0, t0)
        invariant Short(k, t) && elm == Root(t) && parent == Owner(k)
        invariant elm != null ==> elm.color == t.c
        invariant k.Top? ==> root == elm
        decreases if IsRed(t) then 0 else 1 + Depth(k)
      {
        var stop;
        stop, k, t := RemoveTurn(parent, elm, s, k, t);
        if stop {
          elm := root;
          break;
        }
        elm := parent;
        parent := elm.parent;
        Here(Mem(s), k, t, root);
      }
      if !k.Top? {
        Here(Mem(s), k, t, root);
        RootAbove(Mem(s), k, Root(t), root);
      }
      if elm != null {
        SetColor(elm, Black, s, k, t);
      }
      Mended(Mem(s), k, t, root);
      done := Plug(k, Blacken(t));
    }

    // Bypass a node that has at most one child.
    method Unlink(elm: Node, child: Node?, parent: Node?, ghost s: set<Node>, ghost k: Ctx, ghost t: Tree,
            ghost c: Tree)
      requires At(Mem(s), k, t, root) && t.T? && t.n == elm
      requires (t.l.Leaf? && c == t.r) || (t.r.Leaf? && c == t.l)
      requires child == Root(c) && parent == Owner(k)
      modifies `root, s - {elm}
      ensures At(Mem(s), k, c, root)
    {
      ghost var m, root0 := Mem(s), root;
      Here(m, k, t, root);
      assert Wired(m, c, elm);
      if child != null {
        child.parent := parent;
      }
      Replace(parent, elm, child, k);
      Bypassed(m, Mem(s), k, t, c, root0, root);
    }

    // The successor takes over the fields and the place of old.
    method TransplantLinks(before: Node, elm: Node, ghost l: Node, ghost r: Node?, ghost k: Ctx)
      requires before.left == l && before.right == r && before.parent == Owner(k)
      requires before != elm && l != before && l != elm && r != before && r != elm && l != r
      requires !k.Top? ==> k.n != before && k.n != elm && k.n != l && k.n != r
      requires k.InL? ==> k.n.left == before
      requires k.InR? ==> k.n.left != before
      modifies `root, elm, l, if r == null then {} else {r}, if k.Top? then {} else {k.n}
      ensures root == if k.Top? then elm else old(root)
      ensures elm.left == l && elm.right == r && elm.parent == Owner(k) && elm.color == before.color
      ensures l.left == old(l.left) && l.right == old(l.right) && l.parent == elm && l.color == old(l.color)
      ensures r != null ==>
        r.left == old(r.left) && r.right == old(r.right) && r.parent == elm && r.color == old(r.color)
      ensures k.InL? ==> k.n.left == elm && k.n.right == old(k.n.right)
      ensures k.InR? ==> k.n.left == old(k.n.left) && k.n.right == elm
      ensures !k.Top? ==> k.n.parent == old(k.n.parent) && k.n.color == old(k.n.color)
    {
      elm.left, elm.right, elm.parent, elm.color := before.left, before.right, before.parent, before.color;
      Replace(before.parent, before, elm, k);
      before.left.parent := elm;
      if before.right != null {
        before.right.parent := elm;
      }
    }

    method Transplant(before: Node, elm: Node, ghost s: set<Node>, ghost k: Ctx, ghost t: Tree)
      requires At(Mem(s), k, t, root) && t.T? && t.l.T? && t.n == before && elm in s
      requires before.key < elm.key < Hi(k) && Between(t.r, elm.key, Hi(k))
      modifies `root, s - {before}
      ensures At(Mem(s), k, T(t.l, elm, t.c, t.r), root)
    {
      ghost var m, root0 := Mem(s), root;
      Here(m, k, t, root);
      ChildFacts(m, t.l, before, Lo(k), before.key);
      ChildFacts(m, t.r, before, elm.key, Hi(k));
      TransplantLinks(before, elm, t.l.n, Root(t.r), k);
      Transplanted(m, Mem(s), k, t, elm, root0, root);
    }

    // The leftmost node of the right subtree.
    method Successor(before: Node, ghost s: set<Node>, ghost k: Ctx, ghost t: Tree)
      returns (elm: Node, ghost chain: Ctx, ghost sub: Tree)
      requires At(Mem(s), k, t, root) && t.T? && t.n == before && t.r.T?
      ensures At(Mem(s), Graft(chain, InR(k, t.l, before, t.c)), sub, root) && sub.T? && sub.n == elm && sub.l.Leaf?
      ensures Plug(chain, sub) == t.r && Leftmost(chain) && Base(chain) == Top(before.key, Hi(k))
    {
      ghost var k1 := InR(k, t.l, before, t.c);
      chain, sub := Top(before.key, Hi(k)), t.r;
      Here(Mem(s), k, t, root);
      Zip(Mem(s), k1, t.r, root);
      elm := before.right;
      Here(Mem(s), k1, t.r, root);
      var left := elm.left;
      while left != null
        invariant At(Mem(s), Graft(chain, k1), sub, root) && sub.T? && sub.n == elm && left == Root(sub.l)
        invariant Plug(chain, sub) == t.r && Leftmost(chain) && Base(chain) == Top(before.key, Hi(k))
        decreases sub
      {
        elm := left;
        chain, sub := InL(chain, sub.n, sub.c, sub.r), sub.l;
        Zip(Mem(s), Graft(chain, k1), sub, root);
        Here(Mem(s), Graft(chain, k1), sub, root);
        left := elm.left;
      }
    }

    // The two-child case of RB_REMOVE: unhook the successor and put it in the place of before.
    method SpliceSuccessor(before: Node, ghost s: set<Node>, ghost k: Ctx, ghost t: Tree)
      returns (parent: Node, child: Node?, color: Color, ghost k': Ctx, ghost c: Tree, ghost a: seq<Node>,
               ghost b: seq<Node>)
      requires At(Mem(s), k, t, root) && t.T? && t.n == before && t.l.T? && t.r.T?
      requires IsRB(Plug(k, t)) && !IsRed(Plug(k, t))
      modifies `root, s
      ensures At(Mem(s), k', c, root) && parent == Owner(k') && child == Root(c)
      ensures Mendable(k', c, color) && Base(k') == Base(k)
      ensures Flat(k, t) == a + [before] + b && Flat(k', c) == a + b
    {
      var elm;
      ghost var chain, sub;
      elm, chain, sub := Successor(before, s, k, t);
      ghost var k1 := InR(k, t.l, before, t.c);
      ghost var kk, r' := Graft(chain, k1), Plug(chain, sub.r);
      Here(Mem(s), kk, sub, root);
      child := elm.right;
      parent := elm.parent;
      color := elm.color;
      c := sub.r;
      Unlink(elm, child, parent, s, kk, sub, c);
      if elm.parent == before {
        parent := elm;
      }
      GraftClosed(Mem(s), chain, k1, c, root);
      SuccessorFirst(chain, sub);
      SplicedKeys(t.r, elm, r', before.key, Hi(k), Hi(k));
      Zip(Mem(s), k1, r', root);
      Transplant(before, elm, s, k, T(t.l, before, t.c, r'));
      ghost var k2 := InR(k, t.l, elm, t.c);
      Zip(Mem(s), k2, r', root);
      k' := Graft(chain, k2);
      GraftOpened(Mem(s), chain, k2, c, root);
      SplicedRB(k, t, chain, sub);
      GraftFlat(chain, k2, c);
      a, b := SplicedFlat(k, t, elm, r');
    }

    // RB_REMOVE up to its colour label.
    method TakeOut(elm: Node, ghost s: set<Node>, ghost k: Ctx, ghost t: Tree)
      returns (parent: Node?, child: Node?, color: Color, ghost k': Ctx, ghost c: Tree, ghost a: seq<Node>,
               ghost b: seq<Node>)
      requires At(Mem(s), k, t, root) && t.T? && t.n == elm
      requires IsRB(Plug(k, t)) && !IsRed(Plug(k, t))
      modifies `root, s
      ensures At(Mem(s), k', c, root) && parent == Owner(k') && child == Root(c)
      ensures Mendable(k', c, color) && Base(k') == Base(k)
      ensures Flat(k, t) == a + [elm] + b && Flat(k', c) == a + b
    {
      Here(Mem(s), k, t, root);
      if elm.left == null {
        child := elm.right;
        c := t.r;
      } else if elm.right == null {
        child := elm.left;
        c := t.l;
      } else {
        parent, child, color, k', c, a, b := SpliceSuccessor(elm, s, k, t);
        return;
      }
      parent := elm.parent;
      color := elm.color;
      Unlink(elm, child, parent, s, k, t, c);
      UnplugRB(k, t);
      BypassedRB(k, t, c);
      a, b := BypassedFlat(k, t, c);
      k' := k;
    }

    // RB_REMOVE on the level of the ghost tree.
    method Delete(elm: Node, ghost s: set<Node>, ghost k: Ctx, ghost t: Tree) returns (ghost done: Tree)
      requires At(Mem(s), k, t, root) && t.T? && t.n == elm
      requires IsRB(Plug(k, t)) && !IsRed(Plug(k, t))
      modifies `root, s
      ensures At(Mem(s), Base(k), done, root) && IsRB(done) && !IsRed(done)
      ensures Elems(done) == Elems(Plug(k, t)) - {elm}
    {
      PlugAt(Mem(s), k, t, root);
      PlugFlat(k, t);
      var parent, child, color;
      ghost var k', c, a, b;
      parent, child, color, k', c, a, b := TakeOut(elm, s, k, t);
      if color == Black {
        done := RemoveColor(parent, child, s, k', c);
      } else {
        PlugAt(Mem(s), k', c, root);
        PlugRB(k', c);
        PlugFlat(k', c);
        done := Plug(k', c);
      }
      Shrunk(Plug(k, t), done, elm, a, b, Lo(Base(k)), Hi(Base(k)));
    }

    method Remove(elm: Node) returns (r: Node)
      requires Valid() && elm in nodes
      modifies this, nodes
      ensures Valid()
      ensures r == elm && nodes == old(nodes) - {elm}
    {
      ghost var k, t := Locate(Top(lo, hi), shape, elm);
      UnplugAt(Mem(nodes), k, t, root);
      ghost var done := Delete(elm, nodes, k, t);
      ghost var m := Mem(nodes);
      Forgotten(m, done, null, elm);
      nodes, shape := nodes - {elm}, done;
      assert Mem(nodes) == m - {elm};
      r := elm;
    }
  }
}
