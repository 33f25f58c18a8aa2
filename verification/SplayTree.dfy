// The top-down splay tree of tree.h, in place.
module SplayTree {
  import opened SplayShape

  function Succ(s: seq<Node>, i: nat): Node?
    requires i < |s|
  {
    if i + 1 < |s| then s[i + 1] else null
  }

  // r follows x in s.
  ghost predicate Follows(s: seq<Node>, x: Node, r: Node?) {
    forall i {:trigger Succ(s, i)} :: 0 <= i < |s| && s[i] == x ==> r == Succ(s, i)
  }

  class Head {
    var root: Node?
    ghost var nodes: set<Node>
    ghost var shape: Tree
    ghost var lo: int
    ghost var hi: int

    // SPLAY_INIT
    constructor ()
      ensures Valid() && nodes == {}
    {
      root := null;
      nodes, shape, lo, hi := {}, Leaf, 0, 0;
    }

    ghost predicate Valid()
      reads this, nodes
    {
      && Wired(Mem(nodes), shape) && Between(shape, lo, hi) && root == Root(shape)
      && nodes == Elems(shape)
    }

    method RotateRight(tmp: Node, dummy: Node, ghost s: set<Node>, ghost p: Left, ghost t: Tree, ghost q: Right,
            ghost lo: int, ghost hi: int)
      requires dummy !in s && Parts(Mem(s), p, t, q, dummy.right, dummy.left, lo, hi) && t.T? && root == t.n
      requires t.l.T? && tmp == t.l.n
      modifies `root, s
      ensures root == tmp && tmp.left == Root(t.l.l)
      ensures var d := T(t.l.l, tmp, T(t.l.r, t.n, t.r));
              Parts(Mem(s), p, d, q, dummy.right, dummy.left, lo, hi) && PartsOrder(p, d, q) == PartsOrder(p, t, q)
    {
      ghost var m, first, last := Mem(s), dummy.right, dummy.left;
      assert Wired(m, t.l) && Between(t.l, Floor(p, lo), t.n.key);
      root.left := tmp.right;
      tmp.right := root;
      root := tmp;
      TurnedRight(m, Mem(s), t, Floor(p, lo), Ceiling(q, hi));
      MiddleReplaced(m, Mem(s), p, t, T(t.l.l, tmp, T(t.l.r, t.n, t.r)), q, first, last, lo, hi);
    }

    method RotateLeft(tmp: Node, dummy: Node, ghost s: set<Node>, ghost p: Left, ghost t: Tree, ghost q: Right,
            ghost lo: int, ghost hi: int)
      requires dummy !in s && Parts(Mem(s), p, t, q, dummy.right, dummy.left, lo, hi) && t.T? && root == t.n
      requires t.r.T? && tmp == t.r.n
      modifies `root, s
      ensures root == tmp && tmp.right == Root(t.r.r)
      ensures var d := T(T(t.l, t.n, t.r.l), tmp, t.r.r);
              Parts(Mem(s), p, d, q, dummy.right, dummy.left, lo, hi) && PartsOrder(p, d, q) == PartsOrder(p, t, q)
    {
      ghost var m, first, last := Mem(s), dummy.right, dummy.left;
      assert Wired(m, t.r) && Between(t.r, t.n.key, Ceiling(q, hi));
      root.right := tmp.left;
      tmp.left := root;
      root := tmp;
      TurnedLeft(m, Mem(s), t, Floor(p, lo), Ceiling(q, hi));
      MiddleReplaced(m, Mem(s), p, t, T(T(t.l, t.n, t.r.l), tmp, t.r.r), q, first, last, lo, hi);
    }

    method LinkLeft(right: Node, dummy: Node, ghost s: set<Node>, ghost p: Left, ghost t: Tree, ghost q: Right,
            ghost lo: int, ghost hi: int)
      returns (right': Node)
      requires dummy !in s && Parts(Mem(s), p, t, q, dummy.right, dummy.left, lo, hi) && t.T? && root == t.n
      requires right == if q.NoRight? then dummy else q.n
      modifies `root, right
      ensures right' == t.n && root == Root(t.l) && dummy.right == old(dummy.right)
      ensures Parts(Mem(s), p, t.l, Greater(q, t.n, t.r), dummy.right, dummy.left, lo, hi)
      ensures PartsOrder(p, t.l, Greater(q, t.n, t.r)) == PartsOrder(p, t, q)
    {
      ghost var m, last := Mem(s), dummy.left;
      right.left := root;
      right' := root;
      root := root.left;
      LinkedLeft(m, Mem(s), p, t, q, dummy.right, last, dummy.left, lo, hi);
    }

    method LinkRight(left: Node, dummy: Node, ghost s: set<Node>, ghost p: Left, ghost t: Tree, ghost q: Right,
            ghost lo: int, ghost hi: int)
      returns (left': Node)
      requires dummy !in s && Parts(Mem(s), p, t, q, dummy.right, dummy.left, lo, hi) && t.T? && root == t.n
      requires left == if p.NoLeft? then dummy else p.n
      modifies `root, left
      ensures left' == t.n && root == Root(t.r) && dummy.left == old(dummy.left)
      ensures Parts(Mem(s), Less(p, t.l, t.n), t.r, q, dummy.right, dummy.left, lo, hi)
      ensures PartsOrder(Less(p, t.l, t.n), t.r, q) == PartsOrder(p, t, q)
    {
      ghost var m, first := Mem(s), dummy.right;
      left.right := root;
      left' := root;
      root := root.right;
      LinkedRight(m, Mem(s), p, t, q, first, dummy.right, dummy.left, lo, hi);
    }

    // One turn of SPLAY_MINMAX towards the minimum.
    method MinTurn(right: Node, dummy: Node, ghost s: set<Node>, ghost p: Left, ghost t: Tree, ghost q: Right,
            ghost lo: int, ghost hi: int)
      returns (stop: bool, right': Node, ghost q': Right, ghost t': Tree)
      requires dummy !in s && Parts(Mem(s), p, t, q, dummy.right, dummy.left, lo, hi) && t.T? && root == t.n
      requires right == (if q.NoRight? then dummy else q.n)
      modifies `root, s, dummy
      ensures Parts(Mem(s), p, t', q', dummy.right, dummy.left, lo, hi) && PartsOrder(p, t', q') == PartsOrder(p, t, q)
      ensures t'.T? && root == t'.n && right' == (if q'.NoRight? then dummy else q'.n)
      ensures if stop then t'.l.Leaf? else t' < t
    {
      var tmp := root.left;
      right', q', t' := right, q, t;
      if tmp == null {
        stop := true;
        return;
      }
      t' := T(t.l.l, tmp, T(t.l.r, t.n, t.r));
      RotateRight(tmp, dummy, s, p, t, q, lo, hi);
      if root.left == null {
        stop := true;
        return;
      }
      right' := LinkLeft(right, dummy, s, p, t', q, lo, hi);
      q', t' := Greater(q, t'.n, t'.r), t'.l;
      stop := false;
    }

    // ... and towards the maximum.
    method MaxTurn(left: Node, dummy: Node, ghost s: set<Node>, ghost p: Left, ghost t: Tree, ghost q: Right,
            ghost lo: int, ghost hi: int)
      returns (stop: bool, left': Node, ghost p': Left, ghost t': Tree)
      requires dummy !in s && Parts(Mem(s), p, t, q, dummy.right, dummy.left, lo, hi) && t.T? && root == t.n
      requires left == (if p.NoLeft? then dummy else p.n)
      modifies `root, s, dummy
      ensures Parts(Mem(s), p', t', q, dummy.right, dummy.left, lo, hi) && PartsOrder(p', t', q) == PartsOrder(p, t, q)
      ensures t'.T? && root == t'.n && left' == (if p'.NoLeft? then dummy else p'.n)
      ensures if stop then t'.r.Leaf? else t' < t
    {
      var tmp := root.right;
      left', p', t' := left, p, t;
      if tmp == null {
        stop := true;
        return;
      }
      t' := T(T(t.l, t.n, t.r.l), tmp, t.r.r);
      RotateLeft(tmp, dummy, s, p, t, q, lo, hi);
      if root.right == null {
        stop := true;
        return;
      }
      left' := LinkRight(left, dummy, s, p, t', q, lo, hi);
      p', t' := Less(p, t'.l, t'.n), t'.r;
      stop := false;
    }

    method Assemble(dummy: Node, left: Node, right: Node, ghost s: set<Node>, ghost p: Left, ghost t: Tree,
            ghost q: Right, ghost lo: int, ghost hi: int, ghost key: int)
      requires dummy !in s && Parts(Mem(s), p, t, q, dummy.right, dummy.left, lo, hi)
      requires Split(p, t, q, key) && root == t.n
      requires left == if p.NoLeft? then dummy else p.n
      requires right == if q.NoRight? then dummy else q.n
      requires lo < key < hi
      modifies dummy, s
      ensures var d := Assembled(p, t, q);
              Wired(Mem(s), d) && Between(d, lo, hi) && Inorder(d) == PartsOrder(p, t, q)
      ensures var d := Assembled(p, t, q); Between(d.l, lo, key) && Between(d.r, key, hi)
    {
      ghost var m, first, last := Mem(s), dummy.right, dummy.left;
      LeftFloor(p, lo);
      RightCeiling(q, hi);
      left.right := root.left;
      right.left := root.right;
      root.left := dummy.right;
      root.right := dummy.left;
      SplayShape.Assemble(m, Mem(s), p, t, q, first, last, dummy.right, dummy.left, lo, hi, key);
    }

    // The rotation before a link, when two steps go the same way.
    method ZigLeft(key: int, tmp: Node, dummy: Node, ghost s: set<Node>, ghost p: Left, ghost t: Tree,
            ghost q: Right, ghost lo: int, ghost hi: int)
      returns (stop: bool, ghost t': Tree)
      requires dummy !in s && Parts(Mem(s), p, t, q, dummy.right, dummy.left, lo, hi) && t.T? && root == t.n
      requires key < root.key && t.l.T? && tmp == t.l.n
      modifies `root, s
      ensures Parts(Mem(s), p, t', q, dummy.right, dummy.left, lo, hi) && PartsOrder(p, t', q) == PartsOrder(p, t, q)
      ensures t'.T? && root == t'.n && key < root.key && (stop <==> t'.l.Leaf?)
      ensures !stop ==> t'.l < t
    {
      stop, t' := false, t;
      if key < tmp.key {
        t' := T(t.l.l, tmp, T(t.l.r, t.n, t.r));
        RotateRight(tmp, dummy, s, p, t, q, lo, hi);
        stop := root.left == null;
      }
    }

    method ZigRight(key: int, tmp: Node, dummy: Node, ghost s: set<Node>, ghost p: Left, ghost t: Tree,
            ghost q: Right, ghost lo: int, ghost hi: int)
      returns (stop: bool, ghost t': Tree)
      requires dummy !in s && Parts(Mem(s), p, t, q, dummy.right, dummy.left, lo, hi) && t.T? && root == t.n
      requires root.key < key && t.r.T? && tmp == t.r.n
      modifies `root, s
      ensures Parts(Mem(s), p, t', q, dummy.right, dummy.left, lo, hi) && PartsOrder(p, t', q) == PartsOrder(p, t, q)
      ensures t'.T? && root == t'.n && root.key < key && (stop <==> t'.r.Leaf?)
      ensures !stop ==> t'.r < t
    {
      stop, t' := false, t;
      if tmp.key < key {
        t' := T(T(t.l, t.n, t.r.l), tmp, t.r.r);
        RotateLeft(tmp, dummy, s, p, t, q, lo, hi);
        stop := root.right == null;
      }
    }

    // One turn of the SPLAY loop that goes left: zig or zig-zig.  It stops at a node without a left child.
    method StepLeft(key: int, right: Node, dummy: Node, ghost s: set<Node>, ghost p: Left, ghost t: Tree,
            ghost q: Right, ghost lo: int, ghost hi: int)
      returns (stop: bool, right': Node, ghost q': Right, ghost t': Tree)
      requires dummy !in s && Parts(Mem(s), p, t, q, dummy.right, dummy.left, lo, hi) && t.T? && root == t.n
      requires key < root.key && right == (if q.NoRight? then dummy else q.n) && (q.Greater? ==> key < q.n.key)
      modifies `root, s, dummy
      ensures Parts(Mem(s), p, t', q', dummy.right, dummy.left, lo, hi) && PartsOrder(p, t', q') == PartsOrder(p, t, q)
      ensures t'.T? && root == t'.n && right' == (if q'.NoRight? then dummy else q'.n)
              && (q'.Greater? ==> key < q'.n.key)
      ensures stop ==> key < t'.n.key && t'.l.Leaf?
      ensures !stop ==> t' < t
    {
      var tmp := root.left;
      right', q', t' := right, q, t;
      if tmp == null {
        stop := true;
        return;
      }
      stop, t' := ZigLeft(key, tmp, dummy, s, p, t, q, lo, hi);
      if stop {
        return;
      }
      right' := LinkLeft(right, dummy, s, p, t', q, lo, hi);
      q', t' := Greater(q, t'.n, t'.r), t'.l;
    }

    // ... and one that goes right.
    method StepRight(key: int, left: Node, dummy: Node, ghost s: set<Node>, ghost p: Left, ghost t: Tree,
            ghost q: Right, ghost lo: int, ghost hi: int)
      returns (stop: bool, left': Node, ghost p': Left, ghost t': Tree)
      requires dummy !in s && Parts(Mem(s), p, t, q, dummy.right, dummy.left, lo, hi) && t.T? && root == t.n
      requires root.key < key && left == (if p.NoLeft? then dummy else p.n) && (p.Less? ==> p.n.key < key)
      modifies `root, s, dummy
      ensures Parts(Mem(s), p', t', q, dummy.right, dummy.left, lo, hi) && PartsOrder(p', t', q) == PartsOrder(p, t, q)
      ensures t'.T? && root == t'.n && left' == (if p'.NoLeft? then dummy else p'.n) && (p'.Less? ==> p'.n.key < key)
      ensures stop ==> t'.n.key < key && t'.r.Leaf?
      ensures !stop ==> t' < t
    {
      var tmp := root.right;
      left', p', t' := left, p, t;
      if tmp == null {
        stop := true;
        return;
      }
      stop, t' := ZigRight(key, tmp, dummy, s, p, t, q, lo, hi);
      if stop {
        return;
      }
      left' := LinkRight(left, dummy, s, p, t', q, lo, hi);
      p', t' := Less(p, t'.l, t'.n), t'.r;
    }

    // Bring the node with the given key, or one next to where it would be, to the root.
    method Splay(key: int, ghost s: set<Node>, ghost t0: Tree, ghost lo: int, ghost hi: int) returns (ghost d: Tree)
      requires Wired(Mem(s), t0) && Between(t0, lo, hi) && t0.T? && root == t0.n && lo < key < hi
      modifies `root, s
      ensures Wired(Mem(s), d) && Between(d, lo, hi) && d.T? && root == d.n
      ensures Inorder(d) == Inorder(t0)
      ensures Between(d.l, lo, key) && Between(d.r, key, hi)
    {
      var dummy := new Node(0);
      var left, right := dummy, dummy;
      ghost var p, t, q := NoLeft, t0, NoRight;
      while key != root.key
        invariant fresh(dummy) && t.T? && root == t.n
        invariant Parts(Mem(s), p, t, q, dummy.right, dummy.left, lo, hi)
        invariant PartsOrder(p, t, q) == Inorder(t0)
        invariant left == if p.NoLeft? then dummy else p.n
        invariant right == if q.NoRight? then dummy else q.n
        invariant (p.Less? ==> p.n.key < key) && (q.Greater? ==> key < q.n.key)
        modifies `root, s, dummy
        decreases t
      {
        var stop;
        if key < root.key {
          stop, right, q, t := StepLeft(key, right, dummy, s, p, t, q, lo, hi);
        } else {
          stop, left, p, t := StepRight(key, left, dummy, s, p, t, q, lo, hi);
        }
        if stop {
          break;
        }
      }
      Assemble(dummy, left, right, s, p, t, q, lo, hi, key);
      d := Assembled(p, t, q);
    }

    // SPLAY on the whole tree: the sorted sequence stays, and key is split at the root.
    method SplayAll(key: int)
      requires Valid() && root != null
      modifies this, nodes
      ensures Valid() && root != null && nodes == old(nodes)
      ensures Inorder(shape) == old(Inorder(shape))
      ensures lo < key < hi && Between(shape.l, lo, key) && Between(shape.r, key, hi)
    {
      ghost var lo', hi' := if key <= lo then key - 1 else lo, if hi <= key then key + 1 else hi;
      Widen(shape, lo, hi, lo', hi');
      ghost var d := Splay(key, nodes, shape, lo', hi');
      ElemsInorder(shape);
      ElemsInorder(d);
      assert nodes == Elems(d);
      ghost var m := Mem(nodes);
      shape, lo, hi := d, lo', hi';
      assert Mem(nodes) == m;
    }

    // The node with an equal key if there is one, otherwise the tree gains elm.
    method Insert(elm: Node) returns (r: Node?)
      requires Valid()
      modifies this, elm, nodes
      ensures Valid()
      ensures r != null ==>
        r in nodes && r.key == elm.key && nodes == old(nodes) && Inorder(shape) == old(Inorder(shape))
      ensures r == null ==> nodes == old(nodes) + {elm} && root == elm
      ensures r == null ==> forall n :: n in old(nodes) ==> n.key != elm.key
    {
      if root == null {
        elm.left, elm.right := null, null;
        root := elm;
        nodes, shape, lo, hi := {elm}, T(Leaf, elm, Leaf), elm.key - 1, elm.key + 1;
        return null;
      }
      SplayAll(elm.key);
      if elm.key == root.key {
        return root;
      }
      HangAtRoot(elm);
      r := null;
    }

    method HangAtRoot(elm: Node)
      requires Valid() && root != null && root.key != elm.key
      requires lo < elm.key < hi && Between(shape.l, lo, elm.key) && Between(shape.r, elm.key, hi)
      modifies this, elm, nodes
      ensures Valid() && nodes == old(nodes) + {elm} && root == elm && forall n :: n in old(nodes) ==> n.key != elm.key
    {
      ghost var m, d := Mem(nodes), shape;
      ElemsKeys(d.l, lo, elm.key);
      ElemsKeys(d.r, elm.key, hi);
      if elm.key < root.key {
        elm.left := root.left;
        elm.right := root;
        root.left := null;
        shape := T(d.l, elm, T(Leaf, d.n, d.r));
      } else {
        elm.right := root.right;
        elm.left := root;
        root.right := null;
        shape := T(T(d.l, d.n, Leaf), elm, d.r);
      }
      nodes := nodes + {elm};
      root := elm;
      Hung(m, Mem(nodes), d, elm, lo, hi);
    }

    // Removal by key: on success elm is returned, whether or not it is the node taken out.
    method Remove(elm: Node) returns (r: Node?)
      requires Valid()
      modifies this, nodes
      ensures Valid()
      ensures r == null ==> nodes == old(nodes) && forall n :: n in nodes ==> n.key != elm.key
      ensures r != null ==> r == elm
      ensures r != null ==> exists x :: x in old(nodes) && x.key == elm.key && nodes == old(nodes) - {x}
    {
      if root == null {
        return null;
      }
      SplayAll(elm.key);
      ElemsKeys(shape.l, lo, elm.key);
      ElemsKeys(shape.r, elm.key, hi);
      if elm.key != root.key {
        return null;
      }
      RemoveRoot(elm.key);
      r := elm;
    }

    method RemoveRoot(key: int)
      requires Valid() && root != null && root.key == key
      modifies this, nodes
      ensures Valid() && nodes == old(nodes) - {old(root)}
    {
      ghost var d := DropRoot(key, nodes, shape, lo, hi);
      ghost var m, x := Mem(nodes), shape.n;
      WiredOn(m, m - {x}, d);
      nodes, shape := nodes - {x}, d;
      assert Mem(nodes) == m - {x};
    }

    // Join the two subtrees of the root: the greatest node below it comes up.
    method DropRoot(key: int, ghost s: set<Node>, ghost d: Tree, ghost lo: int, ghost hi: int) returns (ghost e: Tree)
      requires Wired(Mem(s), d) && Between(d, lo, hi) && d.T? && root == d.n && d.n.key == key
      modifies `root, s
      ensures Wired(Mem(s), e) && Between(e, lo, hi) && root == Root(e) && Elems(e) == Elems(d) - {d.n}
    {
      if root.left == null {
        ElemsKeys(d.r, key, hi);
        root := root.right;
        Widen(d.r, key, hi, lo, hi);
        return d.r;
      }
      ghost var m, low := Mem(s), Elems(d.l);
      WiredElems(m, d.l);
      ElemsKeys(d.l, lo, key);
      var tmp := root.right;
      root := root.left;
      ghost var f := SplayLow(key, low, m, d.l, lo, hi);
      ghost var m1 := Mem(low);
      root.right := tmp;
      Joined(m, m1, Mem(s), d, f, lo, key, hi);
      e := T(f.l, f.n, d.r);
    }

    // The second splay of SPLAY_REMOVE, on a subtree whose keys are all below key.
    method SplayLow(key: int, ghost low: set<Node>, ghost m: Memory, ghost t: Tree, ghost lo: int,
            ghost hi: int) returns (ghost f: Tree)
      requires low == Elems(t) && Wired(m, t) && (forall n :: n in low ==> n in m && Mem(low)[n] == m[n])
      requires Between(t, lo, key) && t.T? && root == t.n && lo < key < hi
      modifies `root, low
      ensures Wired(Mem(low), f) && Between(f, lo, hi) && f.T? && f.r.Leaf? && root == f.n
      ensures Elems(f) == low && f.n.key < key
    {
      WiredOn(m, Mem(low), t);
      Widen(t, lo, key, lo, hi);
      f := Splay(key, low, t, lo, hi);
      NothingAbove(f, t, lo, key, hi);
    }

    method Find(key: int) returns (r: Node?)
      requires Valid()
      modifies this, nodes
      ensures Valid() && nodes == old(nodes) && Inorder(shape) == old(Inorder(shape))
      ensures r != null ==> r in nodes && r.key == key && r == root
      ensures r == null ==> forall n :: n in nodes ==> n.key != key
    {
      if root == null {
        return null;
      }
      SplayAll(key);
      ElemsKeys(shape.l, lo, key);
      ElemsKeys(shape.r, key, hi);
      r := if key == root.key then root else null;
    }

    // The node after elm in the order of keys.
    method Next(elm: Node) returns (r: Node?)
      requires Valid() && elm in nodes
      modifies this, nodes
      ensures Valid() && nodes == old(nodes) && Inorder(shape) == old(Inorder(shape))
      ensures Follows(Inorder(shape), elm, r)
    {
      SplayAll(elm.key);
      ElemsKeys(shape.l, lo, elm.key);
      ElemsKeys(shape.r, elm.key, hi);
      AfterRoot(shape, lo, hi);
      r := elm.right;
      if r != null {
        ghost var t := shape.r;
        while r.left != null
          invariant Wired(Mem(nodes), t) && t.T? && t.n == r && r in nodes && r.left == Root(t.l)
          invariant Inorder(t)[0] == Inorder(shape.r)[0]
          modifies {}
          decreases t
        {
          r := r.left;
          t := t.l;
          RootPlace(t);
        }
      }
    }

    method EndTurn(comp: int, left: Node, right: Node, dummy: Node, ghost s: set<Node>, ghost p: Left, ghost t: Tree,
            ghost q: Right, ghost lo: int, ghost hi: int)
      returns (stop: bool, left': Node, right': Node, ghost p': Left, ghost t': Tree, ghost q': Right)
      requires dummy !in s && Parts(Mem(s), p, t, q, dummy.right, dummy.left, lo, hi) && t.T? && root == t.n
      requires left == if p.NoLeft? then dummy else p.n
      requires right == if q.NoRight? then dummy else q.n
      requires if comp < 0 then p.NoLeft? else q.NoRight?
      modifies `root, s, dummy
      ensures Parts(Mem(s), p', t', q', dummy.right, dummy.left, lo, hi) && t'.T? && root == t'.n
      ensures PartsOrder(p', t', q') == PartsOrder(p, t, q)
      ensures left' == if p'.NoLeft? then dummy else p'.n
      ensures right' == if q'.NoRight? then dummy else q'.n
      ensures if comp < 0 then p'.NoLeft? && (stop ==> t'.l.Leaf?) else q'.NoRight? && (stop ==> t'.r.Leaf?)
      ensures !stop ==> t' < t
    {
      left', right', p', q' := left, right, p, q;
      if comp < 0 {
        stop, right', q', t' := MinTurn(right, dummy, s, p, t, q, lo, hi);
      } else {
        stop, left', p', t' := MaxTurn(left, dummy, s, p, t, q, lo, hi);
      }
    }

    method AssembleEnd(dummy: Node, left: Node, right: Node, ghost s: set<Node>, ghost p: Left, ghost t: Tree,
            ghost q: Right, ghost d0: Tree, ghost lo: int, ghost hi: int, ghost min: bool)
      requires dummy !in s && Parts(Mem(s), p, t, q, dummy.right, dummy.left, lo - 1, hi + 1) && t.T? && root == t.n
      requires left == if p.NoLeft? then dummy else p.n
      requires right == if q.NoRight? then dummy else q.n
      requires Between(d0, lo, hi) && PartsOrder(p, t, q) == Inorder(d0) && lo < hi
      requires if min then p.NoLeft? && t.l.Leaf? else q.NoRight? && t.r.Leaf?
      modifies dummy, s
      ensures var d := Assembled(p, t, q); Wired(Mem(s), d) && Between(d, lo - 1, hi + 1) && Inorder(d) == Inorder(d0)
      ensures var d := Assembled(p, t, q); var key := if min then lo else hi;
              Between(d.l, lo - 1, key) && Between(d.r, key, hi + 1)
    {
      Extreme(p, t, q, d0, lo, hi, min);
      Assemble(dummy, left, right, s, p, t, q, lo - 1, hi + 1, if min then lo else hi);
    }

    // SPLAY_MINMAX; comp is -1 or 1, with 0 the loop of the source never ends.
    method SplayMinMax(comp: int, ghost s: set<Node>, ghost d0: Tree, ghost lo: int, ghost hi: int)
      returns (ghost d: Tree)
      requires Wired(Mem(s), d0) && Between(d0, lo, hi) && d0.T? && root == d0.n && comp != 0
      modifies `root, s
      ensures Wired(Mem(s), d) && Between(d, lo - 1, hi + 1) && d.T? && root == d.n
      ensures Inorder(d) == Inorder(d0)
      ensures if comp < 0 then Between(d.r, lo, hi + 1) && Between(d.l, lo - 1, lo)
              else Between(d.l, lo - 1, hi) && Between(d.r, hi, hi + 1)
    {
      Widen(d0, lo, hi, lo - 1, hi + 1);
      var dummy := new Node(0);
      var left, right, stop := dummy, dummy, false;
      ghost var p, t, q := NoLeft, d0, NoRight;
      while !stop
        invariant fresh(dummy) && t.T? && root == t.n
        invariant Parts(Mem(s), p, t, q, dummy.right, dummy.left, lo - 1, hi + 1)
        invariant PartsOrder(p, t, q) == Inorder(d0)
        invariant left == if p.NoLeft? then dummy else p.n
        invariant right == if q.NoRight? then dummy else q.n
        invariant if comp < 0 then p.NoLeft? && (stop ==> t.l.Leaf?) else q.NoRight? && (stop ==> t.r.Leaf?)
        modifies `root, s, dummy
        decreases !stop, t
      {
        stop, left, right, p, t, q := EndTurn(comp, left, right, dummy, s, p, t, q, lo - 1, hi + 1);
      }
      AssembleEnd(dummy, left, right, s, p, t, q, d0, lo, hi, comp < 0);
      d := Assembled(p, t, q);
    }

    // SPLAY_MIN_MAX: the first or the last node comes to the root.
    method MinMax(comp: int) returns (r: Node)
      requires Valid() && root != null && comp != 0
      modifies this, nodes
      ensures Valid() && nodes == old(nodes) && Inorder(shape) == old(Inorder(shape))
      ensures r in nodes && r == root
      ensures forall n :: n in nodes && n != r ==> if comp < 0 then r.key < n.key else n.key < r.key
    {
      ghost var d := SplayMinMax(comp, nodes, shape, lo, hi);
      ghost var m := Mem(nodes);
      EndAtRoot(d, shape, lo, hi, lo - 1, hi + 1, if comp < 0 then lo else hi);
      assert nodes == Elems(d);
      shape, lo, hi := d, lo - 1, hi + 1;
      assert Mem(nodes) == m;
      r := root;
    }
  }

  // After a splay for key the root has that key if any node does; otherwise no node lies between it and key.
  lemma {:induction false} RootNextTo(t: Tree, key: int, lo: int, hi: int)
    requires t.T? && Between(t, lo, hi) && Between(t.l, lo, key) && Between(t.r, key, hi)
    ensures forall n :: n in Elems(t) && n.key == key ==> n == t.n
    ensures forall n :: n in Elems(t) ==> !(t.n.key < n.key <= key) && !(key <= n.key < t.n.key)
  {
    ElemsKeys(t.l, lo, key);
    ElemsKeys(t.l, lo, t.n.key);
    ElemsKeys(t.r, key, hi);
    ElemsKeys(t.r, t.n.key, hi);
  }

  // All keys lie strictly between lo and hi, so lo or hi splits the parts at the end of SPLAY_MINMAX.
  lemma {:induction false} Extreme(p: Left, t: Tree, q: Right, d0: Tree, lo: int, hi: int, min: bool)
    requires Between(d0, lo, hi) && PartsOrder(p, t, q) == Inorder(d0) && t.T?
    requires if min then p.NoLeft? && t.l.Leaf? else q.NoRight? && t.r.Leaf?
    ensures Split(p, t, q, if min then lo else hi)
  {
    InorderKeys(d0, lo, hi);
    RootPlace(t);
    var s := PartsOrder(p, t, q);
    assert Inorder(t)[|Inorder(t.l)|] == t.n;
    assert t.n in Inorder(t) && t.n in s;
    if q.Greater? {
      assert RightOrder(q)[0] == q.n;
      assert q.n in RightOrder(q) && q.n in s;
    }
    if p.Less? {
      assert p.n in Inorder(p.a) + [p.n];
      assert p.n in LeftOrder(p) && p.n in s;
    }
  }

  lemma {:induction false} EndAtRoot(d: Tree, d0: Tree, lo: int, hi: int, lo': int, hi': int, key: int)
    requires Inorder(d) == Inorder(d0) && Between(d0, lo, hi) && d.T? && (key == lo || key == hi)
    requires Between(d, lo', hi') && Between(d.l, lo', key) && Between(d.r, key, hi') && lo' == lo - 1 && hi' == hi + 1
    ensures Elems(d) == Elems(d0)
    ensures forall n :: n in Elems(d) && n != d.n ==> if key == lo then d.n.key < n.key else n.key < d.n.key
  {
    ElemsInorder(d);
    ElemsInorder(d0);
    ElemsKeys(d.l, lo', key);
    ElemsKeys(d.r, key, hi');
    ElemsKeys(d.l, lo', d.n.key);
    ElemsKeys(d.r, d.n.key, hi');
  }

  lemma {:induction false} RootPlace(t: Tree)
    requires t.T?
    ensures |Inorder(t)| == |Inorder(t.l)| + 1 + |Inorder(t.r)|
    ensures Inorder(t)[|Inorder(t.l)|] == t.n
    ensures t.l.T? ==> Inorder(t)[0] == Inorder(t.l)[0]
    ensures t.r.T? ==> |Inorder(t.r)| > 0 && Inorder(t)[|Inorder(t.l)| + 1] == Inorder(t.r)[0]
  {
  }

  lemma {:induction false} AfterRoot(t: Tree, lo: int, hi: int)
    requires t.T? && Between(t, lo, hi)
    ensures t.r.T? ==> |Inorder(t.r)| > 0
    ensures Follows(Inorder(t), t.n, if t.r.T? then Inorder(t.r)[0] else null)
  {
    InorderKeys(t, lo, hi);
    RootPlace(t);
  }

  // The new node takes the root, the old root goes below it without one of its subtrees.
  lemma {:induction false} Hung(m: Memory, m': Memory, d: Tree, x: Node, lo: int, hi: int)
    requires Wired(m, d) && d.T? && Between(d, lo, hi) && x.key != d.n.key
    requires Between(d.l, lo, x.key) && Between(d.r, x.key, hi)
    requires forall n :: n in m && n != x && n != d.n ==> n in m' && m'[n] == m[n]
    requires x in m' && d.n in m'
    requires x.key < d.n.key ==> m'[x] == Cell(Root(d.l), d.n) && m'[d.n] == Cell(null, Root(d.r))
    requires d.n.key < x.key ==> m'[x] == Cell(d.n, Root(d.r)) && m'[d.n] == Cell(Root(d.l), null)
    requires lo < x.key < hi
    ensures var d' := if x.key < d.n.key then T(d.l, x, T(Leaf, d.n, d.r)) else T(T(d.l, d.n, Leaf), x, d.r);
            Wired(m', d') && Between(d', lo, hi) && Elems(d') == Elems(d) + {x}
  {
    var y, k := d.n.key, x.key;
    WiredFrame(m, m', d.l, lo, if k < y then k else y);
    WiredFrame(m, m', d.r, if k < y then y else k, hi);
    assert Elems(T(Leaf, d.n, d.r)) == {d.n} + Elems(d.r);
    assert Elems(T(d.l, d.n, Leaf)) == Elems(d.l) + {d.n};
  }

  // A tree whose nodes are all below key, once split at key, has nothing to the right of the root.
  lemma {:induction false} NothingAbove(e: Tree, t: Tree, lo: int, key: int, hi: int)
    requires Inorder(e) == Inorder(t) && Between(t, lo, key) && e.T? && Between(e.r, key, hi)
    ensures e.r.Leaf? && Elems(e) == Elems(t) && e.n.key < key
  {
    ElemsInorder(e);
    ElemsInorder(t);
    RootIn(e);
    InorderKeys(t, lo, key);
  }

  lemma {:induction false} RootIn(t: Tree)
    requires t.T?
    ensures t.n in Inorder(t) && (t.r.T? ==> t.r.n in Inorder(t))
  {
    if t.r.T? {
      assert t.r.n in Inorder(t.r);
    }
  }

  lemma {:induction false} Joined(m: Memory, m1: Memory, m': Memory, d: Tree, f: Tree, lo: int, key: int, hi: int)
    requires Wired(m, d) && d.T? && Between(d, lo, hi) && d.n.key == key
    requires Wired(m1, f) && f.T? && f.r.Leaf? && Between(f, lo, hi) && f.n.key < key && Elems(f) == Elems(d.l)
    requires forall n :: n in m && key < n.key ==> n in m' && m'[n] == m[n]
    requires forall n :: n in m1 && n != f.n ==> n in m' && m'[n] == m1[n]
    requires f.n in m' && m'[f.n] == Cell(Root(f.l), Root(d.r))
    ensures var e := T(f.l, f.n, d.r); Wired(m', e) && Between(e, lo, hi) && Elems(e) == Elems(d) - {d.n}
  {
    ElemsKeys(d.l, lo, key);
    ElemsKeys(d.r, key, hi);
    WiredFrame(m1, m', f.l, lo, f.n.key);
    WiredFrame(m, m', d.r, key, hi);
    Widen(d.r, key, hi, f.n.key, hi);
    assert Elems(f) == Elems(f.l) + {f.n};
  }
}
