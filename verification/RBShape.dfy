// The nodes of a red-black tree in tree.h, the trees their links form, and what rotations do to the links.
module RBShape {
  datatype Color = Red | Black

  class Node {
    const key: int
    var left: Node?
    var right: Node?
    var parent: Node?
    var color: Color

    constructor (key: int)
      ensures this.key == key
    {
      this.key := key;
      left, right, parent, color := null, null, null, Black;
    }
  }

  datatype Cell = Cell(left: Node?, right: Node?, parent: Node?, color: Color)

  type Memory = map<Node, Cell>

  ghost function Mem(s: set<Node>): Memory
    reads s
  {
    map n | n in s :: Cell(n.left, n.right, n.parent, n.color)
  }

  datatype Tree = Leaf | T(l: Tree, n: Node, c: Color, r: Tree)

  datatype Ctx =
    | Top(lo: int, hi: int)
    | InL(up: Ctx, n: Node, c: Color, r: Tree)
    | InR(up: Ctx, l: Tree, n: Node, c: Color)

  function Root(t: Tree): Node? {
    if t.Leaf? then null else t.n
  }

  function Paint(t: Tree, col: Color): (r: Tree)
    ensures r.T? <==> t.T?
  {
    match t
    case Leaf => Leaf
    case T(l, n, _, r) => T(l, n, col, r)
  }

  function CtxPaint(k: Ctx, col: Color): Ctx {
    match k
    case Top(_, _) => k
    case InL(up, n, _, r) => InL(up, n, col, r)
    case InR(up, l, n, _) => InR(up, l, n, col)
  }

  function Owner(k: Ctx): Node? {
    if k.Top? then null else k.n
  }

  // Search order.  A subtree lives in the open key interval (Lo, Hi) of its hole.
  function Lo(k: Ctx): int {
    match k
    case Top(lo, _) => lo
    case InL(up, _, _, _) => Lo(up)
    case InR(_, _, n, _) => n.key
  }

  function Hi(k: Ctx): int {
    match k
    case Top(_, hi) => hi
    case InL(_, n, _, _) => n.key
    case InR(up, _, _, _) => Hi(up)
  }

  ghost predicate Between(t: Tree, lo: int, hi: int) {
    t.T? ==> lo < t.n.key < hi && Between(t.l, lo, t.n.key) && Between(t.r, t.n.key, hi)
  }

  ghost predicate Around(k: Ctx) {
    match k
    case Top(lo, hi) => true
    case InL(up, n, _, r) => Lo(up) < n.key < Hi(up) && Between(r, n.key, Hi(up)) && Around(up)
    case InR(up, l, n, _) => Lo(up) < n.key < Hi(up) && Between(l, Lo(up), n.key) && Around(up)
  }

  ghost predicate Wired(m: Memory, t: Tree, p: Node?) {
    t.T? ==>
      && t.n in m && m[t.n] == Cell(Root(t.l), Root(t.r), p, t.c)
      && Wired(m, t.l, t.n) && Wired(m, t.r, t.n)
  }

  ghost predicate CtxWired(m: Memory, k: Ctx, x: Node?, root: Node?) {
    match k
    case Top(_, _) => x == root
    case InL(up, n, c, r) =>
      n in m && m[n] == Cell(x, Root(r), Owner(up), c) && Wired(m, r, n) && CtxWired(m, up, n, root)
    case InR(up, l, n, c) =>
      n in m && m[n] == Cell(Root(l), x, Owner(up), c) && Wired(m, l, n) && CtxWired(m, up, n, root)
  }

  ghost predicate At(m: Memory, k: Ctx, t: Tree, root: Node?) {
    && Wired(m, t, Owner(k)) && CtxWired(m, k, Root(t), root)
    && Between(t, Lo(k), Hi(k)) && Around(k)
  }

  lemma {:induction false} WiredFrame(m: Memory, m': Memory, t: Tree, p: Node?, lo: int, hi: int)
    requires Wired(m, t, p) && Between(t, lo, hi)
    requires forall n :: n in m && lo < n.key < hi ==> n in m' && m'[n] == m[n]
    ensures Wired(m', t, p)
  {
    if t.T? {
      WiredFrame(m, m', t.l, t.n, lo, t.n.key);
      WiredFrame(m, m', t.r, t.n, t.n.key, hi);
    }
  }

  lemma {:induction false} CtxWiredFrame(m: Memory, m': Memory, k: Ctx, x: Node?, root: Node?)
    requires CtxWired(m, k, x, root) && Around(k)
    requires forall n :: n in m && !(Lo(k) < n.key < Hi(k)) ==> n in m' && m'[n] == m[n]
    ensures CtxWired(m', k, x, root)
  {
    match k
    case Top(_, _) =>
    case InL(up, n, _, r) =>
      CtxWiredFrame(m, m', up, n, root);
      WiredFrame(m, m', r, n, n.key, Hi(up));
    case InR(up, l, n, _) =>
      CtxWiredFrame(m, m', up, n, root);
      WiredFrame(m, m', l, n, Lo(up), n.key);
  }

  ghost predicate SameIn(m: Memory, m': Memory, lo: int, hi: int, except: Node?) {
    forall n :: n in m && lo < n.key < hi && n != except ==> n in m' && m'[n] == m[n]
  }

  ghost predicate SameOut(m: Memory, m': Memory, lo: int, hi: int, except: Node?) {
    forall n :: n in m && !(lo < n.key < hi) && n != except ==> n in m' && m'[n] == m[n]
  }

  // The link from above the focus now leads to y.
  ghost predicate Relinked(m: Memory, m': Memory, k: Ctx, y: Node?, root: Node?, root': Node?) {
    SameOut(m, m', Lo(k), Hi(k), Owner(k)) && OwnerRelinked(m, m', k, y, root, root')
  }

  ghost predicate Reparented(m: Memory, m': Memory, t: Tree, q: Node?, lo: int, hi: int) {
    && SameIn(m, m', lo, hi, Root(t))
    && (t.T? ==> t.n in m && t.n in m' && m'[t.n] == m[t.n].(parent := q))
  }

  lemma {:induction false} RelinkedWired(m: Memory, m': Memory, k: Ctx, x: Node?, y: Node?, root: Node?, root': Node?)
    requires CtxWired(m, k, x, root) && Around(k) && Relinked(m, m', k, y, root, root')
    ensures CtxWired(m', k, y, root')
  {
    match k
    case Top(_, _) =>
    case InL(up, n, _, r) =>
      CtxWiredFrame(m, m', up, n, root);
      WiredFrame(m, m', r, n, n.key, Hi(up));
    case InR(up, l, n, _) =>
      CtxWiredFrame(m, m', up, n, root);
      WiredFrame(m, m', l, n, Lo(up), n.key);
  }

  lemma {:induction false} ReparentedWired(m: Memory, m': Memory, t: Tree, p: Node?, q: Node?, lo: int, hi: int)
    requires Wired(m, t, p) && Between(t, lo, hi) && Reparented(m, m', t, q, lo, hi)
    ensures Wired(m', t, q)
  {
    if t.T? {
      WiredFrame(m, m', t.l, t.n, lo, t.n.key);
      WiredFrame(m, m', t.r, t.n, t.n.key, hi);
    }
  }

  // Everything but the given nodes is untouched.
  ghost predicate SameBut(m: Memory, m': Memory, x: Node, y: Node, b: Node?, p: Node?) {
    forall n :: n in m && n != x && n != y && n != b && n != p ==> n in m' && m'[n] == m[n]
  }

  // The node above the focus, and the root, when the link to the focus changes to y.
  ghost predicate OwnerRelinked(m: Memory, m': Memory, k: Ctx, y: Node?, root: Node?, root': Node?) {
    match k
    case Top(_, _) => root' == y
    case InL(_, n, _, _) => root' == root && n in m && n in m' && m'[n] == m[n].(left := y)
    case InR(_, _, n, _) => root' == root && n in m && n in m' && m'[n] == m[n].(right := y)
  }

  // What the memory holds at the focus and just above it.
  lemma {:induction false} Here(m: Memory, k: Ctx, t: Tree, root: Node?)
    requires At(m, k, t, root)
    ensures t.T? ==> t.n in m && m[t.n] == Cell(Root(t.l), Root(t.r), Owner(k), t.c) && Lo(k) < t.n.key < Hi(k)
    ensures k.Top? ==> root == Root(t)
    ensures !k.Top? ==> k.n in m && !(Lo(k) < k.n.key < Hi(k)) && m[k.n].color == k.c && m[k.n].parent == Owner(k.up)
    ensures k.InL? ==> m[k.n].left == Root(t) && m[k.n].right == Root(k.r)
    ensures k.InR? ==> m[k.n].right == Root(t) && m[k.n].left == Root(k.l)
    ensures k.InR? && t.T? ==> m[k.n].left != t.n
    ensures k.InL? && t.T? ==> m[k.n].right != t.n
  {
  }

  // The focus can be moved along any edge.
  lemma {:induction false} Zip(m: Memory, k: Ctx, t: Tree, root: Node?)
    requires !k.Top?
    ensures At(m, k, t, root) <==> At(m, k.up, if k.InL? then T(t, k.n, k.c, k.r) else T(k.l, k.n, k.c, t), root)
  {
  }

  lemma {:induction false} RotateLeftFacts(m: Memory, k: Ctx, a: Tree, x: Node, xc: Color, b: Tree, y: Node,
          yc: Color, c: Tree, root: Node?)
    requires At(m, k, T(a, x, xc, T(b, y, yc, c)), root)
    ensures y in m && m[y] == Cell(Root(b), Root(c), x, yc)
    ensures Lo(k) < x.key < y.key < Hi(k)
    ensures b.T? ==> b.n in m && x.key < b.n.key < y.key
    ensures Wired(m, a, x) && Wired(m, b, y) && Wired(m, c, y)
    ensures Between(a, Lo(k), x.key) && Between(b, x.key, y.key) && Between(c, y.key, Hi(k))
  {
    assert Wired(m, T(b, y, yc, c), x) && Between(T(b, y, yc, c), x.key, Hi(k));
    assert Wired(m, b, y) && Between(b, x.key, y.key);
  }

  lemma {:induction false} RotateRightFacts(m: Memory, k: Ctx, a: Tree, x: Node, xc: Color, b: Tree, y: Node,
          yc: Color, c: Tree, root: Node?)
    requires At(m, k, T(T(a, x, xc, b), y, yc, c), root)
    ensures x in m && m[x] == Cell(Root(a), Root(b), y, xc)
    ensures Lo(k) < x.key < y.key < Hi(k)
    ensures b.T? ==> b.n in m && x.key < b.n.key < y.key
    ensures Wired(m, a, x) && Wired(m, b, x) && Wired(m, c, y)
    ensures Between(a, Lo(k), x.key) && Between(b, x.key, y.key) && Between(c, y.key, Hi(k))
  {
    assert Wired(m, T(a, x, xc, b), y) && Between(T(a, x, xc, b), Lo(k), y.key);
    assert Wired(m, b, x) && Between(b, x.key, y.key);
  }

  lemma {:induction false} RotatedLeft(m: Memory, m': Memory, k: Ctx, a: Tree, x: Node, xc: Color, b: Tree, y: Node,
          yc: Color, c: Tree, root: Node?, root': Node?)
    requires At(m, k, T(a, x, xc, T(b, y, yc, c)), root)
    requires SameBut(m, m', x, y, Root(b), Owner(k))
    requires OwnerRelinked(m, m', k, y, root, root')
    requires b.T? ==> b.n in m && b.n in m' && m'[b.n] == m[b.n].(parent := x)
    requires x in m' && m'[x] == Cell(Root(a), Root(b), y, xc)
    requires y in m' && m'[y] == Cell(x, Root(c), Owner(k), yc)
    ensures At(m', k, T(T(a, x, xc, b), y, yc, c), root')
  {
    Here(m, k, T(a, x, xc, T(b, y, yc, c)), root);
    RotateLeftFacts(m, k, a, x, xc, b, y, yc, c, root);
    WiredFrame(m, m', a, x, Lo(k), x.key);
    WiredFrame(m, m', c, y, y.key, Hi(k));
    ReparentedWired(m, m', b, y, x, x.key, y.key);
    RelinkedWired(m, m', k, x, y, root, root');
    assert Wired(m', T(a, x, xc, b), y);
    assert Between(T(a, x, xc, b), Lo(k), y.key);
  }

  lemma {:induction false} RotatedRight(m: Memory, m': Memory, k: Ctx, a: Tree, x: Node, xc: Color, b: Tree,
          y: Node, yc: Color, c: Tree, root: Node?, root': Node?)
    requires At(m, k, T(T(a, x, xc, b), y, yc, c), root)
    requires SameBut(m, m', x, y, Root(b), Owner(k))
    requires OwnerRelinked(m, m', k, x, root, root')
    requires b.T? ==> b.n in m && b.n in m' && m'[b.n] == m[b.n].(parent := y)
    requires y in m' && m'[y] == Cell(Root(b), Root(c), x, yc)
    requires x in m' && m'[x] == Cell(Root(a), y, Owner(k), xc)
    ensures At(m', k, T(a, x, xc, T(b, y, yc, c)), root')
  {
    Here(m, k, T(T(a, x, xc, b), y, yc, c), root);
    RotateRightFacts(m, k, a, x, xc, b, y, yc, c, root);
    WiredFrame(m, m', a, x, Lo(k), x.key);
    WiredFrame(m, m', c, y, y.key, Hi(k));
    ReparentedWired(m, m', b, x, y, x.key, y.key);
    RelinkedWired(m, m', k, y, x, root, root');
    assert Wired(m', T(b, y, yc, c), x);
    assert Between(T(b, y, yc, c), x.key, Hi(k));
  }

  lemma {:induction false} Recolored(m: Memory, m': Memory, k: Ctx, t: Tree, col: Color, root: Node?)
    requires At(m, k, t, root) && t.T?
    requires forall n :: n in m && n != t.n ==> n in m' && m'[n] == m[n]
    requires t.n in m && t.n in m' && m'[t.n] == m[t.n].(color := col)
    ensures At(m', k, Paint(t, col), root)
  {
    WiredFrame(m, m', t.l, t.n, Lo(k), t.n.key);
    WiredFrame(m, m', t.r, t.n, t.n.key, Hi(k));
    CtxWiredFrame(m, m', k, t.n, root);
  }

  lemma {:induction false} OtherFacts(m: Memory, k: Ctx, t: Tree, root: Node?)
    requires At(m, k, t, root)
    ensures k.InL? && k.r.T? ==> k.r.n in m && m[k.r.n] == Cell(Root(k.r.l), Root(k.r.r), k.n, k.r.c)
    ensures k.InR? && k.l.T? ==> k.l.n in m && m[k.l.n] == Cell(Root(k.l.l), Root(k.l.r), k.n, k.l.c)
  {
  }

  lemma {:induction false} ChildFacts(m: Memory, t: Tree, p: Node?, lo: int, hi: int)
    requires Wired(m, t, p) && Between(t, lo, hi)
    ensures t.T? ==> t.n in m && lo < t.n.key < hi && m[t.n] == Cell(Root(t.l), Root(t.r), p, t.c)
  {
  }

  // The fields of the sibling of the focus that decide the colour cases.
  lemma {:induction false} SiblingCell(m: Memory, k: Ctx, t: Tree, root: Node?)
    requires At(m, k, t, root)
    ensures k.InL? ==> k.n in m && m[k.n].left == Root(t) && m[k.n].right == Root(k.r)
    ensures k.InL? && k.r.T? ==> k.r.n in m && m[k.r.n].color == k.r.c
    ensures k.InR? ==> k.n in m && m[k.n].right == Root(t) && m[k.n].left == Root(k.l)
    ensures k.InR? && k.l.T? ==> k.l.n in m && m[k.l.n].color == k.l.c
  {
  }
}
