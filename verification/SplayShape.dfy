// The trees that the links of a splay tree in tree.h form, whole and in the middle of a top-down splay.
module SplayShape {
  class Node {
    const key: int
    var left: Node?
    var right: Node?

    constructor (key: int)
      ensures this.key == key && left == null && right == null
    {
      this.key := key;
      left, right := null, null;
    }
  }

  datatype Cell = Cell(left: Node?, right: Node?)

  type Memory = map<Node, Cell>

  ghost function Mem(s: set<Node>): Memory
    reads s
  {
    map n | n in s :: Cell(n.left, n.right)
  }

  datatype Tree = Leaf | T(l: Tree, n: Node, r: Tree)

  // The tree of smaller nodes being assembled: its right spine, the lowest node outermost.
  // Less(up, a, n) is n with left subtree a, hanging off the lowest node of up.
  datatype Left = NoLeft | Less(up: Left, a: Tree, n: Node)

  // The tree of greater nodes, seen along its left spine.
  datatype Right = NoRight | Greater(up: Right, n: Node, b: Tree)

  function Root(t: Tree): Node? {
    if t.Leaf? then null else t.n
  }

  function Inorder(t: Tree): seq<Node> {
    if t.Leaf? then [] else Inorder(t.l) + [t.n] + Inorder(t.r)
  }

  function LeftOrder(p: Left): seq<Node> {
    if p.NoLeft? then [] else LeftOrder(p.up) + (Inorder(p.a) + [p.n])
  }

  function RightOrder(q: Right): seq<Node> {
    if q.NoRight? then [] else [q.n] + Inorder(q.b) + RightOrder(q.up)
  }

  ghost predicate Between(t: Tree, lo: int, hi: int) {
    t.T? ==> lo < t.n.key < hi && Between(t.l, lo, t.n.key) && Between(t.r, t.n.key, hi)
  }

  function Floor(p: Left, lo: int): int {
    if p.NoLeft? then lo else p.n.key
  }

  function Ceiling(q: Right, hi: int): int {
    if q.NoRight? then hi else q.n.key
  }

  ghost predicate LeftAbove(p: Left, lo: int) {
    p.Less? ==> LeftAbove(p.up, lo) && Floor(p.up, lo) < p.n.key && Between(p.a, Floor(p.up, lo), p.n.key)
  }

  ghost predicate RightBelow(q: Right, hi: int) {
    q.Greater? ==> RightBelow(q.up, hi) && q.n.key < Ceiling(q.up, hi) && Between(q.b, q.n.key, Ceiling(q.up, hi))
  }

  ghost predicate Wired(m: Memory, t: Tree) {
    t.T? ==> t.n in m && m[t.n] == Cell(Root(t.l), Root(t.r)) && Wired(m, t.l) && Wired(m, t.r)
  }

  // first is where the whole left tree hangs (the right link of the dummy node); the right link of
  // the lowest node of p is left open.
  ghost predicate LeftWired(m: Memory, p: Left, first: Node?) {
    p.Less? ==>
      && p.n in m && m[p.n].left == Root(p.a) && Wired(m, p.a)
      && (if p.up.NoLeft? then first == p.n else p.up.n in m && m[p.up.n].right == p.n)
      && LeftWired(m, p.up, first)
  }

  ghost predicate RightWired(m: Memory, q: Right, first: Node?) {
    q.Greater? ==>
      && q.n in m && m[q.n].right == Root(q.b) && Wired(m, q.b)
      && (if q.up.NoRight? then first == q.n else q.up.n in m && m[q.up.n].left == q.n)
      && RightWired(m, q.up, first)
  }

  ghost predicate SameIn(m: Memory, m': Memory, lo: int, hi: int) {
    forall n :: n in m && lo < n.key < hi ==> n in m' && m'[n] == m[n]
  }

  lemma {:induction false} WiredFrame(m: Memory, m': Memory, t: Tree, lo: int, hi: int)
    requires Wired(m, t) && Between(t, lo, hi) && SameIn(m, m', lo, hi)
    ensures Wired(m', t)
  {
    if t.T? {
      WiredFrame(m, m', t.l, lo, t.n.key);
      WiredFrame(m, m', t.r, t.n.key, hi);
    }
  }

  // Changes above the lowest node of p, or to that node's open link, do not disturb p.
  lemma {:induction false} LeftFrame(m: Memory, m': Memory, p: Left, first: Node?, first': Node?, lo: int)
    requires LeftWired(m, p, first) && LeftAbove(p, lo)
    requires SameIn(m, m', lo, Floor(p, lo))
    requires p.Less? ==> first' == first && p.n in m' && m'[p.n].left == m[p.n].left
    ensures LeftWired(m', p, first')
  {
    if p.Less? {
      LeftFloor(p.up, lo);
      WiredFrame(m, m', p.a, Floor(p.up, lo), p.n.key);
      LeftFrame(m, m', p.up, first, first', lo);
    }
  }

  lemma {:induction false} LeftFloor(p: Left, lo: int)
    requires LeftAbove(p, lo)
    ensures lo <= Floor(p, lo)
    ensures p.Less? ==> lo < Floor(p, lo)
  {
    if p.Less? {
      LeftFloor(p.up, lo);
    }
  }

  lemma {:induction false} RightFrame(m: Memory, m': Memory, q: Right, first: Node?, first': Node?, hi: int)
    requires RightWired(m, q, first) && RightBelow(q, hi)
    requires SameIn(m, m', Ceiling(q, hi), hi)
    requires q.Greater? ==> first' == first && q.n in m' && m'[q.n].right == m[q.n].right
    ensures RightWired(m', q, first')
  {
    if q.Greater? {
      RightCeiling(q.up, hi);
      WiredFrame(m, m', q.b, q.n.key, Ceiling(q.up, hi));
      RightFrame(m, m', q.up, first, first', hi);
    }
  }

  lemma {:induction false} RightCeiling(q: Right, hi: int)
    requires RightBelow(q, hi)
    ensures Ceiling(q, hi) <= hi
    ensures q.Greater? ==> Ceiling(q, hi) < hi
  {
    if q.Greater? {
      RightCeiling(q.up, hi);
    }
  }

  // The left tree once the open link leads to t.
  function LeftTree(p: Left, t: Tree): Tree {
    if p.NoLeft? then t else LeftTree(p.up, T(p.a, p.n, t))
  }

  function RightTree(q: Right, t: Tree): Tree {
    if q.NoRight? then t else RightTree(q.up, T(t, q.n, q.b))
  }

  lemma {:induction false} LeftClosed(m: Memory, p: Left, t: Tree, first: Node?, lo: int, hi: int)
    requires LeftWired(m, p, first) && Wired(m, t)
    requires if p.NoLeft? then first == Root(t) else m[p.n].right == Root(t)
    requires LeftAbove(p, lo) && Between(t, Floor(p, lo), hi) && Floor(p, lo) < hi
    ensures var d := LeftTree(p, t);
            Wired(m, d) && Root(d) == first && Between(d, lo, hi) && Inorder(d) == LeftOrder(p) + Inorder(t)
  {
    if p.Less? {
      LeftFloor(p.up, lo);
      LeftClosed(m, p.up, T(p.a, p.n, t), first, lo, hi);
      assert LeftOrder(p) + Inorder(t) == LeftOrder(p.up) + (Inorder(p.a) + [p.n] + Inorder(t));
    }
  }

  lemma {:induction false} RightClosed(m: Memory, q: Right, t: Tree, first: Node?, lo: int, hi: int)
    requires RightWired(m, q, first) && Wired(m, t)
    requires if q.NoRight? then first == Root(t) else m[q.n].left == Root(t)
    requires RightBelow(q, hi) && Between(t, lo, Ceiling(q, hi)) && lo < Ceiling(q, hi)
    ensures var d := RightTree(q, t);
            Wired(m, d) && Root(d) == first && Between(d, lo, hi) && Inorder(d) == Inorder(t) + RightOrder(q)
  {
    if q.Greater? {
      RightCeiling(q.up, hi);
      RightClosed(m, q.up, T(t, q.n, q.b), first, lo, hi);
      assert Inorder(t) + RightOrder(q) == (Inorder(t) + [q.n] + Inorder(q.b)) + RightOrder(q.up);
    }
  }

  // The three parts of a tree in the middle of a splay: what is smaller than the nodes still to be
  // searched, those nodes, and what is greater.
  ghost predicate Parts(m: Memory, p: Left, t: Tree, q: Right, first: Node?, last: Node?, lo: int, hi: int) {
    && LeftWired(m, p, first) && LeftAbove(p, lo)
    && RightWired(m, q, last) && RightBelow(q, hi)
    && Wired(m, t) && Between(t, Floor(p, lo), Ceiling(q, hi)) && Floor(p, lo) < Ceiling(q, hi)
  }

  function PartsOrder(p: Left, t: Tree, q: Right): seq<Node> {
    LeftOrder(p) + Inorder(t) + RightOrder(q)
  }

  lemma {:induction false} Regroup<X>(a: seq<X>, b: seq<X>, c: seq<X>, d: seq<X>, e: seq<X>)
    ensures a + (b + c) + d + e == a + (b + c + d) + e == a + b + (c + d + e)
    ensures a + b + (c + d + e) == (a + b + c) + d + e == (a + b) + c + (d + e)
  {
  }

  lemma {:induction false} TurnOrder(a: Tree, x: Node, b: Tree, y: Node, c: Tree)
    ensures Inorder(T(a, x, T(b, y, c))) == Inorder(T(T(a, x, b), y, c))
  {
    Regroup(Inorder(a), [x], Inorder(b), [y], Inorder(c));
  }

  lemma {:induction false} LinkOrder(p: Left, t: Tree, q: Right)
    requires t.T?
    ensures PartsOrder(Less(p, t.l, t.n), t.r, q) == PartsOrder(p, t, q)
    ensures PartsOrder(p, t.l, Greater(q, t.n, t.r)) == PartsOrder(p, t, q)
  {
    Regroup(LeftOrder(p), Inorder(t.l), [t.n], Inorder(t.r), RightOrder(q));
  }

  // SPLAY_LINKRIGHT: the root and its left subtree join the smaller part.
  lemma {:induction false} LinkedRight(m: Memory, m': Memory, p: Left, t: Tree, q: Right, first: Node?,
          first': Node?, last: Node?, lo: int, hi: int)
    requires Parts(m, p, t, q, first, last, lo, hi) && t.T?
    requires forall n :: n in m && (p.Less? ==> n != p.n) ==> n in m' && m'[n] == m[n]
    requires p.Less? ==> first' == first && p.n in m' && m'[p.n] == Cell(m[p.n].left, t.n)
    requires p.NoLeft? ==> first' == t.n
    ensures Parts(m', Less(p, t.l, t.n), t.r, q, first', last, lo, hi)
    ensures PartsOrder(Less(p, t.l, t.n), t.r, q) == PartsOrder(p, t, q)
  {
    LeftFloor(p, lo);
    RightCeiling(q, hi);
    LeftFrame(m, m', p, first, first', lo);
    WiredFrame(m, m', t, Floor(p, lo), Ceiling(q, hi));
    assert SameIn(m, m', Ceiling(q, hi), hi);
    assert q.Greater? ==> q.n in m && m'[q.n] == m[q.n];
    RightFrame(m, m', q, last, last, hi);
    LinkOrder(p, t, q);
  }

  // SPLAY_LINKLEFT: the root and its right subtree join the greater part.
  lemma {:induction false} LinkedLeft(m: Memory, m': Memory, p: Left, t: Tree, q: Right, first: Node?, last: Node?,
          last': Node?, lo: int, hi: int)
    requires Parts(m, p, t, q, first, last, lo, hi) && t.T?
    requires forall n :: n in m && (q.Greater? ==> n != q.n) ==> n in m' && m'[n] == m[n]
    requires q.Greater? ==> last' == last && q.n in m' && m'[q.n] == Cell(t.n, m[q.n].right)
    requires q.NoRight? ==> last' == t.n
    ensures Parts(m', p, t.l, Greater(q, t.n, t.r), first, last', lo, hi)
    ensures PartsOrder(p, t.l, Greater(q, t.n, t.r)) == PartsOrder(p, t, q)
  {
    LeftFloor(p, lo);
    RightCeiling(q, hi);
    RightFrame(m, m', q, last, last', hi);
    WiredFrame(m, m', t, Floor(p, lo), Ceiling(q, hi));
    assert SameIn(m, m', lo, Floor(p, lo));
    assert p.Less? ==> p.n in m && m'[p.n] == m[p.n];
    LeftFrame(m, m', p, first, first, lo);
    LinkOrder(p, t, q);
  }

  // SPLAY_ROTATE_RIGHT at the root of the middle part.
  lemma {:induction false} TurnedRight(m: Memory, m': Memory, t: Tree, lo: int, hi: int)
    requires Wired(m, t) && Between(t, lo, hi) && t.T? && t.l.T?
    requires forall n :: n in m && n != t.n && n != t.l.n ==> n in m' && m'[n] == m[n]
    requires t.n in m' && m'[t.n] == Cell(Root(t.l.r), Root(t.r))
    requires t.l.n in m' && m'[t.l.n] == Cell(Root(t.l.l), t.n)
    ensures var d := T(t.l.l, t.l.n, T(t.l.r, t.n, t.r));
            Wired(m', d) && Between(d, lo, hi) && Inorder(d) == Inorder(t)
  {
    var a, x, b, y, c := t.l.l, t.l.n, t.l.r, t.n, t.r;
    assert Between(a, lo, x.key) && Between(b, x.key, y.key) && Wired(m, a) && Wired(m, b);
    WiredFrame(m, m', a, lo, x.key);
    WiredFrame(m, m', b, x.key, y.key);
    WiredFrame(m, m', c, y.key, hi);
    assert Between(T(b, y, c), x.key, hi);
    TurnOrder(a, x, b, y, c);
  }

  // SPLAY_ROTATE_LEFT.
  lemma {:induction false} TurnedLeft(m: Memory, m': Memory, t: Tree, lo: int, hi: int)
    requires Wired(m, t) && Between(t, lo, hi) && t.T? && t.r.T?
    requires forall n :: n in m && n != t.n && n != t.r.n ==> n in m' && m'[n] == m[n]
    requires t.n in m' && m'[t.n] == Cell(Root(t.l), Root(t.r.l))
    requires t.r.n in m' && m'[t.r.n] == Cell(t.n, Root(t.r.r))
    ensures var d := T(T(t.l, t.n, t.r.l), t.r.n, t.r.r);
            Wired(m', d) && Between(d, lo, hi) && Inorder(d) == Inorder(t)
  {
    var a, x, b, y, c := t.l, t.n, t.r.l, t.r.n, t.r.r;
    assert Between(b, x.key, y.key) && Between(c, y.key, hi) && Wired(m, b) && Wired(m, c);
    WiredFrame(m, m', a, lo, x.key);
    WiredFrame(m, m', b, x.key, y.key);
    WiredFrame(m, m', c, y.key, hi);
    assert Between(T(a, x, b), lo, y.key);
    TurnOrder(a, x, b, y, c);
  }

  // Work inside the middle part leaves the other two alone.
  lemma {:induction false} MiddleReplaced(m: Memory, m': Memory, p: Left, t: Tree, d: Tree, q: Right, first: Node?,
          last: Node?, lo: int, hi: int)
    requires Parts(m, p, t, q, first, last, lo, hi)
    requires forall n :: n in m && !(Floor(p, lo) < n.key < Ceiling(q, hi)) ==> n in m' && m'[n] == m[n]
    requires Wired(m', d) && Between(d, Floor(p, lo), Ceiling(q, hi)) && Inorder(d) == Inorder(t)
    ensures Parts(m', p, d, q, first, last, lo, hi)
    ensures PartsOrder(p, d, q) == PartsOrder(p, t, q)
  {
    LeftFloor(p, lo);
    RightCeiling(q, hi);
    assert (p.Less? ==> p.n in m) && (q.Greater? ==> q.n in m);
    LeftFrame(m, m', p, first, first, lo);
    RightFrame(m, m', q, last, last, hi);
  }

  lemma {:induction false} Widen(t: Tree, lo: int, hi: int, lo': int, hi': int)
    requires Between(t, lo, hi) && lo' <= lo && hi <= hi'
    ensures Between(t, lo', hi')
  {
    if t.T? {
      Widen(t.l, lo, t.n.key, lo', t.n.key);
      Widen(t.r, t.n.key, hi, t.n.key, hi');
    }
  }

  // key separates what has been set aside, and the root of the middle part is next to it.
  ghost predicate Split(p: Left, t: Tree, q: Right, key: int) {
    && t.T?
    && (p.Less? ==> p.n.key < key) && (q.Greater? ==> key < q.n.key)
    && (t.n.key < key ==> t.r.Leaf?) && (key < t.n.key ==> t.l.Leaf?)
  }

  function Assembled(p: Left, t: Tree, q: Right): Tree
    requires t.T?
  {
    T(LeftTree(p, t.l), t.n, RightTree(q, t.r))
  }

  lemma {:induction false} LeftAssembled(m: Memory, p: Left, t: Tree, first: Node?, lo: int, x: int, key: int)
    requires LeftWired(m, p, first) && Wired(m, t)
    requires if p.NoLeft? then first == Root(t) else m[p.n].right == Root(t)
    requires LeftAbove(p, lo) && Between(t, Floor(p, lo), x) && Floor(p, lo) < x
    requires Floor(p, lo) < key && (key < x ==> t.Leaf?)
    ensures var d := LeftTree(p, t);
            Wired(m, d) && Root(d) == first && Inorder(d) == LeftOrder(p) + Inorder(t)
            && Between(d, lo, x) && Between(d, lo, key)
  {
    if x <= key {
      Widen(t, Floor(p, lo), x, Floor(p, lo), key);
    }
    LeftClosed(m, p, t, first, lo, x);
    LeftClosed(m, p, t, first, lo, key);
  }

  lemma {:induction false} RightAssembled(m: Memory, q: Right, t: Tree, last: Node?, x: int, hi: int, key: int)
    requires RightWired(m, q, last) && Wired(m, t)
    requires if q.NoRight? then last == Root(t) else m[q.n].left == Root(t)
    requires RightBelow(q, hi) && Between(t, x, Ceiling(q, hi)) && x < Ceiling(q, hi)
    requires key < Ceiling(q, hi) && (x < key ==> t.Leaf?)
    ensures var d := RightTree(q, t);
            Wired(m, d) && Root(d) == last && Inorder(d) == Inorder(t) + RightOrder(q)
            && Between(d, x, hi) && Between(d, key, hi)
  {
    if key <= x {
      Widen(t, x, Ceiling(q, hi), key, Ceiling(q, hi));
    }
    RightClosed(m, q, t, last, x, hi);
    RightClosed(m, q, t, last, key, hi);
  }

  lemma {:induction false} AssembledOrder(p: Left, t: Tree, q: Right, l: Tree, r: Tree)
    requires t.T? && Inorder(l) == LeftOrder(p) + Inorder(t.l) && Inorder(r) == Inorder(t.r) + RightOrder(q)
    ensures Inorder(T(l, t.n, r)) == PartsOrder(p, t, q)
  {
    Regroup(LeftOrder(p), Inorder(t.l), [t.n], Inorder(t.r), RightOrder(q));
  }

  // The four links written by SPLAY_ASSEMBLE: the lowest links of the two outer parts and the root.
  ghost predicate Rejoined(m: Memory, m': Memory, p: Left, t: Tree, q: Right, first: Node?, last: Node?,
                           first': Node?, last': Node?)
    requires t.T?
  {
    && (forall n :: n in m && n != t.n && (p.Less? ==> n != p.n) && (q.Greater? ==> n != q.n) ==>
        n in m' && m'[n] == m[n])
    && (p.Less? ==> first' == first && p.n in m && p.n in m' && m'[p.n] == Cell(m[p.n].left, Root(t.l)))
    && (p.NoLeft? ==> first' == Root(t.l))
    && (q.Greater? ==> last' == last && q.n in m && q.n in m' && m'[q.n] == Cell(Root(t.r), m[q.n].right))
    && (q.NoRight? ==> last' == Root(t.r))
    && t.n in m' && m'[t.n] == Cell(first', last')
  }

  lemma {:induction false} RejoinedParts(m: Memory, m': Memory, p: Left, t: Tree, q: Right, first: Node?,
          last: Node?, first': Node?, last': Node?, lo: int, hi: int)
    requires Parts(m, p, t, q, first, last, lo, hi) && t.T? && Rejoined(m, m', p, t, q, first, last, first', last')
    ensures Wired(m', t.l) && Wired(m', t.r) && LeftWired(m', p, first') && RightWired(m', q, last')
  {
    LeftFloor(p, lo);
    RightCeiling(q, hi);
    WiredFrame(m, m', t.l, Floor(p, lo), t.n.key);
    WiredFrame(m, m', t.r, t.n.key, Ceiling(q, hi));
    LeftFrame(m, m', p, first, first', lo);
    RightFrame(m, m', q, last, last', hi);
  }

  // SPLAY_ASSEMBLE.
  lemma {:induction false} Assemble(m: Memory, m': Memory, p: Left, t: Tree, q: Right, first: Node?, last: Node?,
          first': Node?, last': Node?, lo: int, hi: int, key: int)
    requires Parts(m, p, t, q, first, last, lo, hi) && Split(p, t, q, key) && lo < key < hi
    requires Rejoined(m, m', p, t, q, first, last, first', last')
    ensures var d := Assembled(p, t, q);
            Wired(m', d) && Between(d, lo, hi) && Inorder(d) == PartsOrder(p, t, q)
    ensures var d := Assembled(p, t, q); Between(d.l, lo, key) && Between(d.r, key, hi)
  {
    RejoinedParts(m, m', p, t, q, first, last, first', last', lo, hi);
    LeftFloor(p, lo);
    RightCeiling(q, hi);
    LeftAssembled(m', p, t.l, first', lo, t.n.key, key);
    RightAssembled(m', q, t.r, last', t.n.key, hi, key);
    AssembledOrder(p, t, q, LeftTree(p, t.l), RightTree(q, t.r));
  }

  // The set of nodes of a tree, and its relation to the sorted sequence.
  ghost function Elems(t: Tree): set<Node> {
    if t.Leaf? then {} else Elems(t.l) + {t.n} + Elems(t.r)
  }

  ghost function SetOf(s: seq<Node>): set<Node> {
    set n | n in s
  }

  ghost predicate Ascending(s: seq<Node>) {
    forall i, j :: 0 <= i < j < |s| ==> s[i].key < s[j].key
  }

  lemma {:induction false} ElemsInorder(t: Tree)
    ensures Elems(t) == SetOf(Inorder(t))
  {
    if t.T? {
      ElemsInorder(t.l);
      ElemsInorder(t.r);
    }
  }

  lemma {:induction false} InorderKeys(t: Tree, lo: int, hi: int)
    requires Between(t, lo, hi)
    ensures forall n :: n in Inorder(t) ==> lo < n.key < hi
    ensures Ascending(Inorder(t))
  {
    if t.T? {
      InorderKeys(t.l, lo, t.n.key);
      InorderKeys(t.r, t.n.key, hi);
    }
  }

  lemma {:induction false} ElemsKeys(t: Tree, lo: int, hi: int)
    requires Between(t, lo, hi)
    ensures forall n :: n in Elems(t) ==> lo < n.key < hi
  {
    if t.T? {
      ElemsKeys(t.l, lo, t.n.key);
      ElemsKeys(t.r, t.n.key, hi);
    }
  }

  // Only the nodes of the tree matter for its wiring.
  lemma {:induction false} WiredOn(m: Memory, m': Memory, t: Tree)
    requires Wired(m, t)
    requires forall n :: n in Elems(t) && n in m ==> n in m' && m'[n] == m[n]
    ensures Wired(m', t)
  {
    if t.T? {
      WiredOn(m, m', t.l);
      WiredOn(m, m', t.r);
    }
  }

  lemma {:induction false} WiredElems(m: Memory, t: Tree)
    requires Wired(m, t)
    ensures forall n :: n in Elems(t) ==> n in m
  {
    if t.T? {
      WiredElems(m, t.l);
      WiredElems(m, t.r);
    }
  }
}
