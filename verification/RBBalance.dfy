// The red-black rules, on whole trees and on trees with a hole, and what the colour fixes do to them.
module RBBalance {
  import opened RBShape

  function Base(k: Ctx): (b: Ctx)
    ensures b.Top?
  {
    if k.Top? then k else Base(k.up)
  }

  function Plug(k: Ctx, t: Tree): Tree {
    match k
    case Top(_, _) => t
    case InL(up, n, c, r) => Plug(up, T(t, n, c, r))
    case InR(up, l, n, c) => Plug(up, T(l, n, c, t))
  }

  function Inorder(t: Tree): seq<Node> {
    match t
    case Leaf => []
    case T(l, n, _, r) => Inorder(l) + [n] + Inorder(r)
  }

  function Before(k: Ctx): seq<Node> {
    match k
    case Top(_, _) => []
    case InL(up, _, _, _) => Before(up)
    case InR(up, l, n, _) => Before(up) + Inorder(l) + [n]
  }

  function After(k: Ctx): seq<Node> {
    match k
    case Top(_, _) => []
    case InL(up, n, _, r) => [n] + Inorder(r) + After(up)
    case InR(up, _, _, _) => After(up)
  }

  function Flat(k: Ctx, t: Tree): seq<Node> {
    Before(k) + Inorder(t) + After(k)
  }

  lemma {:induction false} PlugFlat(k: Ctx, t: Tree)
    ensures Inorder(Plug(k, t)) == Flat(k, t)
  {
    if k.Top? {
      assert Flat(k, t) == Inorder(t);
    } else {
      FlatUp(k, t);
      PlugFlat(k.up, Close(k, t));
    }
  }

  lemma {:induction false} PlugAt(m: Memory, k: Ctx, t: Tree, root: Node?)
    requires At(m, k, t, root)
    ensures At(m, Base(k), Plug(k, t), root)
  {
    if !k.Top? {
      PlugAt(m, k.up, if k.InL? then T(t, k.n, k.c, k.r) else T(k.l, k.n, k.c, t), root);
    }
  }

  // Colours
  predicate IsRed(t: Tree) {
    t.T? && t.c.Red?
  }

  function Blacken(t: Tree): Tree {
    Paint(t, Black)
  }

  predicate OwnerRed(k: Ctx) {
    !k.Top? && k.c.Red?
  }

  function Step(c: Color): nat {
    if c.Black? then 1 else 0
  }

  function BH(t: Tree): nat {
    if t.Leaf? then 0 else BH(t.l) + Step(t.c)
  }

  predicate IsRB(t: Tree) {
    t.T? ==>
      && IsRB(t.l) && IsRB(t.r) && BH(t.l) == BH(t.r)
      && (t.c.Red? ==> !IsRed(t.l) && !IsRed(t.r))
  }

  function Other(k: Ctx): Tree
    requires !k.Top?
  {
    if k.InL? then k.r else k.l
  }

  // The context can take a red-black subtree of black height h at its hole.
  predicate CtxRB(k: Ctx, h: nat) {
    !k.Top? ==>
      && IsRB(Other(k)) && BH(Other(k)) == h
      && (k.c.Red? ==> !IsRed(Other(k)) && !k.up.Top? && k.up.c.Black?)
      && CtxRB(k.up, h + Step(k.c))
  }

  predicate Fits(k: Ctx, t: Tree) {
    IsRB(t) && CtxRB(k, BH(t)) && (OwnerRed(k) || k.Top? ==> !IsRed(t))
  }

  lemma {:induction false} PlugRB(k: Ctx, t: Tree)
    requires IsRB(t) && CtxRB(k, BH(t)) && (OwnerRed(k) ==> !IsRed(t))
    ensures IsRB(Plug(k, t))
    ensures !k.Top? ==> !IsRed(Plug(k, t))
    ensures !k.Top? || t.T? ==> Plug(k, t).T?
  {
    if !k.Top? {
      PlugRB(k.up, if k.InL? then T(t, k.n, k.c, k.r) else T(k.l, k.n, k.c, t));
    }
  }

  function Depth(k: Ctx): nat {
    if k.Top? then 0 else 1 + Depth(k.up)
  }

  // The subtree of the node just above the focus.
  function Close(k: Ctx, t: Tree): (r: Tree)
    requires !k.Top?
    ensures r.T?
  {
    if k.InL? then T(t, k.n, k.c, k.r) else T(k.l, k.n, k.c, t)
  }

  lemma {:induction false} Regroup<X>(a: seq<X>, b: seq<X>, c: seq<X>, d: seq<X>, e: seq<X>)
    ensures a + b + (c + d + e) == a + (b + c + d) + e == (a + b + c) + d + e
  {
  }

  lemma {:induction false} FlatUp(k: Ctx, t: Tree)
    requires !k.Top?
    ensures Flat(k, t) == Flat(k.up, Close(k, t))
  {
    if k.InL? {
      Regroup(Before(k.up), Inorder(t), [k.n], Inorder(k.r), After(k.up));
    } else {
      Regroup(Before(k.up), Inorder(k.l), [k.n], Inorder(t), After(k.up));
    }
  }

  lemma {:induction false} RotateFlat(k: Ctx, a: Tree, x: Node, xc: Color, b: Tree, y: Node, yc: Color, c: Tree,
          xc': Color, yc': Color)
    ensures Flat(k, T(a, x, xc, T(b, y, yc, c))) == Flat(k, T(T(a, x, xc', b), y, yc', c))
  {
    var i := Inorder(a) + [x] + Inorder(b) + [y] + Inorder(c);
    assert Inorder(T(a, x, xc, T(b, y, yc, c))) == i;
    assert Inorder(T(T(a, x, xc', b), y, yc', c)) == i;
  }

  // RB_INSERT_COLOR keeps this: a red focus that fits, except perhaps below a red node.
  predicate RedFocus(k: Ctx, t: Tree) {
    t.T? && t.c.Red? && IsRB(t) && CtxRB(k, BH(t))
  }

  lemma {:induction false} RedParent(k: Ctx, t: Tree)
    requires RedFocus(k, t) && OwnerRed(k)
    ensures !k.up.Top? && k.up.c.Black?
    ensures IsRB(Other(k)) && BH(Other(k)) == BH(t) && !IsRed(Other(k))
    ensures IsRB(Other(k.up)) && BH(Other(k.up)) == BH(t) && CtxRB(k.up.up, BH(t) + 1)
  {
    assert CtxRB(k.up, BH(t) + Step(Red));
  }

  // The uncle and the parent turn black, the grandparent red.
  function PushedDownAt(k: Ctx, p: Tree): (r: Tree)
    requires !k.Top?
    ensures r.T? && r.n == k.n
  {
    if k.InL? then T(Blacken(p), k.n, Red, Blacken(k.r)) else T(Blacken(k.l), k.n, Red, Blacken(p))
  }

  function PushedDown(k: Ctx, t: Tree): (r: Tree)
    requires !k.Top? && !k.up.Top?
    ensures r.T? && r.n == k.up.n
  {
    PushedDownAt(k.up, Close(k, t))
  }

  lemma {:induction false} UncleRed(k: Ctx, t: Tree)
    requires RedFocus(k, t) && OwnerRed(k) && !k.up.Top? && IsRed(Other(k.up))
    ensures var up, t' := k.up.up, PushedDown(k, t);
            RedFocus(up, t') && Depth(up) < Depth(k) && Base(up) == Base(k) && Flat(up, t') == Flat(k, t)
  {
    RedParent(k, t);
    FlatUp(k, t);
    FlatUp(k.up, Close(k, t));
    var p, u := Close(k, t), Other(k.up);
    assert Inorder(Blacken(p)) == Inorder(p);
    assert Inorder(Blacken(u)) == Inorder(u);
  }

  // Where the focus is once its parent has been rotated over its grandparent.
  function Lifted(k: Ctx): Ctx
    requires !k.Top? && !k.up.Top? && (k.InL? <==> k.up.InL?)
  {
    var up, g, u := k.up.up, k.up.n, Other(k.up);
    if k.InL? then InL(up, k.n, Black, T(k.r, g, Red, u)) else InR(up, T(u, g, Red, k.l), k.n, Black)
  }

  // The outer grandchild case after a possible first rotation.
  lemma {:induction false} Lift(k: Ctx, t: Tree)
    requires RedFocus(k, t) && OwnerRed(k) && !k.up.Top? && !IsRed(Other(k.up))
    requires k.InL? <==> k.up.InL?
    ensures var k' := Lifted(k);
            RedFocus(k', t) && Base(k') == Base(k) && Flat(k', t) == Flat(k, t) && Depth(k') < Depth(k)
  {
    RedParent(k, t);
    FlatUp(k, t);
    FlatUp(k.up, Close(k, t));
    var up, g, u := k.up.up, k.up.n, Other(k.up);
    if k.InL? {
      RotateFlat(up, t, k.n, Black, k.r, g, Red, u, k.c, k.up.c);
      FlatUp(InL(up, k.n, Black, T(k.r, g, Red, u)), t);
    } else {
      RotateFlat(up, u, g, Black, k.l, k.n, Red, t, Red, Black);
      FlatUp(InR(up, T(u, g, Red, k.l), k.n, Black), t);
    }
  }

  // The inner grandchild case: the first rotation turns it into the outer one.
  lemma {:induction false} Inner(k: Ctx, t: Tree)
    requires RedFocus(k, t) && OwnerRed(k) && !k.up.Top? && !(k.InL? <==> k.up.InL?)
    ensures var k' := if k.InR? then InL(k.up, t.n, Red, t.r) else InR(k.up, t.l, t.n, Red);
            var t' := if k.InR? then T(k.l, k.n, Red, t.l) else T(t.r, k.n, Red, k.r);
            RedFocus(k', t') && Base(k') == Base(k) && Flat(k', t') == Flat(k, t) && Depth(k') == Depth(k)
  {
    FlatUp(k, t);
    if k.InR? {
      RotateFlat(k.up, k.l, k.n, Red, t.l, t.n, Red, t.r, Red, Red);
      FlatUp(InL(k.up, t.n, Red, t.r), T(k.l, k.n, Red, t.l));
    } else {
      RotateFlat(k.up, t.l, t.n, Red, t.r, k.n, Red, k.r, Red, Red);
      FlatUp(InR(k.up, t.l, t.n, Red), T(t.r, k.n, Red, k.r));
    }
  }

  // The finished tree, its root painted black.
  lemma {:induction false} Finished(m: Memory, k: Ctx, t: Tree, root: Node?)
    requires At(m, k, t, root) && IsRB(t) && CtxRB(k, BH(t)) && !OwnerRed(k) && t.T?
    ensures var d := Plug(k, t);
            At(m, Base(k), d, root) && d.T? && root == d.n && IsRB(Blacken(d)) && Inorder(Blacken(d)) == Flat(k, t)
  {
    PlugAt(m, k, t, root);
    PlugFlat(k, t);
    PlugRB(k, t);
  }

  ghost function Elems(t: Tree): set<Node> {
    if t.Leaf? then {} else Elems(t.l) + {t.n} + Elems(t.r)
  }

  ghost predicate Ascending(s: seq<Node>) {
    forall i, j :: 0 <= i < j < |s| ==> s[i].key < s[j].key
  }

  lemma {:induction false} Widen(t: Tree, lo: int, hi: int, lo': int, hi': int)
    requires Between(t, lo, hi) && lo' <= lo && hi <= hi'
    ensures Between(t, lo', hi')
  {
    if t.T? {
      Widen(t.l, lo, t.n.key, lo', t.n.key);
      Widen(t.r, t.n.key, hi, t.n.key, hi');
    }
  }

  lemma {:induction false} InorderKeys(t: Tree, lo: int, hi: int)
    requires Between(t, lo, hi)
    ensures forall n :: n in Inorder(t) ==> lo < n.key < hi
    ensures Ascending(Inorder(t))
  {
    if t.T? {
      InorderKeys(t.l, lo, t.n.key);
      InorderKeys(t.r, t.n.key, hi);
    }
  }

  lemma {:induction false} OutsideKeys(k: Ctx)
    requires Around(k)
    ensures forall n :: n in Before(k) ==> n.key <= Lo(k)
    ensures forall n :: n in After(k) ==> Hi(k) <= n.key
  {
    match k
    case Top(_, _) =>
    case InL(up, n, _, r) =>
      OutsideKeys(up);
      InorderKeys(r, n.key, Hi(up));
    case InR(up, l, n, _) =>
      OutsideKeys(up);
      InorderKeys(l, Lo(up), n.key);
  }

  lemma {:induction false} InorderWired(m: Memory, t: Tree, p: Node?)
    requires Wired(m, t, p)
    ensures forall n :: n in Inorder(t) ==> n in m
  {
    if t.T? {
      InorderWired(m, t.l, t.n);
      InorderWired(m, t.r, t.n);
    }
  }

  // A new leaf node hung into an empty hole.
  lemma {:induction false} Hung(m: Memory, m': Memory, k: Ctx, x: Node, root: Node?, root': Node?)
    requires At(m, k, Leaf, root) && Lo(k) < x.key < Hi(k)
    requires forall n :: n in m && n != x && n != Owner(k) ==> n in m' && m'[n] == m[n]
    requires OwnerRelinked(m, m', k, x, root, root')
    requires x in m' && m'[x] == Cell(null, null, Owner(k), Red)
    ensures At(m', k, T(Leaf, x, Red, Leaf), root')
  {
    RelinkedWired(m, m', k, null, x, root, root');
  }

  lemma {:induction false} UnplugRB(k: Ctx, t: Tree)
    requires IsRB(Plug(k, t)) && !IsRed(Plug(k, t))
    ensures Fits(k, t)
  {
    if !k.Top? {
      UnplugRB(k.up, Close(k, t));
    }
  }

  ghost function SetOf(s: seq<Node>): set<Node> {
    set n | n in s
  }

  lemma {:induction false} ElemsInorder(t: Tree)
    ensures Elems(t) == SetOf(Inorder(t))
  {
    if t.T? {
      ElemsInorder(t.l);
      ElemsInorder(t.r);
    }
  }

  // A key that fits an empty hole of the tree is not in the tree.
  lemma {:induction false} Absent(k: Ctx, x: Node)
    requires Around(k) && Lo(k) < x.key < Hi(k)
    ensures forall n :: n in Elems(Plug(k, Leaf)) ==> n.key != x.key
  {
    PlugFlat(k, Leaf);
    OutsideKeys(k);
    ElemsInorder(Plug(k, Leaf));
  }

  lemma {:induction false} Grown(k: Ctx, x: Node, c: Color, d: Tree)
    requires Inorder(d) == Flat(k, T(Leaf, x, c, Leaf))
    ensures Elems(d) == Elems(Plug(k, Leaf)) + {x}
  {
    PlugFlat(k, Leaf);
    ElemsInorder(Plug(k, Leaf));
    ElemsInorder(d);
    assert Inorder(T(Leaf, x, c, Leaf)) == [x];
  }

  lemma {:induction false} FocusIn(k: Ctx, t: Tree)
    requires t.T?
    ensures t.n in Elems(Plug(k, t))
  {
    PlugFlat(k, t);
    assert t.n in Inorder(t);
    ElemsInorder(Plug(k, t));
  }

  // RB_REMOVE_COLOR keeps this: the focus is one black node short of what its hole asks for.
  predicate Short(k: Ctx, t: Tree) {
    IsRB(Blacken(t)) && CtxRB(k, BH(t) + 1)
  }

  // The hole on the other side of the node above the focus.
  function Across(k: Ctx, t: Tree): (k': Ctx)
    requires !k.Top?
    ensures !k'.Top? && Close(k', Other(k)) == Close(k, t) && k'.up == k.up && Other(k') == t
  {
    if k.InL? then InR(k.up, t, k.n, k.c) else InL(k.up, k.n, k.c, t)
  }

  lemma {:induction false} ShortFacts(k: Ctx, t: Tree)
    requires Short(k, t) && !k.Top?
    ensures IsRB(Other(k)) && BH(Other(k)) == BH(t) + 1 && Other(k).T?
    ensures CtxRB(k.up, BH(t) + 1 + Step(k.c))
    ensures k.c.Red? ==> !IsRed(Other(k)) && !k.up.Top? && !OwnerRed(k.up)
  {
  }

  // A red sibling: one rotation gives the focus a black one.
  function SiblingRaised(k: Ctx): Ctx
    requires !k.Top? && Other(k).T?
  {
    var w := Other(k);
    if k.InL? then InL(InL(k.up, w.n, Black, w.r), k.n, Red, w.l) else InR(InR(k.up, w.l, w.n, Black), w.r, k.n, Red)
  }

  lemma {:induction false} SiblingRed(k: Ctx, t: Tree)
    requires Short(k, t) && !k.Top? && !IsRed(t) && IsRed(Other(k))
    ensures var k' := SiblingRaised(k);
            Short(k', t) && !IsRed(Other(k')) && Base(k') == Base(k) && Flat(k', t) == Flat(k, t)
  {
    ShortFacts(k, t);
    var w := Other(k);
    var k' := SiblingRaised(k);
    FlatUp(k, t);
    FlatUp(k', t);
    FlatUp(k'.up, Close(k', t));
    if k.InL? {
      RotateFlat(k.up, t, k.n, k.c, w.l, w.n, w.c, w.r, Red, Black);
    } else {
      RotateFlat(k.up, w.l, w.n, Black, w.r, k.n, Red, t, w.c, k.c);
    }
  }

  // Both nephews black: paint the sibling red and pass the shortage up.
  function SiblingPainted(k: Ctx, t: Tree): (r: Tree)
    requires !k.Top? && Other(k).T?
    ensures r.T?
  {
    var w := Paint(Other(k), Red);
    if k.InL? then T(t, k.n, k.c, w) else T(w, k.n, k.c, t)
  }

  lemma {:induction false} NephewsBlack(k: Ctx, t: Tree)
    requires Short(k, t) && !k.Top? && !IsRed(t) && !IsRed(Other(k)) && Other(k).T?
    requires !IsRed(Other(k).l) && !IsRed(Other(k).r)
    ensures Short(k.up, SiblingPainted(k, t)) && Flat(k.up, SiblingPainted(k, t)) == Flat(k, t)
  {
    ShortFacts(k, t);
    FlatUp(k, t);
    assert Inorder(Paint(Other(k), Red)) == Inorder(Other(k));
  }

  // Only the nephew next to the focus is red: rotate it to the far side.
  function NearRaised(k: Ctx): Ctx
    requires !k.Top? && Other(k).T? && (if k.InL? then Other(k).l.T? else Other(k).r.T?)
  {
    var w := Other(k);
    if k.InL?
    then WithOther(k, T(w.l.l, w.l.n, Black, T(w.l.r, w.n, Red, w.r)))
    else WithOther(k, T(T(w.l, w.n, Red, w.r.l), w.r.n, Black, w.r.r))
  }

  lemma {:induction false} NearRed(k: Ctx, t: Tree)
    requires Short(k, t) && !k.Top? && !IsRed(Other(k)) && Other(k).T?
    requires if k.InL? then IsRed(Other(k).l) && !IsRed(Other(k).r) else IsRed(Other(k).r) && !IsRed(Other(k).l)
    ensures Short(NearRaised(k), t) && Flat(NearRaised(k), t) == Flat(k, t)
  {
    ShortFacts(k, t);
    var w := Other(k);
    var k' := NearRaised(k);
    FlatUp(Across(k, t), w);
    FlatUp(Across(k', t), Other(k'));
    FlatUp(k, t);
    FlatUp(k', t);
    if k.InL? {
      RotateFlat(Across(k, t), w.l.l, w.l.n, Black, w.l.r, w.n, Red, w.r, w.l.c, w.c);
    } else {
      RotateFlat(Across(k, t), w.l, w.n, w.c, w.r.l, w.r.n, w.r.c, w.r.r, Red, Black);
    }
  }

  // The far nephew is red: one rotation makes up for the missing black node.
  function FarRaised(k: Ctx, t: Tree): Tree
    requires !k.Top? && Other(k).T?
  {
    var w := Other(k);
    if k.InL?
    then T(T(t, k.n, Black, w.l), w.n, k.c, Blacken(w.r))
    else T(Blacken(w.l), w.n, k.c, T(w.r, k.n, Black, t))
  }

  lemma {:induction false} FarRed(k: Ctx, t: Tree)
    requires Short(k, t) && !k.Top? && !IsRed(t) && !IsRed(Other(k)) && Other(k).T?
    requires if k.InL? then IsRed(Other(k).r) else IsRed(Other(k).l)
    ensures var d := FarRaised(k, t);
            Fits(k.up, d) && Flat(k.up, d) == Flat(k, t)
  {
    ShortFacts(k, t);
    var w := Other(k);
    FlatUp(k, t);
    if k.InL? {
      RotateFlat(k.up, t, k.n, k.c, w.l, w.n, w.c, w.r, Black, k.c);
      assert Inorder(FarRaised(k, t)) == Inorder(T(T(t, k.n, Black, w.l), w.n, k.c, w.r));
    } else {
      RotateFlat(k.up, w.l, w.n, k.c, w.r, k.n, Black, t, w.c, k.c);
      assert Inorder(FarRaised(k, t)) == Inorder(T(w.l, w.n, k.c, T(w.r, k.n, Black, t)));
    }
  }

  function WithOther(k: Ctx, w: Tree): (k': Ctx)
    requires !k.Top?
    ensures (k'.InL? <==> k.InL?) && (k'.InR? <==> k.InR?)
    ensures Other(k') == w && k'.up == k.up && k'.n == k.n && k'.c == k.c
  {
    match k
    case InL(up, n, c, _) => InL(up, n, c, w)
    case InR(up, _, n, c) => InR(up, w, n, c)
  }

  lemma {:induction false} Crossed(m: Memory, k: Ctx, t: Tree, root: Node?)
    requires !k.Top? && At(m, k, t, root)
    ensures At(m, Across(k, t), Other(k), root)
  {
    Zip(m, k, t, root);
    Zip(m, Across(k, t), Other(k), root);
  }

  // What the memory holds at the sibling of the focus and at its children.
  lemma {:induction false} SiblingFacts(m: Memory, k: Ctx, t: Tree, root: Node?)
    requires At(m, k, t, root) && !k.Top? && Other(k).T?
    ensures var w := Other(k);
            && w.n in m && m[w.n] == Cell(Root(w.l), Root(w.r), k.n, w.c)
            && (w.l.T? ==> w.l.n in m && m[w.l.n].color == w.l.c)
            && (w.r.T? ==> w.r.n in m && m[w.r.n].color == w.r.c)
    ensures k.n in m && (if k.InL? then m[k.n].right == Root(k.r) else m[k.n].left == Root(k.l))
  {
    var w := Other(k);
    assert Wired(m, w, k.n);
    assert Wired(m, w.l, w.n) && Wired(m, w.r, w.n);
  }

  // The root of a tree seen from below is not the focus.
  lemma {:induction false} RootAbove(m: Memory, k: Ctx, x: Node?, root: Node?)
    requires CtxWired(m, k, x, root) && Around(k) && !k.Top?
    ensures root != null && !(Lo(k) < root.key < Hi(k))
  {
    if !k.up.Top? {
      RootAbove(m, k.up, k.n, root);
    }
  }

  lemma {:induction false} Mended(m: Memory, k: Ctx, t: Tree, root: Node?)
    requires At(m, k, Blacken(t), root) && IsRB(Blacken(t)) && (k.Top? || (Short(k, t) && IsRed(t)))
    ensures var d := Plug(k, Blacken(t));
            At(m, Base(k), d, root) && IsRB(d) && !IsRed(d) && Inorder(d) == Flat(k, t)
  {
    PlugAt(m, k, Blacken(t), root);
    PlugFlat(k, Blacken(t));
    PlugRB(k, Blacken(t));
    assert Inorder(Blacken(t)) == Inorder(t);
  }

  // The whole tree once nothing is missing any more.
  lemma {:induction false} Settled(m: Memory, k: Ctx, t: Tree, root: Node?)
    requires At(m, k, t, root) && Fits(k, t) && t.T?
    ensures var d := Plug(k, t);
            At(m, Base(k), d, root) && d.T? && root == d.n && IsRB(Blacken(d)) && Flat(Base(k), d) == Flat(k, t)
  {
    PlugAt(m, k, t, root);
    PlugFlat(k, t);
    PlugRB(k, t);
    assert Flat(Base(k), Plug(k, t)) == Inorder(Plug(k, t));
  }
}
