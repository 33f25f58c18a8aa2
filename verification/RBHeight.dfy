module RBHeight {
  // The two bounds promised for red-black trees: equal black counts on all paths and logarithmic height.

  import opened Basics
  import opened RBShape
  import opened RBBalance
  import RBTree

  // p lists the colours met on one way from the root of t down to a missing child.
  predicate IsPath(t: Tree, p: seq<Color>) {
    if t.Leaf? then p == [] else p != [] && p[0] == t.c && (IsPath(t.l, p[1..]) || IsPath(t.r, p[1..]))
  }

  function Blacks(p: seq<Color>): nat {
    if p == [] then 0 else Step(p[0]) + Blacks(p[1..])
  }

  function Height(t: Tree): nat {
    if t.Leaf? then 0 else 1 + if Height(t.l) < Height(t.r) then Height(t.r) else Height(t.l)
  }

  lemma {:induction false} EqualBlacks(t: Tree, p: seq<Color>)
    requires IsRB(t) && IsPath(t, p)
    ensures Blacks(p) == BH(t)
  {
    if t.T? {
      if IsPath(t.l, p[1..]) {
        EqualBlacks(t.l, p[1..]);
      } else {
        EqualBlacks(t.r, p[1..]);
      }
    }
  }

  lemma {:induction false} Balanced(t: Tree)
    requires IsRB(t)
    ensures Height(t) <= 2 * BH(t) + if IsRed(t) then 1 else 0
    ensures Pow2(BH(t)) <= |Inorder(t)| + 1
  {
    if t.T? {
      Balanced(t.l);
      Balanced(t.r);
    }
  }

  lemma {:induction false} Pow2Double(n: nat)
    ensures Pow2(2 * n) == Pow2(n) * Pow2(n)
  {
    if n > 0 {
      Pow2Double(n - 1);
      assert Pow2(2 * n) == 2 * Pow2(2 * n - 1) == 4 * Pow2(2 * (n - 1));
    }
  }

  lemma {:induction false} Pow2Monotone(a: nat, b: nat)
    requires a <= b
    ensures Pow2(a) <= Pow2(b)
    decreases b
  {
    if a < b {
      Pow2Monotone(a, b - 1);
    }
  }

  lemma {:induction false} Square(a: nat, b: nat)
    requires a <= b
    ensures a * a <= b * b
  {
    assert b * b - a * a == (b - a) * (b + a);
  }

  // height <= 2 lg(n + 1), with the logarithm taken to the other side.
  lemma {:induction false} HeightBound(t: Tree)
    requires IsRB(t) && !IsRed(t)
    ensures var n := |Inorder(t)|; Pow2(Height(t)) <= (n + 1) * (n + 1)
  {
    var b, n := Pow2(BH(t)), |Inorder(t)|;
    Balanced(t);
    Pow2Monotone(Height(t), 2 * BH(t));
    Pow2Double(BH(t));
    Square(b, n + 1);
  }

  lemma {:induction false} SetSize(s: seq<Node>)
    requires Ascending(s)
    ensures |SetOf(s)| == |s|
  {
    if s != [] {
      var n := |s| - 1;
      SetSize(s[..n]);
      assert s[n] !in s[..n];
      assert SetOf(s) == SetOf(s[..n]) + {s[n]};
    }
  }

  // So the tree behind every head is logarithmic in the number of its nodes.
  lemma {:induction false} HeadHeight(h: RBTree.Head)
    requires h.Valid()
    ensures var n := |h.nodes|; Pow2(Height(h.shape)) <= (n + 1) * (n + 1)
    ensures forall p :: IsPath(h.shape, p) ==> Blacks(p) == BH(h.shape)
  {
    ElemsInorder(h.shape);
    InorderKeys(h.shape, h.lo, h.hi);
    SetSize(Inorder(h.shape));
    HeightBound(h.shape);
    forall p | IsPath(h.shape, p)
      ensures Blacks(p) == BH(h.shape)
    {
      EqualBlacks(h.shape, p);
    }
  }
}
