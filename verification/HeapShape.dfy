// The nodes of heap-inl.h and how their links represent the slots of a complete binary tree.
module HeapShape {
  // uv_timer_t with its embedded struct heap_node.
  class Timer {
    // heap_node
    var left: Timer?
    var right: Timer?
    var parent: Timer?
    // read by timer_less_than
    var timeout: nat
    var startId: nat
    // the rest of the handle; callback 0 is NULL
    var repeat: nat
    var callback: nat
    var active: bool
    var hasRef: bool

    // uv_timer_init
    constructor ()
      ensures callback == 0 && repeat == 0 && !active && hasRef
    {
      left, right, parent, timeout, startId := null, null, null, 0, 0;
      repeat, callback, active, hasRef := 0, 0, false, true;
    }
  }

  datatype Cell = Cell(left: Timer?, right: Timer?, parent: Timer?)

  type Memory = map<Timer, Cell>

  ghost function Mem(s: set<Timer>): Memory
    reads s`left, s`right, s`parent
  {
    map n | n in s :: Cell(n.left, n.right, n.parent)
  }

  // Level order: slot 1 is the root, the children of slot p are 2p and 2p + 1.  Slot 0 holds null,
  // so that slot p / 2 is the parent of every slot.
  type Slots = seq<Timer?>

  function Kid(s: Slots, p: nat): Timer? {
    if p < |s| then s[p] else null
  }

  // No node is in two slots.
  ghost predicate OnePlace(s: Slots) {
    forall p, q :: 1 <= p < q < |s| ==> s[p] != s[q]
  }

  ghost predicate Filled(s: Slots) {
    |s| >= 1 && s[0] == null && forall p :: 1 <= p < |s| ==> s[p] != null
  }

  ghost predicate CellAt(m: Memory, s: Slots, p: nat)
    requires 1 <= p < |s|
  {
    s[p] != null && s[p] in m && m[s[p]] == Cell(Kid(s, 2 * p), Kid(s, 2 * p + 1), s[p / 2])
  }

  ghost predicate Linked(m: Memory, s: Slots, min: Timer?) {
    && Filled(s) && OnePlace(s) && min == Kid(s, 1)
    && forall p :: 1 <= p < |s| ==> CellAt(m, s, p)
  }

  function Swap(s: Slots, c: nat): Slots
    requires 2 <= c < |s|
  {
    s[c / 2 := s[c]][c := s[c / 2]]
  }

  // The other child of the same parent.
  function Twin(c: nat): nat
    requires c >= 2
  {
    if c % 2 == 0 then c + 1 else c - 1
  }

  // What heap_node_swap does to the links around parent == s[c / 2] and child == s[c].
  ghost predicate SwappedCells(m: Memory, m': Memory, s: Slots, c: nat)
    requires 2 <= c < |s|
  {
    var parent, child, sib, up := s[c / 2], s[c], Kid(s, Twin(c)), s[c / 4];
    var cl, cr := Kid(s, 2 * c), Kid(s, 2 * c + 1);
    && parent != null && child != null
    && (forall n :: n in m && n != parent && n != child && n != sib && n != up && n != cl && n != cr ==>
        n in m' && m'[n] == m[n])
    && parent in m' && m'[parent] == Cell(cl, cr, child)
    && child in m' && m'[child] == (if c % 2 == 0 then Cell(parent, sib, up) else Cell(sib, parent, up))
    && (sib != null ==> sib in m && sib in m' && m'[sib] == m[sib].(parent := child))
    && (cl != null ==> cl in m && cl in m' && m'[cl] == m[cl].(parent := parent))
    && (cr != null ==> cr in m && cr in m' && m'[cr] == m[cr].(parent := parent))
    && (up != null ==>
        up in m && up in m' && m'[up] == (if c / 2 % 2 == 0 then m[up].(left := child) else m[up].(right := child)))
  }

  // Seen from one slot: one of the two exchanged ...
  lemma {:induction false} SwappedPair(m: Memory, m': Memory, s: Slots, c: nat, min: Timer?)
    requires 2 <= c < |s| && Linked(m, s, min) && SwappedCells(m, m', s, c)
    ensures CellAt(m', Swap(s, c), c) && CellAt(m', Swap(s, c), c / 2)
  {
    assert CellAt(m, s, c) && CellAt(m, s, c / 2);
  }

  // ... the one above them ...
  lemma {:induction false} SwappedUp(m: Memory, m': Memory, s: Slots, c: nat, min: Timer?)
    requires 2 <= c < |s| && Linked(m, s, min) && SwappedCells(m, m', s, c)
    requires c >= 4
    ensures CellAt(m', Swap(s, c), c / 4)
  {
    assert CellAt(m, s, c / 4);
  }

  // ... the other child ...
  lemma {:induction false} SwappedTwin(m: Memory, m': Memory, s: Slots, c: nat, min: Timer?)
    requires 2 <= c < |s| && Linked(m, s, min) && SwappedCells(m, m', s, c)
    requires Twin(c) < |s|
    ensures CellAt(m', Swap(s, c), Twin(c))
  {
    assert CellAt(m, s, Twin(c));
  }

  // ... those below them ...
  lemma {:induction false} SwappedKid(m: Memory, m': Memory, s: Slots, c: nat, min: Timer?, p: nat)
    requires 2 <= c < |s| && Linked(m, s, min) && SwappedCells(m, m', s, c)
    requires p / 2 == c && p < |s|
    ensures CellAt(m', Swap(s, c), p)
  {
    assert CellAt(m, s, p);
  }

  // ... and all others.
  lemma {:induction false} SwappedFar(m: Memory, m': Memory, s: Slots, c: nat, min: Timer?, p: nat)
    requires 2 <= c < |s| && Linked(m, s, min) && SwappedCells(m, m', s, c)
    requires 1 <= p < |s| && p != c && p != c / 2 && p != c / 4 && p != Twin(c) && p / 2 != c
    ensures CellAt(m', Swap(s, c), p)
  {
    assert CellAt(m, s, p);
  }

  lemma {:induction false} Swapped(m: Memory, m': Memory, s: Slots, c: nat, min: Timer?, min': Timer?)
    requires 2 <= c < |s| && Linked(m, s, min) && SwappedCells(m, m', s, c)
    requires min' == if c / 2 == 1 then s[c] else min
    ensures Linked(m', Swap(s, c), min')
  {
    var s' := Swap(s, c);
    forall p | 1 <= p < |s'|
      ensures CellAt(m', s', p)
    {
      if p == c || p == c / 2 {
        SwappedPair(m, m', s, c, min);
      } else if p == c / 4 {
        SwappedUp(m, m', s, c, min);
      } else if p == Twin(c) {
        SwappedTwin(m, m', s, c, min);
      } else if p / 2 == c {
        SwappedKid(m, m', s, c, min, p);
      } else {
        SwappedFar(m, m', s, c, min, p);
      }
    }
  }

  // A node x hung into the first free slot.
  lemma {:induction false} Attached(m: Memory, m': Memory, s: Slots, x: Timer, min: Timer?, min': Timer?)
    requires Linked(m, s, min) && x !in m
    requires forall n :: n in m && n != s[|s| / 2] ==> n in m' && m'[n] == m[n]
    requires |s| >= 2 ==> var p := s[|s| / 2];
      p in m && p in m' && m'[p] == if |s| % 2 == 0 then m[p].(left := x) else m[p].(right := x)
    requires x in m' && m'[x] == Cell(null, null, if |s| == 1 then null else s[|s| / 2])
    requires min' == if |s| == 1 then x else min
    ensures Linked(m', s + [x], min')
  {
    var s' := s + [x];
    forall p | 1 <= p < |s'|
      ensures CellAt(m', s', p)
    {
      if p < |s| {
        assert CellAt(m, s, p);
      }
    }
    forall p | 1 <= p < |s|
      ensures s[p] != x
    {
      assert CellAt(m, s, p);
    }
  }

  // The last slot given up.
  lemma {:induction false} Detached(m: Memory, m': Memory, s: Slots, min: Timer?, min': Timer?)
    requires Linked(m, s, min) && |s| >= 2
    requires forall n :: n in m && n != s[(|s| - 1) / 2] ==> n in m' && m'[n] == m[n]
    requires |s| >= 3 ==> var p := s[(|s| - 1) / 2];
      p in m && p in m' && m'[p] == if (|s| - 1) % 2 == 0 then m[p].(left := null) else m[p].(right := null)
    requires min' == if |s| == 2 then null else min
    ensures Linked(m', s[..|s| - 1], min')
  {
    var s' := s[..|s| - 1];
    forall p | 1 <= p < |s'|
      ensures CellAt(m', s', p)
    {
      assert CellAt(m, s, p);
    }
  }

  // What heap_remove does to put x, no longer in the heap, in the place of slot i.
  ghost predicate ReplacedCells(m: Memory, m': Memory, s: Slots, i: nat, x: Timer)
    requires 1 <= i < |s|
  {
    var node, up, cl, cr := s[i], s[i / 2], Kid(s, 2 * i), Kid(s, 2 * i + 1);
    && (forall n :: n in m && n != x && n != node && n != up && n != cl && n != cr ==> n in m' && m'[n] == m[n])
    && x in m' && m'[x] == Cell(cl, cr, up)
    && (cl != null ==> cl in m && cl in m' && m'[cl] == m[cl].(parent := x))
    && (cr != null ==> cr in m && cr in m' && m'[cr] == m[cr].(parent := x))
    && (up != null ==> up in m && up in m' && m'[up] == (if i % 2 == 0 then m[up].(left := x) else m[up].(right := x)))
  }

  lemma {:induction false} Replaced(m: Memory, m': Memory, s: Slots, i: nat, x: Timer, min: Timer?, min': Timer?)
    requires Linked(m, s, min) && 1 <= i < |s| && x !in s && ReplacedCells(m, m', s, i, x)
    requires min' == if i == 1 then x else min
    ensures Linked(m', s[i := x], min')
  {
    var s' := s[i := x];
    forall p | 1 <= p < |s'|
      ensures CellAt(m', s', p)
    {
      assert CellAt(m, s, p);
      assert s[p] in s;
    }
  }
}
