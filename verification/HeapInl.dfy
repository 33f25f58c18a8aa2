// The pointer-linked binary heap of heap-inl.h, ordered by timer_less_than of timer.c.
module HeapInl {
  import opened HeapShape
  import opened HeapOrder
  import opened HeapPath

  // struct heap_node**: the place a link is stored in.
  datatype Place = MinPlace | LeftOf(node: Timer) | RightOf(node: Timer)

  class Heap {
    var min: Timer?
    var nelts: nat
    ghost var slots: Slots
    ghost var nodes: set<Timer>

    ghost predicate Valid()
      reads this, nodes`left, nodes`right, nodes`parent, nodes`timeout, nodes`startId
    {
      && Linked(Mem(nodes), slots, min) && Ordered(KeysOf(nodes), slots)
      && nelts == |slots| - 1 && nelts < UINT_LIMIT
      && (forall n :: n in nodes ==> n in slots)
    }

    // heap_init
    constructor ()
      ensures Valid() && nodes == {}
    {
      min, nelts := null, 0;
      slots, nodes := [null], {};
    }

    // heap_node_swap: child moves closer to the root, parent moves away.
    method SwapLinks(parent: Timer, child: Timer, ghost sib: Timer?, ghost up: Timer?, ghost cl: Timer?,
            ghost cr: Timer?, ghost left: bool, ghost upLeft: bool)
      requires parent.parent == up && child.parent == parent && child.left == cl && child.right == cr
      requires if left then parent.left == child && parent.right == sib else parent.left == sib && parent.right == child
      requires up != null ==> if upLeft then up.left == parent else up.right == parent && up.left != parent
      requires parent != child && sib != child && sib != parent && up != parent && up != child
      requires cl != parent && cl != child && cr != parent && cr != child
      requires (sib != null ==> sib != up && sib != cl && sib != cr) && (up != null ==> up != cl && up != cr)
      requires cl != null ==> cl != cr
      modifies `min
      modifies parent`left, parent`right, parent`parent, child`left, child`right, child`parent
      modifies (if sib == null then {} else {sib})`parent
      modifies (if cl == null then {} else {cl})`parent, (if cr == null then {} else {cr})`parent
      modifies (if up == null then {} else {up})`left, (if up == null then {} else {up})`right
      ensures min == if up == null then child else old(min)
      ensures parent.left == cl && parent.right == cr && parent.parent == child
      ensures child.parent == up
      ensures if left then child.left == parent && child.right == sib else child.left == sib && child.right == parent
      ensures sib != null ==> sib.parent == child
      ensures cl != null ==> cl.parent == parent
      ensures cr != null ==> cr.parent == parent
      ensures up != null ==>
        up.left == (if upLeft then child else old(up.left)) && up.right == (if upLeft then old(up.right) else child)
    {
      var l, r, p := parent.left, parent.right, parent.parent;
      parent.left, parent.right, parent.parent := child.left, child.right, child.parent;
      child.left, child.right, child.parent := l, r, p;

      parent.parent := child;
      var sibling;
      if child.left == child {
        child.left := parent;
        sibling := child.right;
      } else {
        child.right := parent;
        sibling := child.left;
      }
      if sibling != null {
        sibling.parent := child;
      }
      if parent.left != null {
        parent.left.parent := parent;
      }
      if parent.right != null {
        parent.right.parent := parent;
      }
      RelinkAbove(parent, child, up, upLeft);
    }

    // The link that led to old now leads to child.
    method RelinkAbove(was: Timer, child: Timer, ghost up: Timer?, ghost upLeft: bool)
      requires child.parent == up && up != child
      requires up != null ==> if upLeft then up.left == was else up.right == was && up.left != was
      modifies `min
      modifies (if up == null then {} else {up})`left, (if up == null then {} else {up})`right
      ensures min == if up == null then child else old(min)
      ensures up != null ==>
                && up.left == (if upLeft then child else old(up.left))
                && up.right == (if upLeft then old(up.right) else child)
    {
      if child.parent == null {
        min := child;
      } else if child.parent.left == was {
        child.parent.left := child;
      } else {
        child.parent.right := child;
      }
    }

    method SwapCells(parent: Timer, child: Timer, ghost s: set<Timer>, ghost slots: Slots, ghost c: nat)
      requires Linked(Mem(s), slots, min) && 2 <= c < |slots| && slots[c] == child && slots[c / 2] == parent
      modifies `min, s`left, s`right, s`parent
      ensures SwappedCells(old(Mem(s)), Mem(s), slots, c)
      ensures min == if c / 2 == 1 then child else old(min)
    {
      ghost var m := Mem(s);
      SwapFacts(m, slots, c, min);
      ghost var sib, up, cl, cr := Kid(slots, Twin(c)), slots[c / 4], Kid(slots, 2 * c), Kid(slots, 2 * c + 1);
      SwapLinks(parent, child, sib, up, cl, cr, c % 2 == 0, c / 2 % 2 == 0);
      ghost var m' := Mem(s);
      forall n | n in s && n != parent && n != child && n != sib && n != up && n != cl && n != cr
        ensures m'[n] == m[n]
      {
      }
      assert m'[parent] == Cell(cl, cr, child);
      assert m'[child] == if c % 2 == 0 then Cell(parent, sib, up) else Cell(sib, parent, up);
      assert up != null ==> m'[up] == if c / 2 % 2 == 0 then m[up].(left := child) else m[up].(right := child);
    }

    method NodeSwap(parent: Timer, child: Timer, ghost s: set<Timer>, ghost slots: Slots, ghost c: nat)
      requires Linked(Mem(s), slots, min) && 2 <= c < |slots| && slots[c] == child && slots[c / 2] == parent
      modifies `min, s`left, s`right, s`parent
      ensures Linked(Mem(s), Swap(slots, c), min)
    {
      ghost var m, min0 := Mem(s), min;
      SwapCells(parent, child, s, slots, c);
      Swapped(m, Mem(s), slots, c, min0, min);
    }

    function Deref(p: Place): Timer?
      reads this, if p.MinPlace? then {} else {p.node}
    {
      match p
      case MinPlace => min
      case LeftOf(n) => n.left
      case RightOf(n) => n.right
    }

    method Store(p: Place, x: Timer?)
      modifies `min, (if p.LeftOf? then {p.node} else {})`left, (if p.RightOf? then {p.node} else {})`right
      ensures min == if p.MinPlace? then x else old(min)
      ensures p.LeftOf? ==> p.node.left == x
      ensures p.RightOf? ==> p.node.right == x
    {
      match p
      case MinPlace => min := x;
      case LeftOf(n) => n.left := x;
      case RightOf(n) => n.right := x;
    }

    lemma {:induction false} DerefPlace(s: set<Timer>, slots: Slots, q: nat)
      requires Linked(Mem(s), slots, min) && 1 <= q <= |slots|
      ensures Deref(PlaceOf(slots, q)) == Kid(slots, q)
    {
      if q >= 2 {
        assert CellAt(Mem(s), slots, q / 2);
      }
    }

    // The walk along the path: it ends at the place of slot n.
    method Walk(n: nat, path0: nat, k0: nat, ghost s: set<Timer>, ghost slots: Slots)
      returns (parent: Place, child: Place)
      requires Linked(Mem(s), slots, min) && 1 <= n <= |slots|
      requires Shr(n, k0) == 1 && path0 == Rev(n, k0)
      ensures child == PlaceOf(slots, n) && (if n == 1 then parent == MinPlace else parent == PlaceOf(slots, n / 2))
    {
      var path, k := path0, k0;
      parent, child := MinPlace, MinPlace;
      while k > 0
        invariant 1 <= Shr(n, k) <= n && path == Rev(n, k)
        invariant child == PlaceOf(slots, Shr(n, k))
        invariant if Shr(n, k) == 1 then parent == MinPlace else parent == PlaceOf(slots, Shr(n, k) / 2)
      {
        ghost var q := Shr(n, k);
        assert Shr(n, k - 1) == 2 * q + path % 2;
        ShrBound(n, k - 1);
        DerefPlace(s, slots, q);
        parent := child;
        if path % 2 == 1 {
          child := RightOf(Deref(child));
        } else {
          child := LeftOf(Deref(child));
        }
        path := path / 2;
        k := k - 1;
      }
    }

    // Put newnode, still unrelated to the heap, into the first free slot.
    method Attach(newnode: Timer, ghost s: set<Timer>, ghost slots: Slots, parent: Place, child: Place)
      requires Linked(Mem(s), slots, min) && newnode !in s
      requires child == PlaceOf(slots, |slots|)
      requires if |slots| == 1 then parent == MinPlace else parent == PlaceOf(slots, |slots| / 2)
      requires newnode.left == null && newnode.right == null
      modifies `min, newnode`parent, s`left, s`right
      ensures Linked(Mem(s + {newnode}), slots + [newnode], min)
    {
      ghost var n, m, min0 := |slots|, Mem(s), min;
      DerefPlace(s, slots, if n == 1 then 1 else n / 2);
      assert n >= 2 ==> CellAt(m, slots, n / 2);
      newnode.parent := Deref(parent);
      Store(child, newnode);
      Attached(m, Mem(s + {newnode}), slots, newnode, min0, min);
    }

    // Walk up while the node at slot i is less than its parent.
    method SiftUp(node: Timer, ghost s: set<Timer>, ghost slots0: Slots, ghost i0: nat) returns (ghost slots: Slots)
      requires Linked(Mem(s), slots0, min) && 1 <= i0 < |slots0| && slots0[i0] == node
      requires OrderedBut(KeysOf(s), slots0, i0) && ChildrenOrdered(KeysOf(s), slots0, i0)
      modifies `min, s`left, s`right, s`parent
      ensures Linked(Mem(s), slots, min) && Ordered(KeysOf(s), slots)
      ensures SameNodes(slots0, slots)
    {
      ghost var i, k := i0, KeysOf(s);
      slots := slots0;
      while node.parent != null && Less(node, node.parent)
        invariant Linked(Mem(s), slots, min) && 1 <= i < |slots| && slots[i] == node && KeysOf(s) == k
        invariant OrderedBut(k, slots, i) && ChildrenOrdered(k, slots, i)
        invariant SameNodes(slots0, slots)
        decreases i
      {
        assert CellAt(Mem(s), slots, i) && (i >= 2 ==> CellAt(Mem(s), slots, i / 2));
        SiftedUp(k, slots, i);
        SwapSame(slots, i);
        NodeSwap(node.parent, node, s, slots, i);
        slots := Swap(slots, i);
        i := i / 2;
      }
      assert CellAt(Mem(s), slots, i) && (i >= 2 ==> CellAt(Mem(s), slots, i / 2));
      SiftDone(k, slots, i);
    }

    // The first half of heap_insert: newnode becomes the last slot.
    method Append(newnode: Timer, ghost s: set<Timer>, ghost slots: Slots)
      requires Linked(Mem(s), slots, min) && nelts == |slots| - 1
      requires newnode !in s && nelts + 1 < UINT_LIMIT
      modifies `min, `nelts, newnode`left, newnode`right, newnode`parent, s`left, s`right, s`parent
      ensures Linked(Mem(s + {newnode}), slots + [newnode], min) && nelts == old(nelts) + 1
    {
      newnode.left, newnode.right, newnode.parent := null, null, null;
      var path, k := ComputePath(1 + nelts);
      var parent, child := Walk(1 + nelts, path, k, s, slots);
      Attach(newnode, s, slots, parent, child);
      nelts := nelts + 1;
    }

    method Add(newnode: Timer, ghost s: set<Timer>, ghost slots: Slots) returns (ghost slots': Slots)
      requires Linked(Mem(s), slots, min) && Ordered(KeysOf(s), slots) && nelts == |slots| - 1
      requires newnode !in s && nelts + 1 < UINT_LIMIT
      modifies `min, `nelts, newnode`left, newnode`right, newnode`parent, s`left, s`right, s`parent
      ensures Linked(Mem(s + {newnode}), slots', min) && Ordered(KeysOf(s + {newnode}), slots')
      ensures nelts == old(nelts) + 1 && SameNodes(slots + [newnode], slots')
    {
      ghost var s', k := s + {newnode}, KeysOf(s);
      SlotsIn(Mem(s), slots, min);
      Append(newnode, s, slots);
      Appended(k, KeysOf(s'), slots, newnode);
      slots' := SiftUp(newnode, s', slots + [newnode], |slots|);
    }

    method Insert(newnode: Timer)
      requires Valid() && newnode !in nodes && nelts + 1 < UINT_LIMIT
      modifies this, newnode`left, newnode`right, newnode`parent, nodes`left, nodes`right, nodes`parent
      ensures Valid() && nodes == old(nodes) + {newnode} && nelts == old(nelts) + 1
    {
      ghost var s := nodes + {newnode};
      ghost var slots' := Add(newnode, nodes, slots);
      ghost var m, k' := Mem(s), KeysOf(s);
      nodes, slots := s, slots';
      assert Mem(nodes) == m && KeysOf(nodes) == k';
    }

    // The smaller child of child if that is less than child itself.
    method LeastBelow(child: Timer, ghost s: set<Timer>, ghost slots: Slots, ghost i: nat)
      returns (smallest: Timer, ghost c: nat)
      requires Linked(Mem(s), slots, min) && 1 <= i < |slots| && slots[i] == child
      ensures smallest == child ==> ChildrenOrdered(KeysOf(s), slots, i)
      ensures smallest != child ==>
                && 2 <= c < |slots| && c / 2 == i && slots[c] == smallest
                && LessKey(KeyOf(KeysOf(s), smallest), KeyOf(KeysOf(s), child))
                && (Twin(c) < |slots| ==> NotBelow(KeysOf(s), slots, Twin(c), c))
    {
      ghost var m := Mem(s);
      assert CellAt(m, slots, i) && (2 * i < |slots| ==> CellAt(m, slots, 2 * i));
      assert 2 * i + 1 < |slots| ==> CellAt(m, slots, 2 * i + 1);
      smallest := child;
      c := i;
      if child.left != null && Less(child.left, smallest) {
        smallest := child.left;
        c := 2 * i;
      }
      if child.right != null && Less(child.right, smallest) {
        smallest := child.right;
        c := 2 * i + 1;
      }
    }

    // Walk down while some child of the node at slot i is less than it.
    method SiftDown(child: Timer, ghost s: set<Timer>, ghost slots0: Slots, ghost i0: nat)
      returns (ghost slots: Slots, ghost i: nat)
      requires Linked(Mem(s), slots0, min) && 1 <= i0 < |slots0| && slots0[i0] == child
      requires OrderedBut(KeysOf(s), slots0, i0)
      modifies `min, s`left, s`right, s`parent
      ensures Linked(Mem(s), slots, min) && SameNodes(slots0, slots)
      ensures 1 <= i < |slots| && slots[i] == child
      ensures OrderedBut(KeysOf(s), slots, i) && ChildrenOrdered(KeysOf(s), slots, i)
    {
      ghost var k := KeysOf(s);
      i := i0;
      slots := slots0;
      while true
        invariant Linked(Mem(s), slots, min) && 1 <= i < |slots| && slots[i] == child && KeysOf(s) == k
        invariant OrderedBut(k, slots, i)
        invariant SameNodes(slots0, slots)
        decreases |slots| - i
      {
        var smallest;
        ghost var c;
        smallest, c := LeastBelow(child, s, slots, i);
        if smallest == child {
          break;
        }
        SiftedDown(k, slots, i, c);
        SwapSame(slots, c);
        NodeSwap(child, smallest, s, slots, c);
        slots := Swap(slots, c);
        i := c;
      }
    }

    // Unlink the last slot.
    method DropLast(ghost s: set<Timer>, ghost slots: Slots) returns (child: Timer)
      requires Linked(Mem(s), slots, min) && nelts == |slots| - 1 && 1 <= nelts < UINT_LIMIT
      modifies `min, `nelts, s`left, s`right
      ensures nelts == old(nelts) - 1 && child == slots[|slots| - 1]
      ensures Linked(Mem(s), slots[..|slots| - 1], min)
    {
      ghost var m, min0, n := Mem(s), min, nelts;
      var path, k := ComputePath(nelts);
      var parent, max := Walk(nelts, path, k, s, slots);
      DerefPlace(s, slots, n);
      assert n >= 2 ==> CellAt(m, slots, n / 2);
      nelts := nelts - 1;
      child := Deref(max);
      Store(max, null);
      Detached(m, Mem(s), slots, min0, min);
    }

    // Put child in the place of node.
    method ReplaceLinks(node: Timer, child: Timer, ghost up: Timer?, ghost cl: Timer?, ghost cr: Timer?,
            ghost upLeft: bool)
      requires node.parent == up && node.left == cl && node.right == cr
      requires up != null ==> if upLeft then up.left == node else up.right == node && up.left != node
      requires node != child && up != node && up != child && cl != node && cl != child && cr != node && cr != child
      requires (cl != null ==> cl != cr && cl != up) && (cr != null ==> cr != up)
      modifies `min, child`left, child`right, child`parent
      modifies (if cl == null then {} else {cl})`parent, (if cr == null then {} else {cr})`parent
      modifies (if up == null then {} else {up})`left, (if up == null then {} else {up})`right
      ensures min == if up == null then child else old(min)
      ensures child.left == cl && child.right == cr && child.parent == up
      ensures cl != null ==> cl.parent == child
      ensures cr != null ==> cr.parent == child
      ensures up != null ==>
        up.left == (if upLeft then child else old(up.left)) && up.right == (if upLeft then old(up.right) else child)
    {
      child.left := node.left;
      child.right := node.right;
      child.parent := node.parent;
      if child.left != null {
        child.left.parent := child;
      }
      if child.right != null {
        child.right.parent := child;
      }
      if node.parent == null {
        min := child;
      } else if node.parent.left == node {
        node.parent.left := child;
      } else {
        node.parent.right := child;
      }
    }

    method Replace(node: Timer, child: Timer, ghost s: set<Timer>, ghost slots: Slots, ghost i: nat)
      requires Linked(Mem(s), slots, min) && 1 <= i < |slots| && slots[i] == node && child !in slots && child in s
      modifies `min, s`left, s`right, s`parent
      ensures Linked(Mem(s), slots[i := child], min)
    {
      ghost var m, min0 := Mem(s), min;
      ReplaceFacts(m, slots, i, min);
      ReplaceLinks(node, child, slots[i / 2], Kid(slots, 2 * i), Kid(slots, 2 * i + 1), i % 2 == 0);
      Replaced(m, Mem(s), slots, i, child, min0, min);
    }

    // Down, then up: the node that was moved to slot i finds its place.
    method Resettle(child: Timer, ghost s: set<Timer>, ghost slots: Slots, ghost i: nat) returns (ghost slots': Slots)
      requires Linked(Mem(s), slots, min) && 1 <= i < |slots| && slots[i] == child
      requires OrderedBut(KeysOf(s), slots, i)
      modifies `min, s`left, s`right, s`parent
      ensures Linked(Mem(s), slots', min) && Ordered(KeysOf(s), slots') && SameNodes(slots, slots')
    {
      ghost var j;
      slots', j := SiftDown(child, s, slots, i);
      slots' := SiftUp(child, s, slots', j);
    }

    // heap_remove on the level of slots, for the node in slot i.
    method TakeOut(node: Timer, ghost s: set<Timer>, ghost slots: Slots, ghost i: nat) returns (ghost slots': Slots)
      requires Linked(Mem(s), slots, min) && Ordered(KeysOf(s), slots) && nelts == |slots| - 1 && nelts < UINT_LIMIT
      requires 1 <= i < |slots| && slots[i] == node
      modifies `min, `nelts, s`left, s`right, s`parent
      ensures Linked(Mem(s), slots', min) && Ordered(KeysOf(s), slots') && nelts == old(nelts) - 1
      ensures SameNodes(Without(slots, i), slots')
    {
      ghost var n := |slots| - 1;
      SlotsIn(Mem(s), slots, min);
      LeftOver(KeysOf(s), slots, i);
      var child := DropLast(s, slots);
      if child == node {
        if child == min {
          assert false;  // the source clears min here, but unlinking the last slot has done so already
        }
        return slots[..n];
      }
      Replace(node, child, s, slots[..n], i);
      slots' := Resettle(child, s, Without(slots, i), i);
    }

    method Delete(node: Timer, ghost s: set<Timer>, ghost slots: Slots) returns (ghost slots': Slots)
      requires Linked(Mem(s), slots, min) && Ordered(KeysOf(s), slots) && nelts == |slots| - 1 && nelts < UINT_LIMIT
      requires node in slots
      modifies `min, `nelts, s`left, s`right, s`parent
      ensures Linked(Mem(s - {node}), slots', min) && Ordered(KeysOf(s - {node}), slots')
      ensures nelts == old(nelts) - 1 && |slots'| == |slots| - 1 && forall n :: n in slots && n != node ==> n in slots'
    {
      ghost var i :| 0 <= i < |slots| && slots[i] == node;
      WithoutNodes(slots, i);
      slots' := TakeOut(node, s, slots, i);
      Restricted(Mem(s), KeysOf(s), slots', min, node);
      assert Mem(s - {node}) == Mem(s) - {node};
      assert KeysOf(s - {node}) == KeysOf(s) - {node};
    }

    // With an empty heap nothing happens, whatever the argument is.
    method Remove(node: Timer?)
      requires Valid() && (nelts == 0 || (node != null && node in nodes))
      modifies this, nodes`left, nodes`right, nodes`parent
      ensures Valid() && nodes == old(nodes) - {node}
      ensures nelts == if old(nelts) == 0 then 0 else old(nelts) - 1
    {
      if nelts == 0 {
        return;
      }
      ghost var s := nodes - {node};
      ghost var slots' := Delete(node, nodes, slots);
      ghost var m, k := Mem(s), KeysOf(s);
      nodes, slots := s, slots';
      assert Mem(nodes) == m && KeysOf(nodes) == k;
    }

    // The root is the lowest element in the set.
    lemma {:induction false} MinLeast(n: Timer)
      requires Valid() && n in nodes
      ensures min != null && min in nodes && !Less(n, min)
    {
      var q :| 0 <= q < |slots| && slots[q] == n;
      RootLeast(KeysOf(nodes), slots, q);
      assert CellAt(Mem(nodes), slots, q) && CellAt(Mem(nodes), slots, 1);
    }

    lemma {:induction false} Empty()
      requires Valid()
      ensures min == null <==> nodes == {}
      ensures min != null ==> min in nodes && nelts > 0
    {
      if |slots| > 1 {
        assert CellAt(Mem(nodes), slots, 1);
      } else {
        assert slots == [null];
        assert forall n :: n in nodes ==> n in slots;
      }
    }

    // The heap has exactly nelts nodes.
    lemma {:induction false} Count()
      requires Valid()
      ensures nelts == |nodes|
    {
      var all := Members(slots, |slots|);
      SlotsIn(Mem(nodes), slots, min);
      MembersCount(slots, |slots|, nodes);
      forall n | n in nodes
        ensures n in all
      {
        var p :| 0 <= p < |slots| && slots[p] == n;
      }
      assert all == nodes;
    }

    method Dequeue()
      requires Valid()
      modifies this, nodes`left, nodes`right, nodes`parent
      ensures Valid()
      ensures old(min) == null ==> nodes == {} && old(nodes) == {}
      ensures old(min) != null ==> nodes == old(nodes) - {old(min)}
    {
      assert nelts > 0 ==> CellAt(Mem(nodes), slots, 1);
      Remove(min);
    }
  }

  // The slots once the last one has moved into slot i.
  function Without(s: Slots, i: nat): Slots
    requires 1 <= i < |s|
  {
    var n := |s| - 1;
    if i == n then s[..n] else s[..n][i := s[n]]
  }

  lemma {:induction false} LeftOver(k: Keys, s: Slots, i: nat)
    requires Ordered(k, s) && OnePlace(s) && Filled(s) && 1 <= i < |s|
    ensures var w := Without(s, i); if i == |s| - 1 then Ordered(k, w) else OrderedBut(k, w, i)
    ensures s[|s| - 1] !in s[..|s| - 1]
  {
    var w := Without(s, i);
    forall q | 2 <= q < |w|
      ensures q != i && q / 2 != i ==> UpOk(k, w, q)
      ensures q / 2 == i && i >= 2 ==> NotBelow(k, w, q, i / 2)
    {
      assert UpOk(k, s, q);
      assert q / 2 >= 2 ==> UpOk(k, s, q / 2);
    }
  }

  lemma {:induction false} WithoutNodes(s: Slots, i: nat)
    requires Filled(s) && OnePlace(s) && 1 <= i < |s|
    ensures s[i] !in Without(s, i)
    ensures forall n :: n in s && n != s[i] ==> n in Without(s, i)
  {
    var w, last := Without(s, i), |s| - 1;
    forall n | n in s && n != s[i]
      ensures n in w
    {
      var p :| 0 <= p < |s| && s[p] == n;
      assert if p == last then w[i] == n else w[p] == n;
    }
  }

  lemma {:induction false} Restricted(m: Memory, k: Keys, s: Slots, min: Timer?, x: Timer)
    requires Linked(m, s, min) && Ordered(k, s) && x !in s
    ensures Linked(m - {x}, s, min) && Ordered(k - {x}, s)
  {
    forall p | 1 <= p < |s|
      ensures CellAt(m - {x}, s, p) && KeyOf(k - {x}, s[p]) == KeyOf(k, s[p])
    {
      assert CellAt(m, s, p) && s[p] in s;
    }
    forall q | 2 <= q < |s|
      ensures UpOk(k - {x}, s, q)
    {
      assert UpOk(k, s, q);
    }
  }

  lemma {:induction false} ShrBound(n: nat, k: nat)
    ensures Shr(n, k) <= n
  {
    if k > 0 {
      ShrBound(n, k - 1);
    }
  }

  // Where the link to slot q is kept.
  function PlaceOf(s: Slots, q: nat): Place
    requires 1 <= q <= |s| && Filled(s)
  {
    if q == 1 then MinPlace else if q % 2 == 0 then LeftOf(s[q / 2]) else RightOf(s[q / 2])
  }

  // The cells around the edge from slot c / 2 to slot c.
  lemma {:induction false} SwapFacts(m: Memory, s: Slots, c: nat, min: Timer?)
    requires Linked(m, s, min) && 2 <= c < |s|
    ensures var parent, child, sib, up := s[c / 2], s[c], Kid(s, Twin(c)), s[c / 4];
            var cl, cr := Kid(s, 2 * c), Kid(s, 2 * c + 1);
      && parent in m && child in m && m[child] == Cell(cl, cr, parent)
      && m[parent] == (if c % 2 == 0 then Cell(child, sib, up) else Cell(sib, child, up))
      && (sib != null ==> sib in m) && (cl != null ==> cl in m) && (cr != null ==> cr in m)
      && (up != null ==>
          up in m && if c / 2 % 2 == 0 then m[up].left == parent else m[up].right == parent && m[up].left != parent)
      && parent != child && sib != child && sib != parent && up != parent && up != child
      && cl != parent && cl != child && cr != parent && cr != child
      && (sib != null ==> sib != up && sib != cl && sib != cr)
      && (up != null ==> up != cl && up != cr) && (cl != null ==> cl != cr)
      && (up == null <==> c / 2 == 1)
  {
    assert CellAt(m, s, c) && CellAt(m, s, c / 2);
    assert Twin(c) < |s| ==> CellAt(m, s, Twin(c));
    assert c / 4 >= 1 ==> CellAt(m, s, c / 4);
    assert 2 * c < |s| ==> CellAt(m, s, 2 * c);
    assert 2 * c + 1 < |s| ==> CellAt(m, s, 2 * c + 1);
  }

  lemma {:induction false} SwapSame(s: Slots, c: nat)
    requires 2 <= c < |s|
    ensures SameNodes(s, Swap(s, c))
  {
    var s' := Swap(s, c);
    assert s'[c] == s[c / 2] && s'[c / 2] == s[c];
    forall n | n in s
      ensures n in s'
    {
      var i :| 0 <= i < |s| && s[i] == n;
      assert i != c && i != c / 2 ==> s'[i] == n;
    }
  }

  ghost predicate SameNodes(s: Slots, s': Slots) {
    |s| == |s'| && (forall n :: n in s ==> n in s') && (forall n :: n in s' ==> n in s)
  }

  lemma {:induction false} SlotsIn(m: Memory, s: Slots, min: Timer?)
    requires Linked(m, s, min)
    ensures forall p :: 1 <= p < |s| ==> s[p] != null && s[p] in m
  {
    forall p | 1 <= p < |s|
      ensures s[p] != null && s[p] in m
    {
      assert CellAt(m, s, p);
    }
  }

  lemma {:induction false} ReplaceFacts(m: Memory, s: Slots, i: nat, min: Timer?)
    requires Linked(m, s, min) && 1 <= i < |s|
    ensures var node, up, cl, cr := s[i], s[i / 2], Kid(s, 2 * i), Kid(s, 2 * i + 1);
      && node in m && m[node] == Cell(cl, cr, up)
      && (cl != null ==> cl in m && cl in s) && (cr != null ==> cr in m && cr in s)
      && (up != null ==>
          up in m && up in s && if i % 2 == 0 then m[up].left == node else m[up].right == node && m[up].left != node)
      && up != node && cl != node && cr != node
      && (cl != null ==> cl != cr && cl != up) && (cr != null ==> cr != up)
      && (up == null <==> i == 1)
  {
    assert CellAt(m, s, i);
    assert i >= 2 ==> CellAt(m, s, i / 2);
    assert 2 * i < |s| ==> CellAt(m, s, 2 * i);
    assert 2 * i + 1 < |s| ==> CellAt(m, s, 2 * i + 1);
  }

  // The nodes in the slots below k.
  ghost function Members(s: Slots, k: nat): set<Timer?>
    requires k <= |s|
  {
    if k <= 1 then {} else Members(s, k - 1) + {s[k - 1]}
  }

  lemma {:induction false} MembersCount(s: Slots, k: nat, nodes: set<Timer>)
    requires OnePlace(s) && 1 <= k <= |s| && forall p :: 1 <= p < |s| ==> s[p] != null && s[p] in nodes
    ensures |Members(s, k)| == k - 1 && Members(s, k) <= nodes
    ensures forall p :: 1 <= p < k ==> s[p] in Members(s, k)
    ensures forall p :: k <= p < |s| ==> s[p] !in Members(s, k)
  {
    if k > 1 {
      MembersCount(s, k - 1, nodes);
    }
  }
}
