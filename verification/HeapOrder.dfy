// timer_less_than, and what it means for the slots of a heap to be in order.
module HeapOrder {
  import opened HeapShape

  datatype Key = Key(timeout: nat, startId: nat)

  type Keys = map<Timer, Key>

  ghost function KeysOf(s: set<Timer>): Keys
    reads s`timeout, s`startId
  {
    map n | n in s :: Key(n.timeout, n.startId)
  }

  ghost function KeyOf(k: Keys, n: Timer?): Key {
    if n != null && n in k then k[n] else Key(0, 0)
  }

  predicate LessKey(a: Key, b: Key) {
    a.timeout < b.timeout || (a.timeout == b.timeout && a.startId < b.startId)
  }

  // timer_less_than
  predicate Less(a: Timer, b: Timer)
    reads a`timeout, a`startId, b`timeout, b`startId
    ensures Less(a, b) <==> LessKey(Key(a.timeout, a.startId), Key(b.timeout, b.startId))
    ensures Less(a, b) <==> a.timeout < b.timeout || (a.timeout == b.timeout && a.startId < b.startId)
  {
    if a.timeout < b.timeout then true
    else if b.timeout < a.timeout then false
    else if a.startId < b.startId then true
    else if b.startId < a.startId then false
    else false
  }

  // Slot q is not less than slot p.
  ghost predicate NotBelow(k: Keys, s: Slots, q: nat, p: nat)
    requires 1 <= p < |s| && 1 <= q < |s|
  {
    !LessKey(KeyOf(k, s[q]), KeyOf(k, s[p]))
  }

  // Slot q is not less than its parent.
  ghost predicate UpOk(k: Keys, s: Slots, q: nat)
    requires 2 <= q < |s|
  {
    NotBelow(k, s, q, q / 2)
  }

  ghost predicate Ordered(k: Keys, s: Slots) {
    forall q :: 2 <= q < |s| ==> UpOk(k, s, q)
  }

  // Ordered, except that slot i may be misplaced with respect to its parent and its children.
  ghost predicate OrderedBut(k: Keys, s: Slots, i: nat) {
    && (forall q :: 2 <= q < |s| && q != i && q / 2 != i ==> UpOk(k, s, q))
    && (forall q :: 2 <= q < |s| && q / 2 == i && i >= 2 ==> NotBelow(k, s, q, i / 2))
  }

  ghost predicate ChildrenOrdered(k: Keys, s: Slots, i: nat)
    requires i >= 1
  {
    forall q :: 2 <= q < |s| && q / 2 == i ==> NotBelow(k, s, q, i)
  }

  lemma {:induction false} SiftedUp(k: Keys, s: Slots, c: nat)
    requires 2 <= c < |s|
    requires OrderedBut(k, s, c) && ChildrenOrdered(k, s, c) && LessKey(KeyOf(k, s[c]), KeyOf(k, s[c / 2]))
    ensures OrderedBut(k, Swap(s, c), c / 2) && ChildrenOrdered(k, Swap(s, c), c / 2)
  {
    var s', i := Swap(s, c), c / 2;
    assert i >= 2 ==> UpOk(k, s, i);
    forall q | 2 <= q < |s| && q != i && q / 2 != i
      ensures UpOk(k, s', q)
    {
      assert if q / 2 == c then NotBelow(k, s, q, i) else UpOk(k, s, q);
    }
    forall q | 2 <= q < |s| && q / 2 == i
      ensures NotBelow(k, s', q, i) && (i >= 2 ==> NotBelow(k, s', q, i / 2))
    {
      if q != c {
        assert UpOk(k, s, q);
      }
    }
  }

  lemma {:induction false} SiftedDown(k: Keys, s: Slots, i: nat, c: nat)
    requires 2 <= c < |s| && i == c / 2
    requires OrderedBut(k, s, i) && LessKey(KeyOf(k, s[c]), KeyOf(k, s[i]))
    requires Twin(c) < |s| ==> NotBelow(k, s, Twin(c), c)
    ensures OrderedBut(k, Swap(s, c), c)
  {
    var s' := Swap(s, c);
    assert i >= 2 ==> NotBelow(k, s, c, i / 2);
    forall q | 2 <= q < |s| && q != c && q / 2 != c
      ensures UpOk(k, s', q)
    {
      if q != i && q / 2 != i {
        assert UpOk(k, s, q);
      } else {
        assert q == i || q == Twin(c);
      }
    }
    forall q | 2 <= q < |s| && q / 2 == c
      ensures NotBelow(k, s', q, i)
    {
      assert UpOk(k, s, q);
    }
  }

  lemma {:induction false} SiftDone(k: Keys, s: Slots, i: nat)
    requires 1 <= i < |s|
    requires OrderedBut(k, s, i) && ChildrenOrdered(k, s, i) && (i >= 2 ==> NotBelow(k, s, i, i / 2))
    ensures Ordered(k, s)
  {
  }

  // The root is least.
  lemma {:induction false} RootLeast(k: Keys, s: Slots, q: nat)
    requires Ordered(k, s) && 1 <= q < |s|
    ensures NotBelow(k, s, q, 1)
  {
    if q >= 2 {
      RootLeast(k, s, q / 2);
      assert UpOk(k, s, q);
    }
  }

  // A new last slot may only be misplaced with respect to its parent.
  lemma {:induction false} Appended(k: Keys, k': Keys, s: Slots, x: Timer)
    requires Ordered(k, s)
    requires forall p :: 1 <= p < |s| ==> s[p] != x && KeyOf(k', s[p]) == KeyOf(k, s[p])
    ensures |s| >= 1 ==> OrderedBut(k', s + [x], |s|) && ChildrenOrdered(k', s + [x], |s|)
  {
    var s' := s + [x];
    forall q | 2 <= q < |s|
      ensures UpOk(k', s', q)
    {
      assert UpOk(k, s, q);
    }
  }
}
