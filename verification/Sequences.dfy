// Sequences without repetition, and taking an element out of one.
module Sequences {
  predicate Distinct<X(==)>(s: seq<X>) {
    forall i, j :: 0 <= i < j < |s| ==> s[i] != s[j]
  }

  function Erase<X(==)>(s: seq<X>, x: X): seq<X> {
    if s == [] then [] else if s[0] == x then s[1..] else [s[0]] + Erase(s[1..], x)
  }

  lemma {:induction false} ErasedSeq<X(!new)>(s: seq<X>, x: X)
    requires Distinct(s)
    ensures var r := Erase(s, x); Distinct(r) && |r| == |s| - (if x in s then 1 else 0)
    ensures forall y :: y in Erase(s, x) <==> y in s && y != x
    ensures |s| > 0 && s[|s| - 1] != x ==> |Erase(s, x)| > 0 && Erase(s, x)[|Erase(s, x)| - 1] == s[|s| - 1]
  {
    if s != [] {
      var t := s[1..];
      assert s == [s[0]] + t;
      if s[0] != x {
        ErasedSeq(t, x);
        assert s[0] !in Erase(t, x);
      }
    }
  }

  // x comes before y in s, wherever both are.
  ghost predicate Precedes<X>(s: seq<X>, x: X, y: X) {
    forall i, j :: 0 <= i < |s| && 0 <= j < |s| && s[i] == x && s[j] == y ==> i < j
  }

  lemma {:induction false} PrecedesTail<X>(s: seq<X>, x: X, y: X)
    requires Precedes(s, x, y) && s != []
    ensures Precedes(s[1..], x, y) && (x in s[1..] ==> s[0] != y)
  {
    var t := s[1..];
    forall i, j | 0 <= i < |t| && 0 <= j < |t| && t[i] == x && t[j] == y
      ensures i < j
    {
      assert s[i + 1] == x && s[j + 1] == y;
    }
    if x in t {
      var i :| 0 <= i < |t| && t[i] == x;
      assert s[i + 1] == x;
    }
  }

  lemma {:induction false} PrecedesErased<X(!new)>(s: seq<X>, x: X, y: X, z: X)
    requires Precedes(s, x, y) && Distinct(s)
    ensures Precedes(Erase(s, z), x, y)
  {
    if s != [] {
      PrecedesTail(s, x, y);
      if s[0] != z {
        var t := Erase(s[1..], z);
        PrecedesErased(s[1..], x, y, z);
        ErasedSeq(s[1..], z);
        assert Erase(s, z) == [s[0]] + t;
      }
    }
  }

  lemma {:induction false} EraseAbsent<X>(s: seq<X>, x: X)
    requires x !in s
    ensures Erase(s, x) == s
  {
    if s != [] {
      EraseAbsent(s[1..], x);
    }
  }

  lemma {:induction false} DistinctApart<X(!new)>(a: seq<X>, b: seq<X>)
    requires Distinct(a + b)
    ensures Distinct(a) && Distinct(b) && forall x :: x in a ==> x !in b
  {
    var c := a + b;
    assert c[..|a|] == a && c[|a|..] == b;
    forall i, x | 0 <= i < |a| && a[i] == x
      ensures x !in b
    {
      assert c[i] == x;
    }
  }

  lemma {:induction false} DistinctJoined<X(!new)>(a: seq<X>, b: seq<X>)
    requires Distinct(a) && Distinct(b) && forall x :: x in a ==> x !in b
    ensures Distinct(a + b)
  {
    forall i, j | 0 <= i < |a| && 0 <= j < |b|
      ensures a[i] != b[j]
    {
      assert a[i] in a;
    }
  }

  // A distinct pair of sequences stays distinct when an element goes.
  lemma {:induction false} ErasedPair<X(!new)>(a: seq<X>, b: seq<X>, x: X)
    requires Distinct(a + b)
    ensures Distinct(Erase(a, x) + Erase(b, x))
    ensures forall y :: y in Erase(a, x) + Erase(b, x) <==> y in a + b && y != x
  {
    DistinctApart(a, b);
    ErasedSeq(a, x);
    ErasedSeq(b, x);
    forall y | y in Erase(a, x)
      ensures y !in Erase(b, x)
    {
      assert y in a;
    }
    DistinctJoined(Erase(a, x), Erase(b, x));
  }
}
