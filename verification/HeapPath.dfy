// The bit path from the root to the n-th slot in level order.
module HeapPath {
  import opened Basics

  const UINT_LIMIT := 0x1_0000_0000

  // n shifted right by k bits.
  function Shr(n: nat, k: nat): nat {
    if k == 0 then n else Shr(n, k - 1) / 2
  }

  // The low k bits of n in reverse order.
  function Rev(n: nat, k: nat): nat {
    if k == 0 then 0 else 2 * Rev(n, k - 1) + Shr(n, k - 1) % 2
  }

  lemma {:induction false} RevSmall(n: nat, k: nat)
    ensures Rev(n, k) < Pow2(k)
    ensures Pow2(k) * Shr(n, k) <= n
  {
    if k > 0 {
      RevSmall(n, k - 1);
      assert Shr(n, k - 1) >= 2 * Shr(n, k);
      assert Pow2(k) * Shr(n, k) == Pow2(k - 1) * (2 * Shr(n, k));
      MulMonotone(Pow2(k - 1), 2 * Shr(n, k), Shr(n, k - 1));
    }
  }

  lemma {:induction false} MulMonotone(a: nat, b: nat, c: nat)
    requires b <= c
    ensures a * b <= a * c
  {
    assert a * c - a * b == a * (c - b);
  }

  // The shifts lose no bit of the path: it is below n, so it fits an unsigned int when n does.
  lemma {:induction false} PathFits(n: nat, k: nat)
    requires Shr(n, k) >= 1
    ensures Rev(n, k) < n
  {
    RevSmall(n, k);
    MulMonotone(Pow2(k), 1, Shr(n, k));
  }

  // The first loop of heap_insert and heap_remove.
  method ComputePath(n0: nat) returns (path: nat, k: nat)
    requires 1 <= n0 < UINT_LIMIT
    ensures Shr(n0, k) == 1 && path == Rev(n0, k) && path < UINT_LIMIT
  {
    path, k := 0, 0;
    var n := n0;
    while n >= 2
      invariant n >= 1 && n == Shr(n0, k) && path == Rev(n0, k) && path < UINT_LIMIT
    {
      path := path * 2 + n % 2;
      k, n := k + 1, n / 2;
      PathFits(n0, k);
    }
  }
}
