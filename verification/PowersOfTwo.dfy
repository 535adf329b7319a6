// Powers of two, the RFC 6962 split point, and the bit tricks of the client.
module PowersOfTwo {

  function Pow2(e: nat): (p: nat)
    ensures p > 0
  {
    if e == 0 then 1 else 2 * Pow2(e - 1)
  }

  ghost predicate IsPow2(n: nat) {
    exists e: nat :: Pow2(e) == n
  }

  // Double k until it is the last doubling below n.
  function Double(k: nat, n: nat): (r: nat)
    requires 0 < k < n
    ensures k <= r < n <= 2 * r
    decreases n - k
  {
    if 2 * k >= n then k else Double(2 * k, n)
  }

  // The split point of a tree with n leaves: by SplitIsLargest below, the
  // largest power of two smaller than n.
  function Split(n: nat): (k: nat)
    requires n >= 2
    ensures 0 < k < n <= 2 * k
  {
    Double(1, n)
  }

  // Smallest e with n <= 2^e.
  function CeilLog2(n: nat): nat {
    if n <= 1 then 0 else 1 + CeilLog2((n + 1) / 2)
  }

  lemma {:induction false} DoublePow2(e: nat, n: nat) returns (f: nat)
    requires Pow2(e) < n
    ensures Double(Pow2(e), n) == Pow2(f)
    decreases n - Pow2(e)
  {
    if 2 * Pow2(e) >= n {
      f := e;
    } else {
      assert Pow2(e + 1) == 2 * Pow2(e);
      f := DoublePow2(e + 1, n);
    }
  }

  lemma {:induction false} Pow2Grows(e: nat, f: nat)
    requires e < f
    ensures 2 * Pow2(e) <= Pow2(f)
    decreases f
  {
    if e + 1 < f {
      Pow2Grows(e, f - 1);
    }
  }

  lemma SplitIsLargest(n: nat, j: nat)
    requires n >= 2
    ensures IsPow2(Split(n))
    ensures IsPow2(j) && j < n ==> j <= Split(n)
  {
    assert Pow2(0) == 1;
    var f := DoublePow2(0, n);
    if IsPow2(j) && Split(n) < j {
      var e: nat :| Pow2(e) == j;
      if e < f { Pow2Grows(e, f); } else if f < e { Pow2Grows(f, e); }
    }
  }

  // A prefix that reaches beyond the split point splits at the same place.
  lemma {:induction false} DoubleOfPrefix(k: nat, m: nat, n: nat)
    requires 0 < k < m <= n && Double(k, n) < m
    ensures Double(k, m) == Double(k, n)
    decreases n - k
  {
    if 2 * k < n {
      DoubleOfPrefix(2 * k, m, n);
    }
  }

  lemma SplitOfPrefix(m: nat, n: nat)
    requires 2 <= m <= n && Split(n) < m
    ensures Split(m) == Split(n)
  {
    DoubleOfPrefix(1, m, n);
  }

  // Pairing the leaves halves the split point.
  lemma {:induction false} DoubleHalves(k: nat, n: nat)
    requires 0 < k && 2 * k < n
    ensures k < (n + 1) / 2 && Double(2 * k, n) == 2 * Double(k, (n + 1) / 2)
    decreases n - k
  {
    if 4 * k < n {
      DoubleHalves(2 * k, n);
    }
  }

  lemma SplitHalves(n: nat)
    requires n > 2
    ensures Split(n) == 2 * Split((n + 1) / 2)
  {
    DoubleHalves(1, n);
  }

  lemma {:induction false} CeilLog2Grows(m: nat, n: nat)
    requires m <= n
    ensures CeilLog2(m) <= CeilLog2(n)
  {
    if m > 1 {
      CeilLog2Grows((m + 1) / 2, (n + 1) / 2);
    }
  }

  // It is the smallest such exponent.
  lemma {:induction false} CeilLog2IsExact(n: nat)
    ensures n <= Pow2(CeilLog2(n)) && (n > 1 ==> CeilLog2(n) > 0 && Pow2(CeilLog2(n) - 1) < n)
    ensures n <= 1 ==> CeilLog2(n) == 0
  {
    if n > 2 {
      CeilLog2IsExact((n + 1) / 2);
    }
  }

  // Both parts of a split are at least one level lower.
  lemma {:induction false} SplitLowersHeight(n: nat)
    requires n >= 2
    ensures CeilLog2(Split(n)) < CeilLog2(n) && CeilLog2(n - Split(n)) < CeilLog2(n)
  {
    if n > 2 {
      SplitHalves(n);
      SplitLowersHeight((n + 1) / 2);
      assert (Split(n) + 1) / 2 == Split((n + 1) / 2);
    }
    CeilLog2Grows(n - Split(n), Split(n));
  }

  // Bitwise AND of two non-negative integers.
  function BitAnd(a: nat, b: nat): nat
    decreases a
  {
    if a == 0 || b == 0 then 0
    else 2 * BitAnd(a / 2, b / 2) + (if a % 2 == 1 && b % 2 == 1 then 1 else 0)
  }

  lemma {:induction false} BitAndSelf(a: nat)
    ensures BitAnd(a, a) == a
  {
    if a > 0 {
      BitAndSelf(a / 2);
    }
  }

  // isPowerOfTwo of the consistency page.
  predicate IsPowerOfTwo(n: int) {
    n > 0 && BitAnd(n, n - 1) == 0
  }

  lemma Pow2Halves(n: nat)
    requires n > 1
    ensures IsPow2(n) <==> n % 2 == 0 && IsPow2(n / 2)
  {
    if IsPow2(n) {
      var e: nat :| Pow2(e) == n;
      assert Pow2(e - 1) == n / 2;
    }
    if n % 2 == 0 && IsPow2(n / 2) {
      var e: nat :| Pow2(e) == n / 2;
      assert Pow2(e + 1) == n;
    }
  }

  // Clearing the lowest set bit leaves zero exactly for the powers of two.
  lemma {:induction false} PowerOfTwoTest(n: nat)
    ensures IsPowerOfTwo(n) <==> IsPow2(n)
  {
    if n == 1 {
      assert Pow2(0) == 1;
    } else if n > 1 {
      Pow2Halves(n);
      if n % 2 == 0 {
        assert (n - 1) / 2 == n / 2 - 1;
        PowerOfTwoTest(n / 2);
      } else {
        assert (n - 1) / 2 == n / 2;
        BitAndSelf(n / 2);
      }
    }
  }
}
