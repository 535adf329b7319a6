// Section 2.1 of RFC 6962: the Merkle tree hash of a list, audit paths and
// consistency proofs, and how they look as routes through a hash tree.
module Rfc6962 {
  import opened PowersOfTwo
  import opened HashTrees

  // ----- the definitions of the RFC -----
  // A list D[lo:lo + n] is given by D, its first position and its length.

  // The tree over D[lo:lo + n].
  function TreeOf(D: seq<Bytes>, lo: nat, n: nat): Tree
    requires lo + n <= |D|
    decreases n
  {
    if n == 0 then Empty
    else if n == 1 then Leaf(D[lo])
    else
      var k := Split(n);
      Node(TreeOf(D, lo, k), TreeOf(D, lo + k, n - k))
  }

  // MTH(D[lo:lo + n]).
  function Mth(H: HashFn, D: seq<Bytes>, lo: nat, n: nat): Digest
    requires lo + n <= |D|
  {
    TreeHash(H, TreeOf(D, lo, n))
  }

  // The defining equations of MTH in the RFC.
  lemma MthEquations(H: HashFn, D: seq<Bytes>, lo: nat, n: nat)
    requires lo + n <= |D|
    ensures n == 0 ==> Mth(H, D, lo, n) == H([])
    ensures n == 1 ==> Mth(H, D, lo, n) == H([0x00] + D[lo])
    ensures n > 1 ==> var k := Split(n);
      Mth(H, D, lo, n) == H([0x01] + Mth(H, D, lo, k) + Mth(H, D, lo + k, n - k))
  {
  }

  // PATH(m, D[lo:lo + n]): the audit path of leaf m of that list.
  function AuditPath(H: HashFn, m: nat, D: seq<Bytes>, lo: nat, n: nat): seq<Digest>
    requires m < n && lo + n <= |D|
    decreases n
  {
    if n == 1 then []
    else
      var k := Split(n);
      if m < k then AuditPath(H, m, D, lo, k) + [Mth(H, D, lo + k, n - k)]
      else AuditPath(H, m - k, D, lo + k, n - k) + [Mth(H, D, lo, k)]
  }

  // SUBPROOF(m, D[lo:lo + n], b).
  function SubProof(H: HashFn, m: nat, D: seq<Bytes>, lo: nat, n: nat, b: bool): seq<Digest>
    requires 0 < m <= n && lo + n <= |D|
    decreases n
  {
    if m == n then (if b then [] else [Mth(H, D, lo, n)])
    else
      var k := Split(n);
      if m <= k then SubProof(H, m, D, lo, k, b) + [Mth(H, D, lo + k, n - k)]
      else SubProof(H, m - k, D, lo + k, n - k, false) + [Mth(H, D, lo, k)]
  }

  function Root(H: HashFn, D: seq<Bytes>): Digest { Mth(H, D, 0, |D|) }

  // PATH(m, D).
  function InclusionProof(H: HashFn, m: nat, D: seq<Bytes>): seq<Digest>
    requires m < |D|
  {
    AuditPath(H, m, D, 0, |D|)
  }

  // PROOF(m, D): the consistency proof from the first m leaves to all of D.
  function ConsistencyProof(H: HashFn, m: nat, D: seq<Bytes>): seq<Digest>
    requires 0 < m < |D|
  {
    SubProof(H, m, D, 0, |D|, true)
  }

  // ----- the tree over a list -----

  lemma {:induction false} TreeOfLeaves(D: seq<Bytes>, lo: nat, n: nat)
    requires lo + n <= |D|
    ensures Leaves(TreeOf(D, lo, n)) == D[lo..lo + n]
    decreases n
  {
    if n > 1 {
      var k := Split(n);
      TreeOfLeaves(D, lo, k);
      TreeOfLeaves(D, lo + k, n - k);
      assert D[lo..lo + n] == D[lo..lo + k] + D[lo + k..lo + n];
    }
  }

  // The tree over a prefix of D is the tree over that part of D.
  lemma {:induction false} TreeOfPrefix(D: seq<Bytes>, m: nat, lo: nat, n: nat)
    requires lo + n <= m <= |D|
    ensures TreeOf(D[..m], lo, n) == TreeOf(D, lo, n)
    decreases n
  {
    if n > 1 {
      var k := Split(n);
      TreeOfPrefix(D, m, lo, k);
      TreeOfPrefix(D, m, lo + k, n - k);
    }
  }

  // ----- where the two proofs start, and the route from there -----

  // Both verifiers climb from the last block of the first m of n leaves: for an
  // inclusion proof that block is the single leaf m - 1, for a consistency
  // proof it is the largest subtree of the n leaves that ends there.
  datatype Start = AtLeaf | AtBlock

  predicate Stops(m: nat, n: nat, start: Start) {
    m == n && (start == AtBlock || n == 1)
  }

  function BlockWidth(m: nat, n: nat, start: Start): (w: nat)
    requires 0 < m <= n
    ensures 0 < w <= m
    ensures start == AtLeaf ==> w == 1
    decreases n
  {
    if Stops(m, n, start) then n
    else
      var k := Split(n);
      if m <= k then BlockWidth(m, k, start) else BlockWidth(m - k, n - k, start)
  }

  // The way down to that block from the root of a tree with n leaves.
  function RouteTo(m: nat, n: nat, start: Start): Route
    requires 0 < m <= n
    decreases n
  {
    if Stops(m, n, start) then Here
    else
      var k := Split(n);
      if m <= k then Past(RightSibling, RouteTo(m, k, start))
      else Past(LeftSibling, RouteTo(m - k, n - k, start))
  }

  // It is no longer than the tree is high.
  lemma {:induction false} RouteIsShort(m: nat, n: nat, start: Start)
    requires 0 < m <= n
    ensures Length(RouteTo(m, n, start)) <= CeilLog2(n)
    decreases n
  {
    if !Stops(m, n, start) {
      var k := Split(n);
      SplitLowersHeight(n);
      if m <= k { RouteIsShort(m, k, start); } else { RouteIsShort(m - k, n - k, start); }
    }
  }

  // The route fits the tree over any n leaves.
  lemma {:induction false} RouteFits(m: nat, D: seq<Bytes>, lo: nat, n: nat, start: Start)
    requires 0 < m <= n && lo + n <= |D|
    ensures HasRoute(TreeOf(D, lo, n), RouteTo(m, n, start))
    decreases n
  {
    if !Stops(m, n, start) {
      var k := Split(n);
      if m <= k { RouteFits(m, D, lo, k, start); } else { RouteFits(m - k, D, lo + k, n - k, start); }
    }
  }

  // It leads to the block, w leaves from position at on.
  lemma {:induction false} RouteFoot(m: nat, D: seq<Bytes>, lo: nat, n: nat, start: Start, at: nat, w: nat)
    requires 0 < m <= n && lo + n <= |D| && HasRoute(TreeOf(D, lo, n), RouteTo(m, n, start))
    requires w == BlockWidth(m, n, start) && at == lo + m - w
    ensures Foot(TreeOf(D, lo, n), RouteTo(m, n, start)) == TreeOf(D, at, w)
    decreases n
  {
    if !Stops(m, n, start) {
      var k := Split(n);
      if m <= k { RouteFoot(m, D, lo, k, start, at, w); } else { RouteFoot(m - k, D, lo + k, n - k, start, at, w); }
    }
  }

  // Trimmed at the block, the tree is the one over the first m leaves.
  lemma {:induction false} RouteTrims(m: nat, D: seq<Bytes>, lo: nat, n: nat, start: Start)
    requires 0 < m <= n && lo + n <= |D|
    requires HasRoute(TreeOf(D, lo, n), RouteTo(m, n, start))
    ensures Trimmed(TreeOf(D, lo, n), RouteTo(m, n, start)) == TreeOf(D, lo, m)
    decreases n
  {
    if !Stops(m, n, start) {
      var k := Split(n);
      if m <= k {
        RouteTrims(m, D, lo, k, start);
      } else {
        RouteTrims(m - k, D, lo + k, n - k, start);
        SplitOfPrefix(m, n);
      }
    }
  }

  // PATH is the honest path from a leaf.
  lemma {:induction false} AuditPathIsHonest(H: HashFn, m: nat, D: seq<Bytes>, lo: nat, n: nat)
    requires m < n && lo + n <= |D|
    requires HasRoute(TreeOf(D, lo, n), RouteTo(m + 1, n, AtLeaf))
    ensures AuditPath(H, m, D, lo, n) == HonestPath(H, TreeOf(D, lo, n), RouteTo(m + 1, n, AtLeaf))
    decreases n
  {
    if n > 1 {
      var k := Split(n);
      if m < k { AuditPathIsHonest(H, m, D, lo, k); } else { AuditPathIsHonest(H, m - k, D, lo + k, n - k); }
    }
  }

  // SUBPROOF is the honest path from a block, with the hash of the block in
  // front unless b holds and the block is leftmost.
  lemma {:induction false} SubProofIsHonest(H: HashFn, m: nat, D: seq<Bytes>, lo: nat, n: nat, b: bool)
    requires 0 < m <= n && lo + n <= |D|
    requires HasRoute(TreeOf(D, lo, n), RouteTo(m, n, AtBlock))
    ensures SubProof(H, m, D, lo, n, b) == SeededPath(H, TreeOf(D, lo, n), RouteTo(m, n, AtBlock), b)
    decreases n
  {
    if m < n {
      var k := Split(n);
      if m <= k { SubProofIsHonest(H, m, D, lo, k, b); } else { SubProofIsHonest(H, m - k, D, lo + k, n - k, false); }
    }
  }

  // The block that ends after m < n leaves is leftmost, and then all of those
  // leaves, exactly when m is a power of two.
  lemma {:induction false} LeftmostBlock(m: nat, n: nat)
    requires 0 < m <= n && (m < n || IsPow2(m))
    ensures Leftmost(RouteTo(m, n, AtBlock)) <==> IsPow2(m)
    ensures IsPow2(m) ==> BlockWidth(m, n, AtBlock) == m
    decreases n
  {
    if m < n {
      var k := Split(n);
      SplitIsLargest(n, m);
      if m <= k {
        LeftmostBlock(m, k);
      }
    }
  }

  // ----- the same route, level by level -----

  // The next lemmas speak of 2 * q - c leaves, c being 0 or 1, that pair up to q.

  lemma {:induction false} SplitOfPairs(q: nat, c: nat)
    requires q > 1 && c <= 1
    ensures Split(2 * q - c) == 2 * Split(q)
  {
    SplitHalves(2 * q - c);
    assert (2 * q - c + 1) / 2 == q;
  }

  // Pairing up the leaves does not change a consistency route.
  lemma {:induction false} RouteOfPairs(a: nat, q: nat, c: nat)
    requires 0 < a <= q && c <= 1 && 2 * a <= 2 * q - c
    ensures RouteTo(2 * a, 2 * q - c, AtBlock) == RouteTo(a, q, AtBlock)
    decreases q
  {
    if a < q {
      var h := Split(q);
      SplitOfPairs(q, c);
      if a <= h { RouteOfPairs(a, h, 0); } else { RouteOfPairs(a - h, q - h, c); }
    }
  }

  lemma {:induction false} RouteHalves(a: nat, n: nat)
    requires 0 < a && 2 * a <= n
    ensures RouteTo(2 * a, n, AtBlock) == RouteTo(a, (n + 1) / 2, AtBlock)
  {
    var q := (n + 1) / 2;
    RouteOfPairs(a, q, 2 * q - n);
  }

  // From an odd number of leaves the block is the last leaf.
  lemma {:induction false} RouteFromOdd(a: nat, q: nat, c: nat)
    requires c <= 1 && (2 * a + 1 < 2 * q - c || (a == 0 && q == 1))
    ensures RouteTo(2 * a + 1, 2 * q - c, AtBlock) == RouteTo(2 * a + 1, 2 * q - c, AtLeaf)
    decreases q
  {
    if q > 1 {
      var h := Split(q);
      SplitOfPairs(q, c);
      if a < h { RouteFromOdd(a, h, 0); } else { RouteFromOdd(a - h, q - h, c); }
    }
  }

  // The lowest level on the way to leaf i of n: a last leaf without a partner
  // has no sibling there and moves up unchanged.
  function LowestLevel(i: nat, n: nat): Route
    requires i < n
  {
    if i % 2 == 1 then Past(LeftSibling, Here)
    else if i < n - 1 then Past(RightSibling, Here)
    else Here
  }

  // The route through the paired-up leaves, and then the lowest level. The leaf
  // is number 2 * j + b.
  lemma {:induction false} RouteThroughPairs(j: nat, b: nat, q: nat, c: nat, lowest: Route)
    requires b <= 1 && c <= 1 && 2 * j + b < 2 * q - c && 2 * q - c > 1
    requires lowest ==
      if b == 1 then Past(LeftSibling, Here) else if 2 * j + 1 < 2 * q - c then Past(RightSibling, Here) else Here
    ensures RouteTo(2 * j + b + 1, 2 * q - c, AtLeaf) == Then(RouteTo(j + 1, q, AtLeaf), lowest)
    decreases q
  {
    if q > 1 {
      var h := Split(q);
      SplitOfPairs(q, c);
      if j < h {
        RouteThroughPairs(j, b, h, 0, lowest);
      } else if q - h > 1 || c == 0 {
        RouteThroughPairs(j - h, b, q - h, c, lowest);
      }
    }
  }

  lemma {:induction false} RouteLowest(i: nat, n: nat)
    requires i < n && n > 1
    ensures RouteTo(i + 1, n, AtLeaf) == Then(RouteTo(i / 2 + 1, (n + 1) / 2, AtLeaf), LowestLevel(i, n))
  {
    var q := (n + 1) / 2;
    RouteThroughPairs(i / 2, i % 2, q, 2 * q - n, LowestLevel(i, n));
  }

  // The sides met when climbing from leaf i of n one level at a time.
  function ClimbSides(i: nat, n: nat): seq<Side>
    requires i < n
    decreases n
  {
    if n == 1 then [] else Sides(LowestLevel(i, n)) + ClimbSides(i / 2, (n + 1) / 2)
  }

  lemma {:induction false} ClimbSidesIsRoute(i: nat, n: nat)
    requires i < n
    ensures ClimbSides(i, n) == Sides(RouteTo(i + 1, n, AtLeaf))
    ensures |ClimbSides(i, n)| <= CeilLog2(n)
    decreases n
  {
    if n > 1 {
      RouteLowest(i, n);
      SidesThen(RouteTo(i / 2 + 1, (n + 1) / 2, AtLeaf), LowestLevel(i, n));
      ClimbSidesIsRoute(i / 2, (n + 1) / 2);
    }
  }

  lemma {:induction false} LowestSide(i: nat, n: nat)
    requires i < n && n > 1
    ensures var up := ClimbSides(i / 2, (n + 1) / 2);
      ClimbSides(i, n) ==
      if i % 2 == 1 then [LeftSibling] + up else if i < n - 1 then [RightSibling] + up else up
  {
    var up := ClimbSides(i / 2, (n + 1) / 2);
    assert ClimbSides(i, n) == Sides(LowestLevel(i, n)) + up;
    if i % 2 == 1 {
      assert Sides(LowestLevel(i, n)) == [LeftSibling];
    } else if i < n - 1 {
      assert Sides(LowestLevel(i, n)) == [RightSibling];
    }
  }

  // The sides met by the algorithms of sections 2.1.3.2 and 2.1.4.2 of RFC
  // 9162, which keep the index of the last node of the level instead of a count.
  // The client runs the second one on any integers, so fn may be negative.
  function FnSnSides(fn: int, sn: nat): seq<Side>
    requires fn <= sn
    decreases sn
  {
    if sn == 0 then []
    else if fn % 2 == 1 then [LeftSibling] + FnSnSides(fn / 2, sn / 2)
    else if fn == sn then
      var g := SkipOrphan(fn, sn).0;
      [LeftSibling] + FnSnSides(g / 2, g / 2)
    else [RightSibling] + FnSnSides(fn / 2, sn / 2)
  }

  // Shift both indexes right until the first is odd or zero.
  function SkipOrphan(fn: int, sn: int): (r: (int, int))
    ensures 0 <= fn == sn ==> 0 <= r.0 == r.1 <= fn
    ensures (fn <= sn ==> r.0 <= r.1) && (sn < 0 <==> r.1 < 0)
    ensures 0 < fn ==> r.0 % 2 == 1
    decreases if fn < 0 then -fn else fn
  {
    if fn != 0 && fn % 2 == 0 then SkipOrphan(fn / 2, sn / 2) else (fn, sn)
  }

  lemma {:induction false} ClimbLastLeaf(fn: nat)
    requires fn > 0
    ensures var g := SkipOrphan(fn, fn).0; ClimbSides(fn, fn + 1) == [LeftSibling] + ClimbSides(g / 2, g / 2 + 1)
    decreases fn
  {
    if fn % 2 == 0 {
      ClimbLastLeaf(fn / 2);
    }
  }

  // Climbing level by level meets the same sides.
  lemma {:induction false} FnSnSidesIsClimb(fn: nat, sn: nat)
    requires fn <= sn
    ensures FnSnSides(fn, sn) == ClimbSides(fn, sn + 1)
    decreases sn, 1
  {
    if fn % 2 == 1 {
      OddSides(fn, sn);
    } else if fn < sn {
      EvenSides(fn, sn);
    } else if sn > 0 {
      OrphanSides(fn);
    }
  }

  lemma {:induction false} OddSides(fn: nat, sn: nat)
    requires fn <= sn && fn % 2 == 1
    ensures FnSnSides(fn, sn) == ClimbSides(fn, sn + 1)
    decreases sn, 0
  {
    FnSnSidesIsClimb(fn / 2, sn / 2);
    LowestSide(fn, sn + 1);
    assert (sn + 2) / 2 == sn / 2 + 1;
  }

  lemma {:induction false} EvenSides(fn: nat, sn: nat)
    requires fn < sn && fn % 2 == 0
    ensures FnSnSides(fn, sn) == ClimbSides(fn, sn + 1)
    decreases sn, 0
  {
    FnSnSidesIsClimb(fn / 2, sn / 2);
    LowestSide(fn, sn + 1);
    assert (sn + 2) / 2 == sn / 2 + 1;
  }

  lemma {:induction false} OrphanSides(fn: nat)
    requires fn > 0 && fn % 2 == 0
    ensures FnSnSides(fn, fn) == ClimbSides(fn, fn + 1)
    decreases fn, 0
  {
    var g := SkipOrphan(fn, fn).0;
    FnSnSidesIsClimb(g / 2, g / 2);
    ClimbLastLeaf(fn);
  }

  // Shift both indexes right while the first is odd.
  function SkipOdd(fn: int, sn: int): (r: (int, int))
    requires fn != -1
    ensures r.0 % 2 == 0 && (fn < 0 <==> r.0 < 0) && (sn < 0 <==> r.1 < 0)
    ensures fn <= sn ==> r.0 <= r.1
    decreases if fn < 0 then -fn else fn
  {
    if fn % 2 == 1 then SkipOdd(fn / 2, sn / 2) else (fn, sn)
  }

  lemma {:induction false} OddStart(fn: nat, sn: nat)
    requires fn < sn && fn % 2 == 1
    ensures fn / 2 < sn / 2 && RouteTo(fn / 2 + 1, sn / 2 + 1, AtBlock) == RouteTo(fn + 1, sn + 1, AtBlock)
  {
    RouteHalves(fn / 2 + 1, sn + 1);
    assert 2 * (fn / 2 + 1) == fn + 1 && (sn + 2) / 2 == sn / 2 + 1;
  }

  lemma {:induction false} EvenStart(f: nat, s: nat)
    requires f < s && f % 2 == 0
    ensures FnSnSides(f, s) == Sides(RouteTo(f + 1, s + 1, AtBlock))
  {
    var q := (s + 2) / 2;
    RouteFromOdd(f / 2, q, 2 * q - (s + 1));
    ClimbSidesIsRoute(f, s + 1);
    FnSnSidesIsClimb(f, s);
  }

  // There the climb of the consistency route begins.
  lemma {:induction false} SkipOddSides(fn: nat, sn: nat)
    requires fn < sn
    ensures var (f, s) := SkipOdd(fn, sn);
      0 <= f < s && FnSnSides(f, s) == Sides(RouteTo(fn + 1, sn + 1, AtBlock))
    decreases fn
  {
    if fn % 2 == 1 {
      OddStart(fn, sn);
      SkipOddSides(fn / 2, sn / 2);
    } else {
      EvenStart(fn, sn);
    }
  }
}
