// client/verify_consistency.html: verification of a consistency proof.
module ConsistencyVerifier {
  import opened Wrappers
  import opened PowersOfTwo
  import opened HashTrees
  import opened Rfc6962
  import opened ClientCrypto
  import Inc = InclusionVerifier

  // The page reports an error apart from a failed verification.
  datatype Verdict = Valid | Invalid | Error

  // Where both climbs start: the first root itself when the first size is a
  // power of two, and the first hash of the proof otherwise.
  function Seed(m: int, firstRoot: Bytes, proof: seq<Bytes>): Bytes
    requires IsPowerOfTwo(m) || proof != []
  {
    if IsPowerOfTwo(m) then firstRoot else proof[0]
  }

  function Rest(m: int, proof: seq<Bytes>): seq<Bytes>
    requires IsPowerOfTwo(m) || proof != []
  {
    if IsPowerOfTwo(m) then proof else proof[1..]
  }

  // A decoded proof has the right length and only digests in it.
  predicate WellFormed(m: nat, firstRoot: Bytes, n: nat, proof: seq<Bytes>)
    requires 0 < m < n
  {
    && proof != [] && AllDigests(proof) && |Seed(m, firstRoot, proof)| == 32
    && |Rest(m, proof)| == Length(RouteTo(m, n, AtBlock))
  }

  // The climb to the second root, and the one to the first.
  function SecondClimb(H: HashFn, m: nat, firstRoot: Bytes, n: nat, proof: seq<Bytes>): Climb
    requires 0 < m < n && WellFormed(m, firstRoot, n, proof)
  {
    ClimbUp(H, RouteTo(m, n, AtBlock), Climb(Seed(m, firstRoot, proof), []), Rest(m, proof))
  }

  function FirstClimb(H: HashFn, m: nat, firstRoot: Bytes, n: nat, proof: seq<Bytes>): Climb
    requires 0 < m < n && WellFormed(m, firstRoot, n, proof)
  {
    ClimbLeft(H, RouteTo(m, n, AtBlock), Climb(Seed(m, firstRoot, proof), []), Rest(m, proof))
  }

  predicate Accepts(H: HashFn, m: nat, firstRoot: Bytes, n: nat, secondRoot: Bytes, proof: seq<Bytes>)
    requires 0 < m < n
  {
    && WellFormed(m, firstRoot, n, proof)
    && FirstClimb(H, m, firstRoot, n, proof).node == firstRoot
    && SecondClimb(H, m, firstRoot, n, proof).node == secondRoot
  }

  // A negative first size is not refused. Then fn stays negative, and the loops
  // meet these sides.
  predicate AcceptsNegative(H: HashFn, m: int, firstRoot: Bytes, n: int, secondRoot: Bytes, proof: seq<Bytes>)
    requires m < 0 && m < n
  {
    && n > 0 && proof != [] && (|proof| > 1 ==> AllDigests(proof))
    && var (fn, sn) := SkipOdd(m - 1, n - 1);
       var sides := FnSnSides(fn, sn);
       && |proof| == 1 + |sides|
       && ClimbLeftLevels(H, sides, Climb(proof[0], []), proof[1..]).node == firstRoot
       && ClimbLevels(H, sides, Climb(proof[0], []), proof[1..]).node == secondRoot
  }

  // On the first steps there is something to hash that is not 32 bytes long.
  predicate MeetsBadInput(seed: Bytes, rest: seq<Bytes>, steps: nat) {
    exists k: nat | k < |rest| && k < steps :: |seed| != 32 || |rest[k]| != 32
  }

  // The loop gets to such a step. It stops with an answer when sn is zero, which it
  // never is for negative second indexes.
  predicate Breaks(fn: int, sn: int, seed: Bytes, rest: seq<Bytes>)
    requires fn <= sn
  {
    MeetsBadInput(seed, rest, if 0 <= sn then |FnSnSides(fn, sn)| else |rest|)
  }

  // Among the hashes of the proof that are used, one or the seed is no digest.
  predicate IsMalformed(m: int, firstRoot: Bytes, n: int, proof: seq<Bytes>)
    requires m != 0 && m < n && proof != []
  {
    var seed, rest := Seed(m, firstRoot, proof), Rest(m, proof);
    if 0 < m then MeetsBadInput(seed, rest, Length(RouteTo(m, n, AtBlock)))
    else
      var (fn, sn) := SkipOdd(m - 1, n - 1);
      Breaks(fn, sn, seed, rest)
  }

  method ReadProof(proofHex: seq<string>) returns (r: Result<seq<Bytes>>)
    ensures r == DecodeHashes(proofHex)
  {
    var proof: seq<Bytes> := [];
    for i := 0 to |proofHex|
      invariant |proof| == i
      invariant forall j | 0 <= j < i :: ParseHex(proofHex[j]) == Ok(proof[j])
    {
      var b := HexToBytes(proofHex[i]);
      if b.Err? {
        return Err;
      }
      proof := proof + [b.value];
    }
    assert proof == DecodeHashes(proofHex).value;
    r := Ok(proof);
  }

  // Skip the levels at which the last block of the first m leaves is a whole
  // pair: there fn is odd. Sizes are BigInt values and may even be negative.
  method LowestLevel(m: int, n: int) returns (fn: int, sn: int)
    requires m != 0
    ensures (fn, sn) == SkipOdd(m - 1, n - 1)
  {
    fn, sn := m - 1, n - 1;
    while fn % 2 == 1
      invariant fn != -1 && SkipOdd(fn, sn) == SkipOdd(m - 1, n - 1)
      decreases if fn < 0 then -fn else fn
    {
      fn, sn := fn / 2, sn / 2;
    }
  }

  // What the two climbs of the main loop have still to do from a given point.
  datatype Pending = Pending(fn: int, sn: int, first: Climb, second: Climb, rest: seq<Bytes>)

  predicate Fits(s: Pending) {
    0 <= s.sn && s.fn <= s.sn && |s.rest| == |FnSnSides(s.fn, s.sn)|
  }

  function FirstEnd(H: HashFn, s: Pending): Climb
    requires Fits(s)
  {
    ClimbLeftLevels(H, FnSnSides(s.fn, s.sn), s.first, s.rest)
  }

  function SecondEnd(H: HashFn, s: Pending): Climb
    requires Fits(s)
  {
    ClimbLevels(H, FnSnSides(s.fn, s.sn), s.second, s.rest)
  }

  // s' is as far from its end as s is, and ends in the same roots.
  predicate SameEnd(H: HashFn, s: Pending, s': Pending) {
    && (Fits(s) <==> Fits(s'))
    && (Fits(s) ==> FirstEnd(H, s) == FirstEnd(H, s') && SecondEnd(H, s) == SecondEnd(H, s'))
  }

  function ShiftedTo(fn: int, sn: int): (int, int) {
    var (f, s) := SkipOrphan(fn, sn);
    (f / 2, s / 2)
  }

  function PastLeft(H: HashFn, s: Pending): Pending
    requires s.rest != []
  {
    var (f, n) := ShiftedTo(s.fn, s.sn);
    Pending(f, n, Join(H, s.first, LeftSibling, s.rest[0]), Join(H, s.second, LeftSibling, s.rest[0]), s.rest[1..])
  }

  function PastRight(H: HashFn, s: Pending): Pending
    requires s.rest != []
  {
    Pending(s.fn / 2, s.sn / 2, s.first, Join(H, s.second, RightSibling, s.rest[0]), s.rest[1..])
  }

  lemma {:induction false} LeftStep(H: HashFn, s: Pending)
    requires s.fn <= s.sn && s.sn > 0 && s.rest != [] && (s.fn % 2 == 1 || s.fn == s.sn)
    ensures var s' := PastLeft(H, s); 0 <= s'.sn && s'.fn <= s'.sn && SameEnd(H, s, s')
  {
    var (f, n) := ShiftedTo(s.fn, s.sn);
    assert FnSnSides(s.fn, s.sn) == [LeftSibling] + FnSnSides(f, n);
  }

  lemma {:induction false} RightStep(H: HashFn, s: Pending)
    requires s.fn < s.sn && s.sn > 0 && s.rest != [] && s.fn % 2 == 0
    ensures var s' := PastRight(H, s); 0 <= s'.sn && s'.fn <= s'.sn && SameEnd(H, s, s')
  {
    assert FnSnSides(s.fn, s.sn) == [RightSibling] + FnSnSides(s.fn / 2, s.sn / 2);
  }

  lemma {:induction false} SameEndThen(H: HashFn, s: Pending, now: Pending, next: Pending)
    requires SameEnd(H, s, now) && SameEnd(H, now, next)
    ensures SameEnd(H, s, next)
  {
  }

  // The inner loop.
  method ShiftOrphan(fn0: int, sn0: int) returns (fn: int, sn: int)
    ensures (fn, sn) == SkipOrphan(fn0, sn0)
  {
    fn, sn := fn0, sn0;
    while fn != 0 && fn % 2 == 0
      invariant SkipOrphan(fn, sn) == SkipOrphan(fn0, sn0)
      decreases if fn < 0 then -fn else fn
    {
      fn, sn := fn / 2, sn / 2;
    }
  }

  // The main loop, from the seed. hashedFirst and hashedSecond are what the
  // climbs to the two roots hand to SHA-256.
  method ClimbToRoots(H: HashFn, fn0: int, sn0: int, seed: Bytes, rest: seq<Bytes>)
    returns (fr: Bytes, sr: Bytes, end: Verdict, ghost hashedFirst: seq<Bytes>, ghost hashedSecond: seq<Bytes>)
    requires fn0 <= sn0
    ensures end == Valid <==>
      Fits(Pending(fn0, sn0, Climb(seed, []), Climb(seed, []), rest))
        && (rest == [] || (|seed| == 32 && AllDigests(rest)))
    ensures end == Error <==> Breaks(fn0, sn0, seed, rest)
    ensures end == Valid ==>
      var s := Pending(fn0, sn0, Climb(seed, []), Climb(seed, []), rest);
      fr == FirstEnd(H, s).node && sr == SecondEnd(H, s).node
    ensures end == Valid ==>
      var s := Pending(fn0, sn0, Climb(seed, []), Climb(seed, []), rest);
      hashedFirst == FirstEnd(H, s).hashed && hashedSecond == SecondEnd(H, s).hashed
  {
    ghost var s := Pending(fn0, sn0, Climb(seed, []), Climb(seed, []), rest);
    var fn, sn, idx := fn0, sn0, 0;
    fr, sr := seed, seed;
    hashedFirst, hashedSecond := [], [];
    assert rest[0..] == rest;
    ghost var now := s;
    while idx < |rest|
      invariant 0 <= idx <= |rest| && forall j | 0 <= j < idx :: |rest[j]| == 32
      invariant |fr| == |sr| == |seed| && (idx > 0 ==> |seed| == 32)
      invariant fn <= sn && (0 <= sn <==> 0 <= sn0)
      invariant now == Pending(fn, sn, Climb(fr, hashedFirst), Climb(sr, hashedSecond), rest[idx..])
      invariant 0 <= sn0 ==> SameEnd(H, s, now) && |FnSnSides(fn0, sn0)| == idx + |FnSnSides(fn, sn)|
    {
      var c := rest[idx];
      if sn == 0 {
        return fr, sr, Invalid, hashedFirst, hashedSecond;
      }
      assert rest[idx..][0] == c && rest[idx..][1..] == rest[idx + 1..];
      ghost var next;
      if fn % 2 == 1 || fn == sn {
        next := PastLeft(H, now);
        if 0 <= sn0 {
          LeftStep(H, now);
        }
        hashedFirst := hashedFirst + [NodeInput(c, fr)];
        hashedSecond := hashedSecond + [NodeInput(c, sr)];
        var first := HashNode(H, c, fr);
        if first.Err? {
          return fr, sr, Error, hashedFirst, hashedSecond;
        }
        var second := HashNode(H, c, sr);
        if second.Err? {
          return fr, sr, Error, hashedFirst, hashedSecond;
        }
        fr, sr := first.value, second.value;
        fn, sn := ShiftOrphan(fn, sn);
      } else {
        next := PastRight(H, now);
        if 0 <= sn0 {
          RightStep(H, now);
        }
        hashedSecond := hashedSecond + [NodeInput(sr, c)];
        var second := HashNode(H, sr, c);
        if second.Err? {
          return fr, sr, Error, hashedFirst, hashedSecond;
        }
        sr := second.value;
      }
      fn, sn := fn / 2, sn / 2;
      idx := idx + 1;
      if 0 <= sn0 {
        SameEndThen(H, s, now, next);
      }
      now := next;
    }
    end := if sn == 0 then Valid else Invalid;
  }

  // With the sides of a route, the two climbs of the loop are those up the route.
  lemma {:induction false} EndsAreClimbs(H: HashFn, s: Pending, route: Route)
    requires 0 <= s.sn && s.fn <= s.sn && FnSnSides(s.fn, s.sn) == Sides(route)
    ensures Fits(s) <==> |s.rest| == Length(route)
    ensures Fits(s) ==>
      FirstEnd(H, s) == ClimbLeft(H, route, s.first, s.rest) && SecondEnd(H, s) == ClimbUp(H, route, s.second, s.rest)
  {
    if Fits(s) {
      LevelsClimbUp(H, route, s.first, s.rest);
      LevelsClimbUp(H, route, s.second, s.rest);
    }
  }

  lemma {:induction false} StartsOnRoute(H: HashFn, m: nat, n: nat, fn: int, sn: int, start: Climb, rest: seq<Bytes>)
    requires 0 < m < n && (fn, sn) == SkipOdd(m - 1, n - 1)
    ensures var s, route := Pending(fn, sn, start, start, rest), RouteTo(m, n, AtBlock);
      && (Fits(s) <==> |rest| == Length(route))
      && (Fits(s) ==>
          FirstEnd(H, s) == ClimbLeft(H, route, start, rest) && SecondEnd(H, s) == ClimbUp(H, route, start, rest))
  {
    SkipOddSides(m - 1, n - 1);
    EndsAreClimbs(H, Pending(fn, sn, start, start, rest), RouteTo(m, n, AtBlock));
  }

  lemma {:induction false} BreaksOnRoute(m: int, firstRoot: Bytes, n: int, proof: seq<Bytes>, fn: int, sn: int)
    requires m != 0 && m < n && proof != [] && (fn, sn) == SkipOdd(m - 1, n - 1)
    ensures fn <= sn
    ensures Breaks(fn, sn, Seed(m, firstRoot, proof), Rest(m, proof)) <==> IsMalformed(m, firstRoot, n, proof)
  {
    hide MeetsBadInput;
    if 0 < m {
      SkipOddSides(m - 1, n - 1);
    }
  }

  // The part of verifyConsistency that is reached with a non-empty decoded proof
  // between two different sizes, the first not zero.
  method VerifyDecoded(H: HashFn, firstSize: int, firstRoot: Bytes, secondSize: int, secondRoot: Bytes,
                       proof: seq<Bytes>)
    returns (v: Verdict, ghost hashedFirst: seq<Bytes>, ghost hashedSecond: seq<Bytes>)
    requires firstSize != 0 && firstSize < secondSize && proof != []
    ensures v == Valid <==>
      if 0 < firstSize then Accepts(H, firstSize, firstRoot, secondSize, secondRoot, proof)
      else AcceptsNegative(H, firstSize, firstRoot, secondSize, secondRoot, proof)
    ensures v == Error <==> IsMalformed(firstSize, firstRoot, secondSize, proof)
    ensures 0 < firstSize && v == Valid ==>
      && hashedFirst == FirstClimb(H, firstSize, firstRoot, secondSize, proof).hashed
      && hashedSecond == SecondClimb(H, firstSize, firstRoot, secondSize, proof).hashed
  {
    var fn, sn := LowestLevel(firstSize, secondSize);
    var seed, rest;
    if IsPowerOfTwo(firstSize) {
      seed, rest := firstRoot, proof;
    } else {
      seed, rest := proof[0], proof[1..];
    }
    assert AllDigests(proof) <==> (IsPowerOfTwo(firstSize) || |proof[0]| == 32) && AllDigests(rest) by {
      assert proof == [proof[0]] + proof[1..];
    }
    if 0 < firstSize {
      StartsOnRoute(H, firstSize, secondSize, fn, sn, Climb(seed, []), rest);
    }
    BreaksOnRoute(firstSize, firstRoot, secondSize, proof, fn, sn);
    var fr, sr, end;
    fr, sr, end, hashedFirst, hashedSecond := ClimbToRoots(H, fn, sn, seed, rest);
    if end != Valid {
      return end, hashedFirst, hashedSecond;
    }
    var firstOk := EqualBytes(fr, firstRoot);
    var secondOk := EqualBytes(sr, secondRoot);
    v := if firstOk && secondOk then Valid else Invalid;
  }

  // The verdict of verifyConsistency, on any integers. Equal sizes need equal
  // roots and no proof; a first size of zero needs nothing at all.
  predicate IsConsistent(H: HashFn, m: int, firstRoot: Bytes, n: int, secondRoot: Bytes, proofHex: seq<string>) {
    if m >= n then m == n && proofHex == [] && firstRoot == secondRoot
    else if m == 0 then true
    else
      var proof := DecodeHashes(proofHex);
      && proof.Ok?
      && if 0 < m then Accepts(H, m, firstRoot, n, secondRoot, proof.value)
         else AcceptsNegative(H, m, firstRoot, n, secondRoot, proof.value)
  }

  // When it throws instead: sizes in the wrong order, or a proof between two sizes
  // that does not decode or has something other than a digest to hash.
  predicate IsRejected(m: int, firstRoot: Bytes, n: int, proofHex: seq<string>) {
    || m > n
    || (m < n && m != 0 && proofHex != []
        && (DecodeHashes(proofHex).Err? || IsMalformed(m, firstRoot, n, DecodeHashes(proofHex).value)))
  }

  // So with sizes in order, a first root of 32 bytes and hashes of 32 bytes there is
  // always an answer.
  lemma {:induction false} DigestsAreNotRejected(m: nat, firstRoot: Bytes, n: nat, proofHex: seq<string>)
    requires m <= n && |firstRoot| == 32 && DecodeHashes(proofHex).Ok? && AllDigests(DecodeHashes(proofHex).value)
    ensures !IsRejected(m, firstRoot, n, proofHex)
  {
  }

  // verifyConsistency.
  method VerifyConsistency(H: HashFn, firstSize: int, firstRoot: Bytes, secondSize: int, secondRoot: Bytes,
                           proofHex: seq<string>)
    returns (v: Verdict, ghost hashedFirst: seq<Bytes>, ghost hashedSecond: seq<Bytes>)
    ensures v == Valid <==> IsConsistent(H, firstSize, firstRoot, secondSize, secondRoot, proofHex)
    ensures v == Error <==> IsRejected(firstSize, firstRoot, secondSize, proofHex)
    ensures 0 < firstSize < secondSize && v == Valid ==>
      var proof := DecodeHashes(proofHex).value;
      && hashedFirst == FirstClimb(H, firstSize, firstRoot, secondSize, proof).hashed
      && hashedSecond == SecondClimb(H, firstSize, firstRoot, secondSize, proof).hashed
  {
    hashedFirst, hashedSecond := [], [];
    if firstSize > secondSize {
      return Error, hashedFirst, hashedSecond;
    }
    if firstSize == secondSize {
      var equal := EqualBytes(firstRoot, secondRoot);
      return if |proofHex| == 0 && equal then Valid else Invalid, hashedFirst, hashedSecond;
    }
    if firstSize == 0 {
      return Valid, hashedFirst, hashedSecond;
    }
    if |proofHex| == 0 {
      return Invalid, hashedFirst, hashedSecond;
    }
    var proof := ReadProof(proofHex);
    if proof.Err? {
      return Error, hashedFirst, hashedSecond;
    }
    v, hashedFirst, hashedSecond := VerifyDecoded(H, firstSize, firstRoot, secondSize, secondRoot, proof.value);
  }

  // ----- completeness -----

  // Where PROOF(m, D) starts its climb, and the siblings it sends for it.
  function BlockHash(H: HashFn, m: nat, D: seq<Bytes>): Digest
    requires 0 < m < |D|
  {
    var w := BlockWidth(m, |D|, AtBlock);
    Mth(H, D, m - w, w)
  }

  // The block, the first m leaves and PROOF(m, D) in terms of the tree over D.
  lemma {:induction false} FootIsBlock(H: HashFn, m: nat, D: seq<Bytes>)
    requires 0 < m < |D|
    ensures var t, route := TreeOf(D, 0, |D|), RouteTo(m, |D|, AtBlock);
      HasRoute(t, route) && TreeHash(H, Foot(t, route)) == BlockHash(H, m, D)
  {
    var w := BlockWidth(m, |D|, AtBlock);
    RouteFits(m, D, 0, |D|, AtBlock);
    RouteFoot(m, D, 0, |D|, AtBlock, m - w, w);
  }

  lemma {:induction false} TrimmedIsPrefix(H: HashFn, m: nat, D: seq<Bytes>)
    requires 0 < m < |D|
    ensures var t, route := TreeOf(D, 0, |D|), RouteTo(m, |D|, AtBlock);
      HasRoute(t, route) && TreeHash(H, Trimmed(t, route)) == Root(H, D[..m])
  {
    RouteFits(m, D, 0, |D|, AtBlock);
    RouteTrims(m, D, 0, |D|, AtBlock);
    TreeOfPrefix(D, m, 0, m);
  }

  lemma {:induction false} ProofIsHonest(H: HashFn, m: nat, D: seq<Bytes>)
    requires 0 < m < |D|
    ensures var t, route := TreeOf(D, 0, |D|), RouteTo(m, |D|, AtBlock);
      && HasRoute(t, route)
      && ConsistencyProof(H, m, D) ==
         (if IsPowerOfTwo(m) then [] else [TreeHash(H, Foot(t, route))]) + HonestPath(H, t, route)
  {
    var t, route := TreeOf(D, 0, |D|), RouteTo(m, |D|, AtBlock);
    RouteFits(m, D, 0, |D|, AtBlock);
    SubProofIsHonest(H, m, D, 0, |D|, true);
    SeededPathSplits(H, t, route, true);
    LeftmostBlock(m, |D|);
    PowerOfTwoTest(m);
  }

  lemma {:induction false} BlockIsPrefix(H: HashFn, m: nat, D: seq<Bytes>)
    requires 0 < m < |D| && IsPowerOfTwo(m)
    ensures BlockHash(H, m, D) == Root(H, D[..m])
  {
    PowerOfTwoTest(m);
    LeftmostBlock(m, |D|);
    TreeOfPrefix(D, m, 0, m);
  }

  // What both verdicts rest on: seed and rest of PROOF(m, D), and where the two
  // climbs of the honest path lead from the block.
  lemma {:induction false} HonestProof(H: HashFn, m: nat, D: seq<Bytes>)
    requires 0 < m < |D|
    ensures var t, route, proof := TreeOf(D, 0, |D|), RouteTo(m, |D|, AtBlock), ConsistencyProof(H, m, D);
      && HasRoute(t, route) && proof != []
      && Seed(m, Root(H, D[..m]), proof) == TreeHash(H, Foot(t, route)) && Rest(m, proof) == HonestPath(H, t, route)
      && TreeHash(H, Trimmed(t, route)) == Root(H, D[..m])
  {
    FootIsBlock(H, m, D);
    TrimmedIsPrefix(H, m, D);
    ProofIsHonest(H, m, D);
    if IsPowerOfTwo(m) {
      BlockIsPrefix(H, m, D);
    }
  }

  // PROOF(m, D) is accepted between the roots of the first m leaves and of D.
  lemma {:induction false} ConsistencyComplete(H: HashFn, m: nat, D: seq<Bytes>)
    requires 0 < m < |D|
    ensures Accepts(H, m, Root(H, D[..m]), |D|, Root(H, D), ConsistencyProof(H, m, D))
  {
    var t, route, proof := TreeOf(D, 0, |D|), RouteTo(m, |D|, AtBlock), ConsistencyProof(H, m, D);
    HonestProof(H, m, D);
    HonestClimb(H, t, route, Climb(Seed(m, Root(H, D[..m]), proof), []));
  }

  // The same through the hex text that the server sends and the page reads, for
  // all sizes; outside 0 < m < |D| no hash is sent.
  lemma {:induction false} ServedConsistencyVerifies(H: HashFn, m: nat, D: seq<Bytes>)
    requires m <= |D|
    ensures var proof := if 0 < m < |D| then ConsistencyProof(H, m, D) else [];
      IsConsistent(H, m, Root(H, D[..m]), |D|, Root(H, D), EncodeHashes(proof))
  {
    if 0 < m < |D| {
      ConsistencyComplete(H, m, D);
      HashesRoundTrip(ConsistencyProof(H, m, D));
    } else {
      assert m == |D| ==> D[..m] == D;
    }
  }

  // ----- soundness -----

  // If a proof is accepted from any first root to the root of D, then the first
  // root is that of the first m leaves of D and the proof is PROOF(m, D), or the
  // two computations of the second root collide.
  function ConsistencySound(H: HashFn, m: nat, firstRoot: Bytes, D: seq<Bytes>, proof: seq<Bytes>)
    : (found: Option<Collision>)
    requires 0 < m < |D| && Accepts(H, m, firstRoot, |D|, Root(H, D), proof)
    ensures found.None? ==> firstRoot == Root(H, D[..m]) && proof == ConsistencyProof(H, m, D)
    ensures found.Some? ==>
      CollidesWithTree(H, found.value, SecondClimb(H, m, firstRoot, |D|, proof).hashed, TreeOf(D, 0, |D|))
  {
    FootIsBlock(H, m, D);
    var found := CompareClimb(H, TreeOf(D, 0, |D|), RouteTo(m, |D|, AtBlock), Climb(Seed(m, firstRoot, proof), []),
      Rest(m, proof));
    if found.Some? then found
    else
      HonestRestIsHonest(H, m, firstRoot, D, proof);
      None
  }

  lemma {:induction false} HonestRestIsHonest(H: HashFn, m: nat, firstRoot: Bytes, D: seq<Bytes>, proof: seq<Bytes>)
    requires 0 < m < |D| && WellFormed(m, firstRoot, |D|, proof)
    requires FirstClimb(H, m, firstRoot, |D|, proof).node == firstRoot
    requires var t, route := TreeOf(D, 0, |D|), RouteTo(m, |D|, AtBlock);
      HasRoute(t, route) && Seed(m, firstRoot, proof) == TreeHash(H, Foot(t, route))
        && Rest(m, proof) == HonestPath(H, t, route)
    ensures firstRoot == Root(H, D[..m]) && proof == ConsistencyProof(H, m, D)
  {
    HonestProof(H, m, D);
    HonestClimb(H, TreeOf(D, 0, |D|), RouteTo(m, |D|, AtBlock), Climb(Seed(m, firstRoot, proof), []));
    SameProof(m, firstRoot, proof, ConsistencyProof(H, m, D));
  }

  lemma {:induction false} SameProof(m: nat, root: Bytes, p: seq<Bytes>, q: seq<Bytes>)
    requires p != [] && q != [] && Seed(m, root, p) == Seed(m, root, q) && Rest(m, p) == Rest(m, q)
    ensures p == q
  {
    assert p == [p[0]] + p[1..] && q == [q[0]] + q[1..];
  }

  // With a first size of zero neither root nor proof matters.
  lemma ZeroSizeAcceptsAnything(H: HashFn, firstRoot: Bytes, n: nat, secondRoot: Bytes, proofHex: seq<string>)
    requires 0 < n
    ensures IsConsistent(H, 0, firstRoot, n, secondRoot, proofHex)
  {
  }

  // ----- for which first sizes is an untrusted first root pinned down? -----

  // c is a collision between the run that climbs to the root of E and the tree.
  predicate InRun(H: HashFn, m: nat, firstRoot: Bytes, E: seq<Bytes>, proofHex: seq<string>, c: Collision)
    requires IsConsistent(H, m, firstRoot, |E|, Root(H, E), proofHex)
  {
    && 0 < m < |E|
    && CollidesWithTree(H, c, SecondClimb(H, m, firstRoot, |E|, DecodeHashes(proofHex).value).hashed, TreeOf(E, 0, |E|))
  }

  // An accepted proof to the root of D leaves no choice for the first root: it is
  // that of the first m leaves, unless the run collides with the tree over D.
  ghost predicate Binds(H: HashFn, m: int, firstRoot: Bytes, D: seq<Bytes>, proofHex: seq<string>)
    requires IsConsistent(H, m, firstRoot, |D|, Root(H, D), proofHex)
  {
    || (0 <= m <= |D| && firstRoot == Root(H, D[..m]))
    || (0 < m < |D| && exists c :: InRun(H, m, firstRoot, D, proofHex, c))
  }

  lemma {:induction false} PositiveSizeBinds(H: HashFn, m: nat, firstRoot: Bytes, D: seq<Bytes>, proofHex: seq<string>)
    requires 0 < m && IsConsistent(H, m, firstRoot, |D|, Root(H, D), proofHex)
    ensures Binds(H, m, firstRoot, D, proofHex)
  {
    if m == |D| {
      assert D[..m] == D;
    } else {
      var found := ConsistencySound(H, m, firstRoot, D, DecodeHashes(proofHex).value);
      assert found.Some? ==> InRun(H, m, firstRoot, D, proofHex, found.value);
    }
  }

  // Every negative first size is accepted with two leaves as second tree: if it is
  // odd from the hash of the first leaf, and if it is even from the second root.
  lemma {:induction false} NegativeSizeIsAccepted(H: HashFn, m: int, a: Bytes, b: Bytes)
    requires m < 0
    ensures var x, y, root := H(LeafInput(a)), H(LeafInput(b)), Root(H, [a, b]);
      if m % 2 == 1 then IsConsistent(H, m, x, 2, root, EncodeHashes([x, y]))
      else IsConsistent(H, m, root, 2, root, EncodeHashes([root]))
  {
    var x: Digest, y: Digest, root: Digest := H(LeafInput(a)), H(LeafInput(b)), Root(H, [a, b]);
    if m % 2 == 1 {
      HashesRoundTrip([x, y]);
      TwoLeaves(H, a, b);
      OneRightStep(H, m, x, y);
    } else {
      HashesRoundTrip([root]);
      NoStep(H, m, root);
    }
  }

  lemma {:induction false} TwoLeaves(H: HashFn, a: Bytes, b: Bytes)
    ensures Root(H, [a, b]) == H(NodeInput(H(LeafInput(a)), H(LeafInput(b))))
  {
    assert TreeOf([a, b], 0, 2) == Node(Leaf(a), Leaf(b));
    assert TopInput(H, Leaf(a)) == LeafInput(a) && TopInput(H, Leaf(b)) == LeafInput(b);
  }

  lemma {:induction false} OneRightStep(H: HashFn, m: int, x: Digest, y: Digest)
    requires m < 0 && m % 2 == 1
    ensures AcceptsNegative(H, m, x, 2, H(NodeInput(x, y)), [x, y])
  {
    assert [x, y][1..] == [y] && [y][1..] == [];
    assert FnSnSides((m - 1) / 2, 0) == [];
    assert SkipOdd(m - 1, 1) == (m - 1, 1) && FnSnSides(m - 1, 1) == [RightSibling];
  }

  // Skipping the odd levels leaves nothing of the second index.
  lemma {:induction false} SkipOddEndsAtZero(fn: int)
    requires fn < -1
    ensures SkipOdd(fn, 0).1 == 0
    decreases -fn
  {
    if fn % 2 == 1 {
      SkipOddEndsAtZero(fn / 2);
    }
  }

  lemma {:induction false} NoStep(H: HashFn, m: int, root: Digest)
    requires m < 0 && m % 2 == 0
    ensures AcceptsNegative(H, m, root, 2, root, [root])
  {
    SkipOddEndsAtZero((m - 1) / 2);
    assert SkipOdd(m - 1, 1) == SkipOdd((m - 1) / 2, 0);
  }

  lemma {:induction false} OtherSizesDoNotBind(H: HashFn, m: int)
    returns (firstRoot: Bytes, D: seq<Bytes>, proofHex: seq<string>)
    requires m <= 0
    ensures IsConsistent(H, m, firstRoot, |D|, Root(H, D), proofHex) && !Binds(H, m, firstRoot, D, proofHex)
  {
    if m == 0 {
      firstRoot, D, proofHex := [], [[]], [];
    } else {
      D := [[], []];
      var x, y, root: Digest := H(LeafInput([])), H(LeafInput([])), Root(H, D);
      NegativeSizeIsAccepted(H, m, [], []);
      firstRoot, proofHex := if m % 2 == 1 then x else root, EncodeHashes(if m % 2 == 1 then [x, y] else [root]);
    }
  }

  // So acceptance pins down an untrusted first root exactly for the positive first
  // sizes: the check that the page would have to make first.
  lemma {:induction false} BindsExactlyPositiveSizes(H: HashFn, m: int)
    ensures (forall firstRoot, D: seq<Bytes>, proofHex | IsConsistent(H, m, firstRoot, |D|, Root(H, D), proofHex) ::
               Binds(H, m, firstRoot, D, proofHex)) <==> m > 0
  {
    if m > 0 {
      forall firstRoot, D: seq<Bytes>, proofHex | IsConsistent(H, m, firstRoot, |D|, Root(H, D), proofHex)
        ensures Binds(H, m, firstRoot, D, proofHex)
      {
        PositiveSizeBinds(H, m, firstRoot, D, proofHex);
      }
    } else {
      var firstRoot, D, proofHex := OtherSizesDoNotBind(H, m);
    }
  }

  // c is a collision between the trees over D and over as many leaves of E.
  predicate InTrees(H: HashFn, D: seq<Bytes>, E: seq<Bytes>, c: Collision) {
    && |D| <= |E| && IsCollision(H, c)
    && TreeHashes(H, TreeOf(D, 0, |D|), c.x) && TreeHashes(H, TreeOf(E, 0, |D|), c.y)
  }

  // A proof accepted from the root of D to the root of E shows that D is a prefix
  // of E, for all sizes, or yields a collision: between the run and the tree over
  // E, or between the trees over D and over as many leaves of E.
  function AppendOnly(H: HashFn, D: seq<Bytes>, E: seq<Bytes>, proofHex: seq<string>): (found: Option<Collision>)
    requires IsConsistent(H, |D|, Root(H, D), |E|, Root(H, E), proofHex)
    ensures found.None? ==> D <= E
    ensures found.Some? ==>
      InRun(H, |D|, Root(H, D), E, proofHex, found.value) || InTrees(H, D, E, found.value)
  {
    var m := |D|;
    if m == 0 then None
    else
      var inRun := if m < |E| then ConsistencySound(H, m, Root(H, D), E, DecodeHashes(proofHex).value) else None;
      if inRun.Some? then inRun
      else
        assert E[..m] == E || m < |E|;
        TreeOfPrefix(E, m, 0, m);
        var inTrees := CompareTrees(H, TreeOf(D, 0, m), TreeOf(E, 0, m));
        if inTrees.None? then
          TreeOfLeaves(D, 0, m);
          TreeOfLeaves(E, 0, m);
          assert D == D[0..0 + m] == E[0..0 + m] == E[..m];
          None
        else inTrees
  }

  // The sizes alone fix the length of an accepted proof: at most one hash more than
  // the height of the tree.
  lemma {:induction false} AcceptedLength(H: HashFn, m: nat, firstRoot: Bytes, D: seq<Bytes>, secondRoot: Bytes,
                                          proof: seq<Bytes>)
    requires 0 < m < |D| && Accepts(H, m, firstRoot, |D|, secondRoot, proof)
    ensures |proof| == |ConsistencyProof(H, m, D)| <= CeilLog2(|D|) + 1
  {
    HonestProof(H, m, D);
    RouteIsShort(m, |D|, AtBlock);
  }

  // ----- the two verifiers together -----

  // A leaf accepted at position i of a first tree whose root is consistent with
  // the root of E is leaf i of E, or one of the two runs yields a collision.
  function InclusionSurvives(H: HashFn, i: nat, n: nat, root: Digest, leaf: Bytes, p: seq<Digest>,
                             E: seq<Bytes>, proofHex: seq<string>): (found: Option<Collision>)
    requires Inc.Accepts(H, i, n, root, leaf, p)
    requires IsConsistent(H, n, root, |E|, Root(H, E), proofHex)
    ensures found.None? ==> i < |E| && leaf == E[i]
    ensures found.Some? ==>
      || InRun(H, n, root, E, proofHex, found.value)
      || (n <= |E| && CollidesWithTree(H, found.value, Inc.InclusionClimb(H, i, n, leaf, p).hashed, TreeOf(E, 0, n)))
  {
    var later := if n < |E| then ConsistencySound(H, n, root, E, DecodeHashes(proofHex).value) else None;
    if later.Some? then later
    else
      assert E[..n] == E || n < |E|;
      TreeOfPrefix(E, n, 0, n);
      Inc.InclusionSound(H, i, E[..n], leaf, p)
  }
}
