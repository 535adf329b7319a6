// client/verify.js: offline verification of an inclusion proof.
module InclusionVerifier {
  import opened Wrappers
  import opened PowersOfTwo
  import opened HashTrees
  import opened Rfc6962
  import opened ClientCrypto

  const MAX_SAFE_INTEGER: int := 0x1F_FFFF_FFFF_FFFF

  datatype Verdict = Verdict(ok: bool, computedRootHex: string)

  // The proof hashes of a JSON proof; Err when one is not 32 bytes of hex.
  function DecodeSiblings(proofHex: seq<string>): Result<seq<Digest>> {
    var p := DecodeHashes(proofHex);
    if p.Ok? && AllDigests(p.value) then Ok(p.value) else Err
  }

  // The climb that a proof of the right length amounts to.
  function InclusionClimb(H: HashFn, index: nat, treeSize: nat, leaf: Bytes, sibs: seq<Digest>): Climb
    requires index < treeSize && |sibs| == Length(RouteTo(index + 1, treeSize, AtLeaf))
  {
    ClimbUp(H, RouteTo(index + 1, treeSize, AtLeaf), LeafClimb(H, leaf), sibs)
  }

  // hashed is what the run of the verifier on these texts hands to SHA-256.
  predicate Climbs(H: HashFn, index: int, treeSize: int, leaf: Bytes, proofHex: seq<string>, hashed: seq<Bytes>) {
    var sibs := DecodeSiblings(proofHex);
    && 0 <= index < treeSize && sibs.Ok? && |sibs.value| == Length(RouteTo(index + 1, treeSize, AtLeaf))
    && hashed == InclusionClimb(H, index, treeSize, leaf, sibs.value).hashed
  }

  predicate Accepts(H: HashFn, index: nat, treeSize: nat, root: Digest, leaf: Bytes, sibs: seq<Digest>) {
    && index < treeSize
    && |sibs| == Length(RouteTo(index + 1, treeSize, AtLeaf))
    && InclusionClimb(H, index, treeSize, leaf, sibs).node == root
  }

  // What verifyInclusionRFC6962 returns. A proof of any other length than that
  // of the route to the leaf is an error, and so is malformed input.
  function Inclusion(H: HashFn, index: int, treeSize: int, rootHex: string, leaf: Bytes,
                     proofHex: seq<string>): Result<Verdict>
  {
    var root, sibs := ParseHex(rootHex), DecodeSiblings(proofHex);
    if 0 <= index < treeSize <= MAX_SAFE_INTEGER && root.Ok? && |root.value| == 32 && sibs.Ok?
       && |sibs.value| == Length(RouteTo(index + 1, treeSize, AtLeaf)) then
      var top := InclusionClimb(H, index, treeSize, leaf, sibs.value).node;
      Ok(Verdict(top == root.value, BytesToHex(top)))
    else Err
  }

  method ReadSiblings(proofHex: seq<string>) returns (r: Result<seq<Digest>>)
    ensures r == DecodeSiblings(proofHex)
  {
    var sibs: seq<Digest> := [];
    for i := 0 to |proofHex|
      invariant |sibs| == i
      invariant forall j | 0 <= j < i :: ParseHex(proofHex[j]) == Ok(sibs[j])
    {
      var b := HexToBytes(proofHex[i]);
      if b.Err? || |b.value| != 32 {
        assert b.Ok? && DecodeHashes(proofHex).Ok? ==> DecodeHashes(proofHex).value[i] == b.value;
        return Err;
      }
      sibs := sibs + [b.value];
    }
    assert DecodeHashes(proofHex).value == sibs;
    r := Ok(sibs);
  }

  // The loop of the verifier. It climbs one level at a time and returns Err when
  // the proof turns out too short or too long; hashed is what it hands to SHA-256.
  method ClimbToRoot(H: HashFn, index: nat, treeSize: nat, leafBytes: Bytes, sibs: seq<Digest>)
    returns (res: Result<Digest>, ghost hashed: seq<Bytes>)
    requires index < treeSize
    ensures res.Ok? <==> |sibs| == Length(RouteTo(index + 1, treeSize, AtLeaf))
    ensures res.Ok? ==> InclusionClimb(H, index, treeSize, leafBytes, sibs) == Climb(res.value, hashed)
  {
    ghost var route := RouteTo(index + 1, treeSize, AtLeaf);
    ghost var start := LeafClimb(H, leafBytes);
    ClimbSidesIsRoute(index, treeSize);

    var r := HashLeaf(H, leafBytes);
    hashed := [LeafInput(leafBytes)];
    var idx, n, pi := index, treeSize, 0;
    while n > 1
      invariant 0 <= idx < n && 0 <= pi <= |sibs|
      invariant |sibs| - Length(route) == |sibs| - pi - |ClimbSides(idx, n)|
      invariant |sibs| == Length(route) ==>
        ClimbLevels(H, ClimbSides(idx, n), Climb(r, hashed), sibs[pi..]) == ClimbLevels(H, Sides(route), start, sibs)
      decreases n
    {
      LowestSide(idx, n);
      if idx % 2 == 1 {
        if pi >= |sibs| {
          return Err, hashed;
        }
        hashed := hashed + [NodeInput(sibs[pi], r)];
        var node := HashNode(H, sibs[pi], r);
        r, pi := node.value, pi + 1;
      } else if idx < n - 1 {
        if pi >= |sibs| {
          return Err, hashed;
        }
        hashed := hashed + [NodeInput(r, sibs[pi])];
        var node := HashNode(H, r, sibs[pi]);
        r, pi := node.value, pi + 1;
      }
      idx, n := idx / 2, (n + 1) / 2;
    }
    if pi != |sibs| {
      return Err, hashed;
    }
    LevelsClimbUp(H, route, start, sibs);
    res := Ok(r);
  }

  // verifyInclusionRFC6962.
  method VerifyInclusion(H: HashFn, index: int, treeSize: int, rootHex: string, leafBytes: Bytes, proofHex: seq<string>)
    returns (res: Result<Verdict>, ghost hashed: seq<Bytes>)
    ensures res == Inclusion(H, index, treeSize, rootHex, leafBytes, proofHex)
    ensures res.Ok? ==> Climbs(H, index, treeSize, leafBytes, proofHex, hashed)
    ensures res.Ok? ==> hashed == InclusionClimb(H, index, treeSize, leafBytes, DecodeSiblings(proofHex).value).hashed
  {
    hashed := [];
    if !(0 <= index <= MAX_SAFE_INTEGER) || !(0 < treeSize <= MAX_SAFE_INTEGER) || index >= treeSize {
      return Err, hashed;
    }
    var root := HexToBytes(rootHex);
    if root.Err? || |root.value| != 32 {
      return Err, hashed;
    }
    var sibs := ReadSiblings(proofHex);
    if sibs.Err? {
      return Err, hashed;
    }
    var r;
    r, hashed := ClimbToRoot(H, index, treeSize, leafBytes, sibs.value);
    if r.Err? {
      return Err, hashed;
    }
    var computedRootHex := BytesToHex(r.value);
    if computedRootHex == BytesToHex(root.value) {
      HexInjective(r.value, root.value);
    }
    res := Ok(Verdict(computedRootHex == BytesToHex(root.value), computedRootHex));
  }

  // ----- completeness -----

  // The route to leaf i leads to it, past the hashes of the audit path.
  lemma {:induction false} RouteToLeaf(H: HashFn, i: nat, D: seq<Bytes>)
    requires i < |D|
    ensures var t, route := TreeOf(D, 0, |D|), RouteTo(i + 1, |D|, AtLeaf);
      HasRoute(t, route) && Foot(t, route) == Leaf(D[i]) && HonestPath(H, t, route) == InclusionProof(H, i, D)
  {
    RouteFits(i + 1, D, 0, |D|, AtLeaf);
    RouteFoot(i + 1, D, 0, |D|, AtLeaf, i, 1);
    AuditPathIsHonest(H, i, D, 0, |D|);
  }

  // The audit path of the RFC is accepted for every leaf of every tree.
  lemma {:induction false} InclusionComplete(H: HashFn, i: nat, D: seq<Bytes>)
    requires i < |D|
    ensures Accepts(H, i, |D|, Root(H, D), D[i], InclusionProof(H, i, D))
  {
    RouteToLeaf(H, i, D);
    HonestClimb(H, TreeOf(D, 0, |D|), RouteTo(i + 1, |D|, AtLeaf), LeafClimb(H, D[i]));
  }

  // The same through the hex text that the server sends and the page reads.
  lemma {:induction false} ServedProofVerifies(H: HashFn, i: nat, D: seq<Bytes>)
    requires i < |D| <= MAX_SAFE_INTEGER
    ensures var rootHex := BytesToHex(Root(H, D));
      Inclusion(H, i, |D|, rootHex, D[i], EncodeHashes(InclusionProof(H, i, D))) == Ok(Verdict(true, rootHex))
  {
    InclusionComplete(H, i, D);
    HexRoundTrip(Root(H, D));
    HashesRoundTrip(InclusionProof(H, i, D));
  }

  // ----- soundness -----

  // If leaf is accepted at position i of the tree over D, then it is leaf i of D
  // and the proof is its audit path, or the two computations of the root collide.
  function InclusionSound(H: HashFn, i: nat, D: seq<Bytes>, leaf: Bytes, p: seq<Digest>): (found: Option<Collision>)
    requires Accepts(H, i, |D|, Root(H, D), leaf, p)
    ensures found.None? ==> leaf == D[i] && p == InclusionProof(H, i, D)
    ensures found.Some? ==>
      CollidesWithTree(H, found.value, InclusionClimb(H, i, |D|, leaf, p).hashed, TreeOf(D, 0, |D|))
  {
    RouteToLeaf(H, i, D);
    var found := CompareClimb(H, TreeOf(D, 0, |D|), RouteTo(i + 1, |D|, AtLeaf), LeafClimb(H, leaf), p);
    if found.Some? then found
    else if leaf != D[i] then
      OtherLeafCollides(H, i, D, leaf, p);
      Some(Collision(LeafInput(leaf), LeafInput(D[i])))
    else None
  }

  lemma {:induction false} OtherLeafCollides(H: HashFn, i: nat, D: seq<Bytes>, leaf: Bytes, p: seq<Digest>)
    requires i < |D| && |p| == Length(RouteTo(i + 1, |D|, AtLeaf))
    requires leaf != D[i] && H(LeafInput(leaf)) == H(LeafInput(D[i]))
    ensures CollidesWithTree(H, Collision(LeafInput(leaf), LeafInput(D[i])), InclusionClimb(H, i, |D|, leaf, p).hashed,
      TreeOf(D, 0, |D|))
  {
    RouteToLeaf(H, i, D);
    FootIsHashed(H, TreeOf(D, 0, |D|), RouteTo(i + 1, |D|, AtLeaf));
    if LeafInput(leaf) == LeafInput(D[i]) {
      LeafInputInjective(leaf, D[i]);
    }
    assert LeafInput(leaf) == LeafClimb(H, leaf).hashed[0];
  }

  // Whatever index and size a proof claims, leaf bytes accepted against the
  // root of D are one of the leaves of D, or there is such a collision.
  function InclusionSoundForRoot(H: HashFn, index: nat, treeSize: nat, D: seq<Bytes>, leaf: Bytes, p: seq<Digest>)
    : (found: Option<Collision>)
    requires Accepts(H, index, treeSize, Root(H, D), leaf, p)
    ensures found.None? ==> leaf in D
    ensures found.Some? ==>
      CollidesWithTree(H, found.value, InclusionClimb(H, index, treeSize, leaf, p).hashed, TreeOf(D, 0, |D|))
  {
    var t, route := TreeOf(D, 0, |D|), RouteTo(index + 1, treeSize, AtLeaf);
    var found := LocateLeaf(H, t, leaf, route, p);
    if found.Some? then found
    else
      FootLeafIsLeaf(t, route, leaf);
      TreeOfLeaves(D, 0, |D|);
      assert D[0..0 + |D|] == D;
      None
  }

  // ----- agreement with section 2.1.3.2 of RFC 9162 -----

  // Steps 3 to 5 of that algorithm; None when it stops and fails.
  function Rfc9162Climb(H: HashFn, fn: nat, sn: nat, r: Bytes, p: seq<Bytes>): Option<Bytes>
    requires fn <= sn
    decreases |p|
  {
    if p == [] then (if sn == 0 then Some(r) else None)
    else if sn == 0 then None
    else if fn % 2 == 1 || fn == sn then
      var (f, s) := if fn % 2 == 1 then (fn, sn) else SkipOrphan(fn, sn);
      Rfc9162Climb(H, f / 2, s / 2, H(NodeInput(p[0], r)), p[1..])
    else
      Rfc9162Climb(H, fn / 2, sn / 2, H(NodeInput(r, p[0])), p[1..])
  }

  lemma {:induction false} Rfc9162Levels(H: HashFn, fn: nat, sn: nat, c: Climb, p: seq<Bytes>)
    requires fn <= sn
    ensures var sides := FnSnSides(fn, sn);
      Rfc9162Climb(H, fn, sn, c.node, p) ==
      if |p| == |sides| then Some(ClimbLevels(H, sides, c, p).node) else None
    decreases |p|
  {
    if p != [] && sn > 0 {
      if fn % 2 == 1 {
        Rfc9162Levels(H, fn / 2, sn / 2, Join(H, c, LeftSibling, p[0]), p[1..]);
      } else if fn == sn {
        var g := SkipOrphan(fn, sn).0;
        Rfc9162Levels(H, g / 2, g / 2, Join(H, c, LeftSibling, p[0]), p[1..]);
      } else {
        Rfc9162Levels(H, fn / 2, sn / 2, Join(H, c, RightSibling, p[0]), p[1..]);
      }
    }
  }

  lemma {:induction false} Rfc9162IsClimb(H: HashFn, index: nat, treeSize: nat, leaf: Bytes, p: seq<Digest>)
    requires index < treeSize
    ensures Rfc9162Climb(H, index, treeSize - 1, H(LeafInput(leaf)), p) ==
      if |p| == Length(RouteTo(index + 1, treeSize, AtLeaf))
      then Some(InclusionClimb(H, index, treeSize, leaf, p).node) else None
  {
    var route := RouteTo(index + 1, treeSize, AtLeaf);
    Rfc9162Levels(H, index, treeSize - 1, LeafClimb(H, leaf), p);
    RouteSides(index, treeSize);
    if |p| == Length(route) {
      LevelsClimbUp(H, route, LeafClimb(H, leaf), p);
    }
  }

  lemma {:induction false} RouteSides(index: nat, treeSize: nat)
    requires index < treeSize
    ensures FnSnSides(index, treeSize - 1) == Sides(RouteTo(index + 1, treeSize, AtLeaf))
  {
    FnSnSidesIsClimb(index, treeSize - 1);
    ClimbSidesIsRoute(index, treeSize);
  }

  // That algorithm from its first step on.
  predicate Rfc9162Accepts(H: HashFn, index: nat, treeSize: nat, root: Digest, leaf: Bytes, p: seq<Digest>) {
    index < treeSize && Rfc9162Climb(H, index, treeSize - 1, H(LeafInput(leaf)), p) == Some(root)
  }

  // On all input the client can read, which for a number means at most 2^53 - 1,
  // its verdict is ok exactly when that algorithm accepts.
  lemma {:induction false} SameVerdictAsRfc9162(H: HashFn, index: int, treeSize: int, rootHex: string, leaf: Bytes,
                                                proofHex: seq<string>)
    ensures var v, root, p :=
      Inclusion(H, index, treeSize, rootHex, leaf, proofHex), ParseHex(rootHex), DecodeSiblings(proofHex);
      v.Ok? && v.value.ok <==>
        && 0 <= index && 0 <= treeSize < 0x20_0000_0000_0000 && root.Ok? && |root.value| == 32 && p.Ok?
        && Rfc9162Accepts(H, index, treeSize, root.value, leaf, p.value)
  {
    var p := DecodeSiblings(proofHex);
    if 0 <= index < treeSize && p.Ok? {
      Rfc9162IsClimb(H, index, treeSize, leaf, p.value);
    }
  }

  // ----- proof lengths -----

  // Index and size alone fix the length of an accepted proof: it is that of
  // the audit path, and at most the height of the tree.
  lemma AcceptedLength(H: HashFn, index: nat, treeSize: nat, root: Digest, leaf: Bytes, p: seq<Digest>, D: seq<Bytes>)
    requires Accepts(H, index, treeSize, root, leaf, p) && |D| == treeSize
    ensures |p| == |InclusionProof(H, index, D)| <= CeilLog2(treeSize)
  {
    RouteFits(index + 1, D, 0, treeSize, AtLeaf);
    AuditPathIsHonest(H, index, D, 0, treeSize);
    ClimbSidesIsRoute(index, treeSize);
  }
}
