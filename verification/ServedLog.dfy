// The server and its verifiers together: the published part of the log is a Merkle
// tree over the bytes of the events (server/internal/api/add.go), the server sends
// proofs about it (server/internal/proofsvc/service.go), and the pages of the client
// check them.
module ServedLog {
  import opened Wrappers
  import opened Text
  import opened HashTrees
  import opened Rfc6962
  import opened ClientCrypto
  import opened NotaryEvent
  import opened NotaryServer
  import opened DocumentVerifier
  import Inc = InclusionVerifier
  import Con = ConsistencyVerifier
  import P = PayloadHash

  // The leaves of the tree.
  function Encoded(cfg: Config, log: seq<Event>): (D: seq<Bytes>)
    ensures |D| == |log| && forall i | 0 <= i < |log| :: D[i] == cfg.encode(log[i])
  {
    if log == [] then [] else Encoded(cfg, log[..|log| - 1]) + [cfg.encode(log[|log| - 1])]
  }

  function LeavesTo(cfg: Config, s: State, n: nat): (D: seq<Bytes>)
    requires n <= |s.log|
    ensures |D| == n
  {
    Encoded(cfg, s.log)[..n]
  }

  function RootTo(cfg: Config, s: State, n: nat): Digest
    requires n <= |s.log|
  {
    Root(cfg.sha256, LeavesTo(cfg, s, n))
  }

  // ----- the log only grows -----

  predicate Extends(s: State, s': State) {
    s.log <= s'.log && s.published <= s'.published
  }

  lemma {:induction false} StepExtends(cfg: Config, s: State, a: Action)
    ensures Extends(s, Step(cfg, s, a))
  {
    hide CheckChain, RowOf, IsLatest, IsFresh, CanInsert;
  }

  lemma {:induction false} RunsExtend(cfg: Config, actions: seq<Action>, more: seq<Action>)
    ensures Extends(Run(cfg, actions), Run(cfg, actions + more))
    decreases |more|
  {
    hide Step;
    if more == [] {
      assert actions + more == actions;
    } else {
      var init, last := more[..|more| - 1], more[|more| - 1];
      RunsExtend(cfg, actions, init);
      assert (actions + more)[..|actions + more| - 1] == actions + init;
      StepExtends(cfg, Run(cfg, actions + init), last);
    }
  }

  lemma {:induction false} SameLeaves(cfg: Config, s: State, s': State, n: nat)
    requires s.log <= s'.log && n <= |s.log|
    ensures LeavesTo(cfg, s, n) == LeavesTo(cfg, s', n)
  {
  }

  // ----- what the server sends is accepted -----

  // ConsistencyProof between two sizes, as hex; no hash outside 0 < m < n.
  function SentConsistency(cfg: Config, s: State, m: nat, n: nat): seq<string>
    requires m <= n <= |s.log|
  {
    EncodeHashes(if 0 < m < n then ConsistencyProof(cfg.sha256, m, LeavesTo(cfg, s, n)) else [])
  }

  // In every run and every later run, the checkpoint published first is consistent
  // with the one published later, by the proof that the server then sends.
  lemma {:induction false} CheckpointsAreConsistent(cfg: Config, actions: seq<Action>, more: seq<Action>)
    ensures var s, s' := Run(cfg, actions), Run(cfg, actions + more);
      && s.published <= |s.log| && s.published <= s'.published <= |s'.log|
      && Con.IsConsistent(cfg.sha256, s.published, RootTo(cfg, s, s.published), s'.published,
                          RootTo(cfg, s', s'.published), SentConsistency(cfg, s', s.published, s'.published))
  {
    hide Inv, Con.IsConsistent;
    var s, s' := Run(cfg, actions), Run(cfg, actions + more);
    PublishedIsInLog(cfg, actions);
    PublishedIsInLog(cfg, actions + more);
    RunsExtend(cfg, actions, more);
    SameLeaves(cfg, s, s', s.published);
    var D := LeavesTo(cfg, s', s'.published);
    assert D[..s.published] == LeavesTo(cfg, s', s.published);
    Con.ServedConsistencyVerifies(cfg.sha256, s.published, D);
  }

  lemma {:induction false} PublishedIsInLog(cfg: Config, actions: seq<Action>)
    ensures Run(cfg, actions).published <= |Run(cfg, actions).log|
  {
    RunKeepsInv(cfg, actions);
  }

  // The proof that GET /proof sends for a published entry.
  function SentInclusion(cfg: Config, s: State, i: nat): Proof
    requires i < s.published <= |s.log|
  {
    var D := LeavesTo(cfg, s, s.published);
    Proof(i, s.published, BytesToHex(Root(cfg.sha256, D)), EncodeHashes(InclusionProof(cfg.sha256, i, D)))
  }

  // The client reads in the event of an entry the payload hash that the server
  // encoded.
  ghost predicate ReadsEvents(cfg: Config, parse: EventParser) {
    forall e: Event | WellFormed(e) :: parse(cfg.encode(e)) == Ok(PayloadValue(e))
  }

  function PayloadValue(e: Event): Option<string> {
    if e.req.payloadHash.Some? then Some(e.req.payloadHash.value.value) else None
  }

  lemma {:induction false} SentTextsAreLower(H: HashFn, eventBytes: Bytes, i: nat, D: seq<Bytes>)
    requires i < |D| <= Inc.MAX_SAFE_INTEGER && eventBytes == D[i]
    ensures var rootHex := BytesToHex(Root(H, D));
      ProofVerdict(H, eventBytes, Proof(i, |D|, rootHex, EncodeHashes(InclusionProof(H, i, D)))) ==
        Ok(Inc.Verdict(true, rootHex))
  {
    hide Inc.Inclusion;
    var rootHex, hashes := BytesToHex(Root(H, D)), EncodeHashes(InclusionProof(H, i, D));
    P.LowerOfLower(rootHex);
    forall k | 0 <= k < |hashes| ensures LowerAll(hashes)[k] == hashes[k] {
      P.LowerOfLower(hashes[k]);
    }
    assert LowerAll(hashes) == hashes;
    Inc.ServedProofVerifies(H, i, D);
  }

  // The digest of a well-formed event is the one the page extracts from it.
  lemma {:induction false} ExtractsDigest(e: Event)
    requires WellFormed(e)
    ensures P.ExtractEventPayloadHash(PayloadValue(e)) ==
      if e.req.payloadHash.Some? then DocHash(e) else Err
  {
    if e.req.payloadHash.Some? {
      P.DigestSurvives(e.req.payloadHash.value.value);
    }
  }

  // In every run, for every published event and every document: with the proof that
  // the server sends, the page finds the event in the log, and the document to be the
  // notarized one exactly when its digest is that of the event. Events without a
  // payload hash cannot be verified.
  lemma {:induction false} ServedEventVerifies(cfg: Config, parse: EventParser, actions: seq<Action>, i: nat,
                                               doc: Bytes)
    requires ReadsEvents(cfg, parse) && i < Run(cfg, actions).published <= Inc.MAX_SAFE_INTEGER
    ensures var s := Run(cfg, actions);
      && s.published <= |s.log|
      && DocumentVerdict(cfg.sha256, parse, doc, cfg.encode(s.log[i]), SentInclusion(cfg, s, i)) ==
         if s.log[i].req.payloadHash.None? then Err
         else Ok(Outcome(Ok(BytesToHex(cfg.sha256(doc))) == DocHash(s.log[i]), true))
  {
    hide ProofVerdict, WellFormed, P.ExtractEventPayloadHash, DocHash;
    var s := Run(cfg, actions);
    RunKeepsInv(cfg, actions);
    var e := s.log[i];
    assert WellFormed(e);
    ExtractsDigest(e);
    SentTextsAreLower(cfg.sha256, cfg.encode(e), i, LeavesTo(cfg, s, s.published));
    DigestIsThere(e);
  }

  lemma {:induction false} DigestIsThere(e: Event)
    requires WellFormed(e)
    ensures DocHash(e).Ok?
  {
  }

  // ----- what is accepted is in the log -----

  // The event bytes are those of a published entry whose digest is the document's.
  predicate IsNotarized(cfg: Config, s: State, j: nat, doc: Bytes, eventBytes: Bytes) {
    && j < s.published && j < |s.log| && eventBytes == cfg.encode(s.log[j])
    && s.log[j].req.payloadHash.Some? && DocHash(s.log[j]) == Ok(BytesToHex(cfg.sha256(doc)))
    && WellFormed(s.log[j]) && LinkedAt(s.log, j)
  }

  // c is a collision between what the page hashed and the published tree.
  predicate InPage(cfg: Config, s: State, eventBytes: Bytes, proof: Proof, c: Collision)
    requires s.published <= |s.log|
  {
    var sibs := Inc.DecodeSiblings(LowerAll(proof.hashes));
    && 0 <= proof.logIndex < proof.treeSize && sibs.Ok?
    && |sibs.value| == Length(RouteTo(proof.logIndex + 1, proof.treeSize, AtLeaf))
    && CollidesWithTree(cfg.sha256, c,
                        Inc.InclusionClimb(cfg.sha256, proof.logIndex, proof.treeSize, eventBytes, sibs.value).hashed,
                        TreeOf(LeavesTo(cfg, s, s.published), 0, s.published))
  }

  lemma {:induction false} AcceptedProof(H: HashFn, eventBytes: Bytes, proof: Proof, root: Digest)
    requires ProofVerdict(H, eventBytes, proof).Ok? && ProofVerdict(H, eventBytes, proof).value.ok
    requires Lower(proof.rootHash) == BytesToHex(root)
    ensures var sibs := Inc.DecodeSiblings(LowerAll(proof.hashes));
      sibs.Ok? && 0 <= proof.logIndex < proof.treeSize
        && Inc.Accepts(H, proof.logIndex, proof.treeSize, root, eventBytes, sibs.value)
  {
    HexRoundTrip(root);
  }

  lemma {:induction false} AcceptedDocument(cfg: Config, parse: EventParser, e: Event, doc: Bytes, proof: Proof)
    requires ReadsEvents(cfg, parse) && WellFormed(e)
    requires var v := DocumentVerdict(cfg.sha256, parse, doc, cfg.encode(e), proof); v.Ok? && v.value.docOk
    ensures e.req.payloadHash.Some? && DocHash(e) == Ok(BytesToHex(cfg.sha256(doc)))
  {
    hide ProofVerdict, WellFormed, P.ExtractEventPayloadHash, DocHash;
    ExtractsDigest(e);
  }

  // Whenever the page accepts document and proof against the published root of a run,
  // whatever index, size and hashes the proof holds, the event is an entry of the log
  // and the document has its digest, or the two computations collide. With the size
  // of the checkpoint the index is right too.
  lemma {:induction false} VerifiedIsNotarized(cfg: Config, parse: EventParser, actions: seq<Action>,
                                               doc: Bytes, eventBytes: Bytes, proof: Proof)
    returns (j: nat, found: Option<Collision>)
    requires ReadsEvents(cfg, parse)
    requires DocumentVerdict(cfg.sha256, parse, doc, eventBytes, proof) == Ok(Outcome(true, true))
    requires var s := Run(cfg, actions);
      s.published <= |s.log| && Lower(proof.rootHash) == BytesToHex(RootTo(cfg, s, s.published))
    ensures var s := Run(cfg, actions);
      match found
      case None => IsNotarized(cfg, s, j, doc, eventBytes) && (proof.treeSize == s.published ==> j == proof.logIndex)
      case Some(c) => InPage(cfg, s, eventBytes, proof, c)
  {
    hide DocumentVerdict, WellFormed, DocHash, Run, Inv;
    var s, H := Run(cfg, actions), cfg.sha256;
    j, found := Locate(cfg, s, eventBytes, proof) by { AcceptsProof(H, parse, doc, eventBytes, proof); }
    if found.None? {
      EntryIsGood(cfg, actions, j);
      AcceptedDocument(cfg, parse, s.log[j], doc, proof);
    }
  }

  lemma {:induction false} AcceptsProof(H: HashFn, parse: EventParser, doc: Bytes, eventBytes: Bytes, proof: Proof)
    requires DocumentVerdict(H, parse, doc, eventBytes, proof) == Ok(Outcome(true, true))
    ensures ProofVerdict(H, eventBytes, proof).Ok? && ProofVerdict(H, eventBytes, proof).value.ok
  {
    hide ProofVerdict;
  }

  lemma {:induction false} EntryIsGood(cfg: Config, actions: seq<Action>, j: nat)
    requires j < |Run(cfg, actions).log|
    ensures WellFormed(Run(cfg, actions).log[j]) && LinkedAt(Run(cfg, actions).log, j)
  {
    RunKeepsInv(cfg, actions);
  }

  lemma {:induction false} Locate(cfg: Config, s: State, eventBytes: Bytes, proof: Proof)
    returns (j: nat, found: Option<Collision>)
    requires ProofVerdict(cfg.sha256, eventBytes, proof).Ok? && ProofVerdict(cfg.sha256, eventBytes, proof).value.ok
    requires s.published <= |s.log| && Lower(proof.rootHash) == BytesToHex(RootTo(cfg, s, s.published))
    ensures match found
      case None => j < s.published && eventBytes == cfg.encode(s.log[j])
        && (proof.treeSize == s.published ==> j == proof.logIndex)
      case Some(c) => InPage(cfg, s, eventBytes, proof, c)
  {
    hide ProofVerdict, Inc.Accepts, Inc.DecodeSiblings;
    var H, D := cfg.sha256, LeavesTo(cfg, s, s.published);
    AcceptedProof(H, eventBytes, proof, Root(H, D));
    var sibs := Inc.DecodeSiblings(LowerAll(proof.hashes)).value;
    j, found := LocateIn(H, D, proof.logIndex, proof.treeSize, eventBytes, sibs);
  }

  lemma {:induction false} LocateIn(H: HashFn, D: seq<Bytes>, index: nat, treeSize: nat, leaf: Bytes, sibs: seq<Digest>)
    returns (j: nat, found: Option<Collision>)
    requires Inc.Accepts(H, index, treeSize, Root(H, D), leaf, sibs)
    ensures match found
      case None => j < |D| && leaf == D[j] && (treeSize == |D| ==> j == index)
      case Some(c) => CollidesWithTree(H, c, Inc.InclusionClimb(H, index, treeSize, leaf, sibs).hashed,
        TreeOf(D, 0, |D|))
  {
    j := 0;
    if treeSize == |D| {
      found := Inc.InclusionSound(H, index, D, leaf, sibs);
      j := index;
    } else {
      found := Inc.InclusionSoundForRoot(H, index, treeSize, D, leaf, sibs);
      if found.None? {
        j :| 0 <= j < |D| && D[j] == leaf;
      }
    }
  }

  // ----- through an earlier checkpoint of unknown origin -----

  // A client has a checkpoint with a positive size from anywhere, and an event that is
  // accepted at position i of it. If that checkpoint is consistent with one that a run
  // has published, then the event is entry i of the log of that run and of every later
  // one, or one of the two verifications yields a collision.
  lemma {:induction false} ReceiptSurvives(cfg: Config, actions: seq<Action>, more: seq<Action>, i: nat, n: nat,
                                           root: Digest, eventBytes: Bytes, sibs: seq<Digest>, proofHex: seq<string>)
    returns (found: Option<Collision>)
    requires Inc.Accepts(cfg.sha256, i, n, root, eventBytes, sibs)
    requires var s := Run(cfg, actions);
      s.published <= |s.log|
        && Con.IsConsistent(cfg.sha256, n, root, s.published, RootTo(cfg, s, s.published), proofHex)
    ensures found.None? ==>
      var s' := Run(cfg, actions + more);
      i < s'.published && i < |s'.log| && eventBytes == cfg.encode(s'.log[i]) && WellFormed(s'.log[i])
        && LinkedAt(s'.log, i)
    ensures found.Some? ==>
      var E := LeavesTo(cfg, Run(cfg, actions), Run(cfg, actions).published);
      || Con.InRun(cfg.sha256, n, root, E, proofHex, found.value)
      || (n <= |E| && CollidesWithTree(cfg.sha256, found.value,
                                       Inc.InclusionClimb(cfg.sha256, i, n, eventBytes, sibs).hashed, TreeOf(E, 0, n)))
  {
    hide WellFormed, Run, Inc.Accepts, Con.IsConsistent, Con.InRun;
    var s := Run(cfg, actions);
    var E := LeavesTo(cfg, s, s.published);
    found := Con.InclusionSurvives(cfg.sha256, i, n, root, eventBytes, sibs, E, proofHex);
    if found.None? {
      RunsExtend(cfg, actions, more);
      EntryIsGood(cfg, actions + more, i);
    }
  }
}
