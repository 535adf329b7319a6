// client/verify.js: the page that verifies a document against its event and the
// inclusion proof of that event.
module DocumentVerifier {
  import opened Wrappers
  import opened HashTrees
  import opened Text
  import opened ClientCrypto
  import Inc = InclusionVerifier
  import P = PayloadHash

  // JSON.parse on the bytes of an event, and the text in payload_hash.value, if any.
  type EventParser = Bytes -> Result<Option<string>>

  datatype Outcome = Outcome(docOk: bool, proofOk: bool)

  // The texts of proof.json, which the page turns to lower case.
  datatype Proof = Proof(logIndex: int, treeSize: int, rootHash: string, hashes: seq<string>)

  function LowerAll(texts: seq<string>): (r: seq<string>)
    ensures |r| == |texts| && forall i | 0 <= i < |texts| :: r[i] == Lower(texts[i])
  {
    seq(|texts|, i requires 0 <= i < |texts| => Lower(texts[i]))
  }

  function ProofVerdict(H: HashFn, eventBytes: Bytes, proof: Proof): Result<Inc.Verdict> {
    var rootHex := Lower(proof.rootHash);
    if |rootHex| == 64 && AllLowerHex(rootHex) then
      Inc.Inclusion(H, proof.logIndex, proof.treeSize, rootHex, eventBytes, LowerAll(proof.hashes))
    else Err
  }

  // What the page reports; Err stands for its error box.
  function DocumentVerdict(H: HashFn, parse: EventParser, doc: Bytes, eventBytes: Bytes,
                           proof: Proof): Result<Outcome> {
    var value := parse(eventBytes);
    var expected := if value.Ok? then P.ExtractEventPayloadHash(value.value) else Err;
    var included := ProofVerdict(H, eventBytes, proof);
    if expected.Ok? && included.Ok? then Ok(Outcome(BytesToHex(H(doc)) == expected.value, included.value.ok)) else Err
  }

  method VerifyDocument(H: HashFn, parse: EventParser, doc: Bytes, eventBytes: Bytes, proof: Proof)
    returns (outcome: Result<Outcome>, ghost hashed: seq<Bytes>)
    ensures outcome == DocumentVerdict(H, parse, doc, eventBytes, proof)
    ensures outcome.Ok? ==> Inc.Climbs(H, proof.logIndex, proof.treeSize, eventBytes, LowerAll(proof.hashes), hashed)
  {
    hashed := [];
    var value := parse(eventBytes);
    if value.Err? {
      return Err, hashed;
    }
    var docHashHex := BytesToHex(H(doc));
    var expectedDocHashHex := P.ExtractEventPayloadHash(value.value);
    if expectedDocHashHex.Err? {
      return Err, hashed;
    }
    var docOk := docHashHex == expectedDocHashHex.value;
    var rootHex := Lower(proof.rootHash);
    if !(|rootHex| == 64 && AllLowerHex(rootHex)) {
      return Err, hashed;
    }
    var included;
    included, hashed := Inc.VerifyInclusion(H, proof.logIndex, proof.treeSize, rootHex, eventBytes,
      LowerAll(proof.hashes));
    if included.Err? {
      return Err, hashed;
    }
    outcome := Ok(Outcome(docOk, included.value.ok));
  }

  // ----- what the page accepts, without naming its operations -----

  // The text of a hash in either case.
  ghost predicate NamesHash(text: string, b: Bytes) {
    exists lower | IsLowerOf(text, lower) :: StandsFor(lower, b)
  }

  ghost predicate NameHashes(texts: seq<string>, sibs: seq<Digest>) {
    |texts| == |sibs| && forall i | 0 <= i < |texts| :: NamesHash(texts[i], sibs[i])
  }

  lemma {:induction false} NamesExactly(text: string, b: Bytes)
    ensures ParseHex(Lower(text)) == Ok(b) <==> NamesHash(text, b)
  {
    hide ParseHex, StandsFor, IsLowerOf, Lower;
    LowerIsExact(text, Lower(text));
    ParseHexIsExact(Lower(text), b);
    forall lower | IsLowerOf(text, lower) ensures lower == Lower(text) {
      LowerIsExact(text, lower);
    }
  }

  lemma {:induction false} SiblingsExactly(texts: seq<string>, sibs: seq<Digest>)
    ensures Inc.DecodeSiblings(LowerAll(texts)) == Ok(sibs) <==> NameHashes(texts, sibs)
  {
    hide ParseHex, NamesHash, Lower;
    forall i | 0 <= i < |texts| && i < |sibs|
      ensures ParseHex(Lower(texts[i])) == Ok(sibs[i]) <==> NamesHash(texts[i], sibs[i])
    {
      NamesExactly(texts[i], sibs[i]);
    }
    if NameHashes(texts, sibs) {
      assert DecodeHashes(LowerAll(texts)).value == sibs;
    }
  }

  // The text is that of a root hash: 64 digits, in either case.
  predicate NamesRoot(text: string, root: Digest) {
    IsLowerOf(text, BytesToHex(root))
  }

  lemma {:induction false} RootExactly(text: string, root: Digest)
    ensures |Lower(text)| == 64 && AllLowerHex(Lower(text)) && ParseHex(Lower(text)) == Ok(root) <==>
      NamesRoot(text, root)
  {
    hide IsLowerOf, Lower, BytesToHex;
    var h := Lower(text);
    LowerIsExact(text, BytesToHex(root));
    HexRoundTrip(root);
    if |h| == 64 && AllLowerHex(h) {
      HexPartOfDigits(h);
      EncodeOfDecode(h);
    }
  }

  // The page finds the event in the tree exactly when the texts name a root and
  // hashes for which the algorithm of section 2.1.3.2 of RFC 9162 accepts, and the
  // size is at most 2^53 - 1.
  ghost predicate IsIncluded(H: HashFn, eventBytes: Bytes, proof: Proof) {
    && 0 <= proof.logIndex && 0 <= proof.treeSize < 0x20_0000_0000_0000
    && exists root: Digest, sibs: seq<Digest> | NamesRoot(proof.rootHash, root) && NameHashes(proof.hashes, sibs) ::
         Inc.Rfc9162Accepts(H, proof.logIndex, proof.treeSize, root, eventBytes, sibs)
  }

  lemma {:induction false} ProofAcceptsExactly(H: HashFn, eventBytes: Bytes, proof: Proof)
    ensures ProofVerdict(H, eventBytes, proof).Ok? && ProofVerdict(H, eventBytes, proof).value.ok <==>
      IsIncluded(H, eventBytes, proof)
  {
    hide Lower, ParseHex, AllLowerHex, NamesRoot, NameHashes, LowerAll, Inc.DecodeSiblings, Inc.Inclusion,
         Inc.Rfc9162Accepts;
    var rootHex, texts := Lower(proof.rootHash), LowerAll(proof.hashes);
    Inc.SameVerdictAsRfc9162(H, proof.logIndex, proof.treeSize, rootHex, eventBytes, texts);
    forall root: Digest
      ensures |rootHex| == 64 && AllLowerHex(rootHex) && ParseHex(rootHex) == Ok(root) <==>
        NamesRoot(proof.rootHash, root)
    {
      RootExactly(proof.rootHash, root);
    }
    forall sibs: seq<Digest> ensures Inc.DecodeSiblings(texts) == Ok(sibs) <==> NameHashes(proof.hashes, sibs) {
      SiblingsExactly(proof.hashes, sibs);
    }
    if ProofVerdict(H, eventBytes, proof).Ok? && ProofVerdict(H, eventBytes, proof).value.ok {
      var root: Digest, sibs := ParseHex(rootHex).value, Inc.DecodeSiblings(texts).value;
      assert NamesRoot(proof.rootHash, root) && NameHashes(proof.hashes, sibs);
    }
  }

  // And it accepts document and proof exactly when in addition the event holds hex:
  // and the digest of the document in either case.
  lemma {:induction false} DocumentAcceptsExactly(H: HashFn, parse: EventParser, doc: Bytes, eventBytes: Bytes,
                                                  proof: Proof)
    ensures DocumentVerdict(H, parse, doc, eventBytes, proof) == Ok(Outcome(true, true)) <==>
      && parse(eventBytes).Ok? && parse(eventBytes).value.Some?
      && (var value := parse(eventBytes).value.value; "hex:" <= value && IsLowerOf(value[4..], BytesToHex(H(doc))))
      && IsIncluded(H, eventBytes, proof)
  {
    hide IsLowerOf, IsIncluded, ProofVerdict, P.ExtractEventPayloadHash, BytesToHex;
    ProofAcceptsExactly(H, eventBytes, proof);
    if parse(eventBytes).Ok? {
      P.ExtractsExactly(parse(eventBytes).value, BytesToHex(H(doc)));
    }
    DigestText(H(doc));
  }

  lemma {:induction false} DigestText(d: Digest)
    ensures BytesToHex(d) != "" && forall i | 0 <= i < |BytesToHex(d)| :: BytesToHex(d)[i] in HexDigits()
  {
    hide HexDigits;
    forall i | 0 <= i < |BytesToHex(d)| ensures BytesToHex(d)[i] in HexDigits() {
      HexIsExact(BytesToHex(d)[i]);
    }
  }
}
