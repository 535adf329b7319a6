# Verified model of the notarization log

This project models the parts of the document notarization service on which its
trust rests, and proves what they promise:

* **Merkle proofs.** The offline verifiers of the client are loops that shift
  indices and hash siblings. They are proved, as loops, against the recursive
  tree hash, audit path and consistency path of section 2.1 of RFC 6962, for
  trees of every size. Honest proofs are accepted (completeness); whatever is
  accepted is honest or yields two different strings with the same hash
  (soundness). SHA-256 is an arbitrary function `H` from bytes to 32 bytes. The
  soundness results are compiled functions that return the colliding pair, and
  their contracts say where the two strings come from: one was hashed by the
  verifier run (the methods report what they hash), the other while hashing the
  tree. So the results cannot be met by the mere existence of collisions.
* **The notarization server.** `POST /add` is a state machine over a log, a
  published prefix, an index table and the requests in flight. Looking up the
  head, checking the chain, appending and indexing are separate steps that
  interleave in any way; index inserts may fail, requests may vanish after any
  step, checkpoints may lag. `NotaryServer` proves what every run keeps, and
  `SerialRuns` what holds in addition for a document whose requests are served
  one at a time. `NotaryService` is the server as an object whose methods are
  these steps.
* **What is built on those invariants.** The startup check (`Alignment`), the
  version history that the client shows (`VersionHistory` for the algorithm on
  any input, `RunHistories` for the page of a running server), the searches and
  pages (`IndexQueries`, and `RunSearches` for a running server), and reading
  entries from bundles (`LogRead`). `Scenarios` has the runs that reach the limits
  of these promises.
* **Both together.** `ServedLog` joins the two halves: in every run the server's
  checkpoints are consistent and its events verify on the page of
  `DocumentVerifier`, and whatever that page accepts against a published root is
  the event of a log entry with the digest of the document, or a located
  collision is returned.
* **Anchoring.** The worker that publishes checkpoints to a text file, and the
  reader of that file (`AnchorRecord`, `AnchorFile`, `AnchorWorker`,
  `AnchorReceipts`, `AnchorTears`), over runs of ticks, demands, torn writes and
  restarts.

Things the proofs brought to light:

* An accepted consistency proof pins down an untrusted first root if and only if
  the first size is positive (`ConsistencyVerifier.BindsExactlyPositiveSizes`). With
  zero any roots and any proof are accepted (`ZeroSizeAcceptsAnything`), and every
  negative size is accepted with a first root that is not determined
  (`NegativeSizeIsAccepted`). Between the roots of two lists soundness holds for all
  sizes (`AppendOnly`).
* From an accepted `/add` to the next checkpoint the version history of the
  document cannot be shown, not even its published part: the page needs every
  listed entry (`Scenarios.AcceptedButUnpublished`, `FollowUpHidesHistory`).
* The startup check is right about every index if and only if the checkpoint
  covers the whole log (`Alignment.RightExactlyWhenCovered`). Under lag it is
  wrong on exactly two kinds of index (`RightUnderLag`), and runs reach both
  (`Scenarios.AcceptedButUnpublished`, `LostRowPasses`).
* `has_more` is set on the last page exactly when a row of that page cannot be
  read (`IndexQueries.HasMoreMeaning`), as it is after a single CREATE before its
  checkpoint (`Scenarios.HasMoreOnLastPage`). Following it gets every readable
  match exactly once.
* The search page of the client goes by the total instead and forgets it after a
  page without rows. It asks for the newest first, so it shows every published
  match unless the ten newest matches are unpublished and another one is
  published: then it shows nothing (`RunSearches.EveryRunIsBrowsed`), as after
  eleven CREATEs of which one is published (`Scenarios.TenUnpublishedHideAll`).
* A write to the anchor file that stops within a line makes the next record
  unreadable exactly when it got beyond the timestamp
  (`AnchorTears.AfterTornAndWhole`). Until then, one that got beyond the first digit
  of the checkpoint hash is read as a record with a shortened hash
  (`AnchorTears.AfterTornWrite`).
* Serving the requests for a document one at a time keeps its history linear only
  because index inserts succeed: after a lost row a second CREATE is accepted
  (`Scenarios.LostRowForks`). In general a history is linear exactly when each event
  was appended while the head it names was still the last entry
  (`SerialRuns.LinearExactlyWhenTimely`).
* The server's internal-error branch after preparing an event is never taken, and
  its index inserts never meet a conflicting row.

Conventions: a thrown JavaScript error and a Go error are `Err`, without their
messages. Clocks, UUIDs, database and file failures, the UUID parser, the JSON
encoding and checkpoint parsing are parameters. Proof generation is the
definition of the RFC.

## Model

| member | source | states |
|---|---|---|
| PowersOfTwo.PowerOfTwoTest | client/verify_consistency.html:103-105 | the bit test holds exactly for the numbers 2^e |
| ClientCrypto.HashLeaf | client/crypto.js:99-104 | filling the buffer hashes 0x00 followed by the leaf |
| ClientCrypto.HashNode | client/crypto.js:112-121 | hashes 0x01, left, right when both have 32 bytes, and fails otherwise |
| ClientCrypto.EqualBytes | client/crypto.js:133-139 | the loop decides equality |
| ClientCrypto.HexToBytes | client/crypto.js:21-30 | the loop decodes trimmed hex text with an optional 0x, and fails on any other |
| ClientCrypto.HexRoundTrip | client/crypto.js:21-39 | decoding the printed form of any bytes gives those bytes |
| ClientCrypto.EncodeOfDecode | client/crypto.js:21-39 | printing decoded lower-case digits gives the same digits |
| ClientCrypto.HexInjective | client/crypto.js:37-39 | different bytes have different hex text |
| ClientCrypto.ParseHexIsExact | client/crypto.js:21-30 | text is read as bytes exactly when, without white space around it and an optional 0x, it is their printed form in either case |
| ClientCrypto.BytesToHexAt | client/crypto.js:37-39 | each byte is printed as the digit of its upper half and that of its lower half |
| Text.HexIsExact | client/crypto.js:21-30 | the hex digits are the sixteen in either case, each worth its place |
| Text.SpacesAreExact | client/crypto.js:21-30 | the white space of the two languages, as the code points of Unicode and ECMA-262 |
| Text.TrimIsExact | server/internal/event/prepare.go:86-95 | trimming takes away the white space at both ends and nothing else |
| Text.UpperIsExact | server/internal/event/prepare.go:165-167 | folding takes each letter to the same letter in upper case and leaves the rest |
| Text.LowerIsExact | server/internal/hashutil/hash.go:10-30 | the same to lower case |
| ClientCrypto.HashesRoundTrip | client/crypto.js:21-39 | the hashes of a proof, printed and decoded, are the same hashes |
| HashTrees.CompareTrees | client/crypto.js:94-121 | trees with one root hash are equal, or two strings hashed for them collide; leaf and node prefixes keep the kinds apart |
| HashTrees.LocateLeaf | client/crypto.js:94-121 | a climb of any shape from a leaf to the root of a tree started at a leaf of that tree, or a collision is returned |
| Rfc6962.MthEquations | client/crypto.js:94-121 | the tree hash used throughout satisfies the three defining equations of MTH in section 2.1 of RFC 6962 |
| Rfc6962.RouteLowest | client/verify.js:48-62 | the way down by largest powers of two is the way through the paired-up leaves followed by one lowest level, which an orphan skips |
| Rfc6962.ClimbSidesIsRoute | client/verify.js:48-62 | the sides met when climbing level by level are those of the recursive split, at most ceil(log2 n) of them |
| Rfc6962.RouteHalves | client/verify_consistency.html:131-136 | shifting both indices while fn is odd leaves the consistency route unchanged |
| Rfc6962.LeftmostBlock | client/verify_consistency.html:138-147 | the last block of the first m leaves is all of them exactly when m is a power of two |
| Rfc6962.FnSnSidesIsClimb | client/verify_consistency.html:153-165 | the fn/sn bookkeeping with its inner loop meets the same sides as climbing level by level |
| Rfc6962.SkipOddSides | client/verify_consistency.html:131-136 | after shifting while fn is odd, the sides still to be met are those of the consistency route, with fn below sn |
| InclusionVerifier.ReadSiblings | client/verify.js:36-40 | returns all hashes, or fails when any is not 32 bytes of hex |
| InclusionVerifier.ClimbToRoot | client/verify.js:42-64 | the loop succeeds exactly on proofs as long as the route to the leaf, computes the root of the climb along that route, and reports what it hashed |
| InclusionVerifier.VerifyInclusion | client/verify.js:28-68 | verdict and computed root on every input, malformed ones included |
| InclusionVerifier.InclusionComplete | client/verify.js:42-67 | for every list and index, PATH(index, D) leads from the leaf to exactly MTH(D) |
| InclusionVerifier.ServedProofVerifies | client/verify.js:28-68 | the same through the hex text of a served proof: the verdict is ok with the root of D |
| InclusionVerifier.InclusionSound | client/verify.js:28-68 | accepted bytes are leaf i and the proof is the audit path, or a collision between the run and the tree is returned |
| InclusionVerifier.InclusionSoundForRoot | client/verify.js:28-68 | when only the root is trusted, accepted bytes are some leaf of D, or a collision is returned |
| InclusionVerifier.SameVerdictAsRfc9162 | client/verify.js:28-68 | on every index, size, root text, leaf and proof text, the verdict is ok exactly when the texts decode, the size is at most 2^53 - 1 and the algorithm of section 2.1.3.2 of RFC 9162 accepts |
| InclusionVerifier.AcceptedLength | client/verify.js:52-64 | an accepted proof has the length of PATH(index, n), at most ceil(log2 n) |
| ConsistencyVerifier.ReadProof | client/verify_consistency.html:129 | decodes all hashes or fails |
| ConsistencyVerifier.LowestLevel | client/verify_consistency.html:131-136 | the first loop ends, also on negative sizes, with both indices shifted past every odd fn |
| ConsistencyVerifier.ClimbToRoots | client/verify_consistency.html:149-168 | the nested loops succeed exactly on proofs that fit, on any integers, with both roots of the two climbs; fn never passes sn |
| ConsistencyVerifier.VerifyDecoded | client/verify_consistency.html:129-168 | accepts exactly the well-formed proofs whose climbs reach both given roots, for negative first sizes the climbs those lead to; throws exactly when a step that is reached has something other than 32 bytes to hash; and answers not valid otherwise |
| ConsistencyVerifier.VerifyConsistency | client/verify_consistency.html:121-169 | all branches on all integers: valid exactly for consistent inputs, an error exactly for sizes out of order and for proofs that do not decode or give a step something other than a digest, and not valid otherwise |
| ConsistencyVerifier.DigestsAreNotRejected | client/verify_consistency.html:121-169 | with sizes in order, a first root of 32 bytes and hashes of 32 bytes the answer is never an error |
| ConsistencyVerifier.ConsistencyComplete | client/verify_consistency.html:131-168 | PROOF(m, D) is accepted between MTH of the first m leaves and MTH(D), for every D and 0 < m < n |
| ConsistencyVerifier.ServedConsistencyVerifies | client/verify_consistency.html:121-169 | the same through the hex text of a served proof, for all sizes 0 <= m <= n |
| ConsistencyVerifier.ConsistencySound | client/verify_consistency.html:121-169 | from any first root: an accepted proof is PROOF(m, D) and the first root is that of the first m leaves, or a collision is returned |
| ConsistencyVerifier.ZeroSizeAcceptsAnything | client/verify_consistency.html:126 | with first size zero every root and proof is accepted |
| ConsistencyVerifier.NegativeSizeIsAccepted | client/verify_consistency.html:121-169 | every negative first size is accepted with two leaves as second tree: from the first leaf hash if it is odd, from the second root if it is even |
| ConsistencyVerifier.BindsExactlyPositiveSizes | client/verify_consistency.html:121-169 | for every integer m: acceptance from size m always determines the first root, up to a collision between run and tree, if and only if m is positive |
| ConsistencyVerifier.AppendOnly | client/verify_consistency.html:121-169 | for all sizes, a proof accepted between the roots of two lists shows the first to be a prefix of the second, or a collision is returned |
| ConsistencyVerifier.AcceptedLength | client/verify_consistency.html:149-168 | the sizes alone fix the length of an accepted proof, at most ceil(log2 n) + 1 |
| ConsistencyVerifier.InclusionSurvives | client/verify_consistency.html:121-169 | a leaf accepted in a first tree that is consistent with a second is the same leaf of the second, or a collision is returned |
| PayloadHash.ParsePayloadHashValue | server/internal/hashutil/hash.go:10-30 | an accepted value gives 64 lower-case hex digits |
| PayloadHash.ParseIsExact | server/internal/hashutil/hash.go:10-30 | a value is accepted with a digest exactly when, trimmed and in lower case, it is hex: and that digest |
| PayloadHash.ParsesExactly | server/internal/hashutil/hash.go:10-30 | the same without naming the operations: white space around, and case |
| PayloadHash.StoredParses | server/internal/event/prepare.go:155-163 | the stored form of a digest parses back to it |
| PayloadHash.ExtractsExactly | client/verify.js:89-96 | the page extracts exactly the text behind hex: in lower case, when that is hexadecimal and there is some |
| PayloadHash.DigestSurvives | client/verify.js:89-96 | the server reads the stored digest back, the client extracts the same one, and both stand for the same 32 bytes |
| NotaryEvent.NormalizeRequest | server/internal/event/prepare.go:86-95 | the assignments take the white space around each text away and nothing else, put the event type in upper case, change no request in normal form, and never touch schema, payload hash, time of issue and predecessor leaf |
| NotaryEvent.NormalizedIsNormal | server/internal/event/prepare.go:86-95 | the result is in normal form for every request |
| NotaryEvent.NormalIsFixed | server/internal/event/prepare.go:86-95 | requests in normal form are left alone, so normalising twice is normalising once |
| NotaryEvent.AcceptsExactly | server/internal/event/prepare.go:40-64 | a request is accepted if and only if schema, document, issuer and title are there and the leaf is not negative; its type has what it needs (CREATE: a digest and no predecessor; UPDATE: both; REVOKE, EXPIRE: a predecessor, and a good digest if any); and it is not issued in the future unless that time is taken as that of recording |
| NotaryEvent.LeafHashIsDigest | server/internal/api/add.go:58 | the leaf hash is the digest of the encoded event |
| NotaryEvent.PrepareIsWellFormed | server/internal/event/prepare.go:40-64 | a prepared event has trimmed ids, a readable canonical digest, a positive version, and a predecessor exactly when it is not a CREATE |
| NotaryEvent.PrepareKeepsRequest | server/internal/event/prepare.go:111-132 | a prepared event keeps the request and its digest, and is recorded at the time the mode asks for, never before it was issued |
| NotaryEvent.PreparedIsFixed | server/internal/event/prepare.go:40-64 | the request inside a notarized event is in normal form: preparing it again gives the same event |
| NotaryServer.RowFields | server/internal/index/write.go:9-27 | the stored row of a prepared event holds its fields unchanged |
| NotaryServer.RowIsTrimmed | server/internal/index/write.go:9-27 | of any event the stored row holds the texts without the white space around them |
| NotaryServer.SelectLatest | server/internal/index/lookup.go:68-92 | the answer is the highest index of the document, none when it has no row |
| NotaryServer.CheckedIsGood | server/internal/api/add.go:89-133 | a request that passes the check becomes an event whose predecessor is the looked-up head of the same document with one version less, or a first CREATE |
| NotaryServer.ResolvesExactly | server/internal/api/add.go:89-133 | on reachable heads the check accepts exactly a CREATE of a new document or an event that names the published head; no other branch refuses |
| NotaryServer.ChecksExactly | server/internal/api/add.go:37-56 | on reachable heads check and preparation together let exactly the acceptable requests through that fit after the head, with the next version |
| NotaryServer.InsertNeverConflicts | server/internal/index/indexer.go:23-32 | on reachable states an insert violates neither the primary key nor the unique event id |
| NotaryServer.InsertKeepsKeys | server/internal/index/indexer.go:23-32 | in any state an insert leaves every row alone and no event id twice |
| NotaryServer.RunKeepsInv | server/internal/api/add.go:19-87 | under every interleaving: entries are well formed, linked and have different ids, every row mirrors its entry, no two requests hold the same event or index |
| NotaryServer.VersionIsDepth | server/internal/api/add.go:89-133 | following predecessors from an entry ends at a CREATE of its document after version minus one links |
| NotaryServer.EveryRunIsAForest | server/internal/api/add.go:19-133 | in every run each entry is linked to an earlier one of its document, so links form a forest with version equal to depth plus one |
| SerialRuns.LookupFindsLast | server/internal/index/lookup.go:68-92 | when every entry of a document has its row, the index answers with the last one |
| SerialRuns.SerialRunKeepsInv | server/internal/api/add.go:19-87 | runs that serve the requests for one document one at a time, whatever happens to other documents, keep its log linear and its index complete but for the row of the request in flight |
| SerialRuns.SerialRunsAreLinear | server/internal/api/add.go:89-133 | in such runs the entries of the document form one chain in log order, and each version is the rank of its entry, for any checkpoint lag |
| SerialRuns.VersionIsRank | server/internal/api/add.go:128 | adding one to the version of the head numbers the entries of a document 1, 2, 3 |
| SerialRuns.SerialRunIsIdle | server/internal/api/add.go:19-87 | between requests for the document its history is linear and fully indexed |
| SerialRuns.IdleCheckIsExact | server/internal/api/add.go:89-133 | there the check accepts exactly the events that continue the history with a published head, with the number of entries of the document plus one as version |
| SerialRuns.TimelyContinues | server/internal/api/add.go:37-66 | an event that passed the check continues the history exactly when the head it names is still the last entry of its document when it is appended |
| SerialRuns.LinearExactlyWhenTimely | server/internal/api/add.go:19-87 | in every run, races and lost rows included, a document has one linear history if and only if each of its events was appended in time in that sense |
| NotaryService.Notary.LookupHead | server/internal/api/add.go:31-42 | decoding and lookup are one lookup step of the state machine |
| NotaryService.Notary.ResolveDocumentVersion | server/internal/api/add.go:89-133 | the version, or the error, that the branches of the chain check give |
| NotaryService.Notary.CheckDocument | server/internal/api/add.go:39-56 | check and preparation are one check step |
| NotaryService.Notary.AppendEvent | server/internal/api/add.go:60-66 | appends the event of the request at the end of the log and returns its index |
| NotaryService.Notary.AddEntry | server/internal/index/write.go:9-27 | inserts the row of the event unless the database refuses |
| NotaryService.Notary.AddEvent | server/internal/api/add.go:19-87 | an uninterrupted request is the four steps in order; in a reachable state it is accepted exactly when it is acceptable and fits after the head of its document; accepted requests add exactly their event, refused ones leave the log alone |
| NotaryService.Notary.ValidateAlignedWithLog | server/internal/index/alignment.go:24-46 | passes exactly when nothing fails, the count is right and every tail entry matches |
| Alignment.CheckSingleEntry | server/internal/index/alignment.go:77-95 | compares one row with one entry, and fails when either cannot be read |
| Alignment.CheckTailEntries | server/internal/index/alignment.go:61-74 | the loop decides whether the last ten published entries can be read and match their rows |
| Alignment.BundlesReadLog | server/internal/index/alignment.go:86-92 | reading from bundles gives the check the entries of the published tree |
| Alignment.RowMatchesEvent | server/internal/index/alignment.go:151-185 | the comparison accepts the row that the server stores for an entry |
| Alignment.RowMatchesExactly | server/internal/index/alignment.go:151-185 | on any row: the comparison accepts exactly the rows with the five fields of the entry, up to white space around them and the case of the digests |
| Alignment.PlainRowMatches | server/internal/index/alignment.go:151-185 | a row with nothing to trim or fold is accepted exactly when it is the stored row, up to the time |
| Alignment.PassesExactly | server/internal/index/alignment.go:24-95 | on any table, however it came about: the check passes exactly when the number of rows is right and every tail row has the fields of its entry |
| Alignment.WrongRowIsRefused | server/internal/index/alignment.go:24-95 | a tail row that differs from its entry in one of the five fields makes the check fail |
| Alignment.PassesMeaning | server/internal/index/alignment.go:24-95 | on reachable states the check sees the number of rows and which tail rows are missing, and nothing else can fail it |
| Alignment.FullTable | server/internal/index/alignment.go:49-58 | mirroring rows are complete exactly when there are as many as entries |
| Alignment.CheckIsExact | server/internal/index/alignment.go:24-95 | in every run with a checkpoint over the whole log the check passes if and only if every entry has its row |
| Alignment.RightUnderLag | server/internal/index/alignment.go:24-95 | under a lagging checkpoint the check is wrong on exactly the complete indexes and those with as many rows as published entries, the tail among them |
| Alignment.RightExactlyWhenCovered | server/internal/index/alignment.go:24-95 | the check is right about every index of a log if and only if the checkpoint covers that log |
| VersionHistory.LinkMaps | client/details.html:165-173 | the two maps hold, for every id, the last event that names it and how many do |
| VersionHistory.AnyAboveOne | client/details.html:186-190 | finds a count above one if there is one |
| VersionHistory.FollowLinks | client/details.html:192-199 | the loop ends on every input and returns the walk along the links |
| VersionHistory.SortHistoryByLinks | client/details.html:162-206 | the whole procedure computes the specified ordering |
| VersionHistory.CountFork | client/details.html:185-190 | a count above one means that two events name the same predecessor, and the other way round |
| VersionHistory.StartIsExact | client/details.html:175-183 | the walk starts at the first CREATE without predecessor, for lack of one at the first event without predecessor |
| VersionHistory.SortByVersion | client/details.html:182 | the fallback is a permutation sorted by version, then index |
| VersionHistory.SortOrder | client/details.html:182 | lower versions come first, and lower indexes among equal versions |
| VersionHistory.SortKeepsSorted | client/details.html:182 | the fallback leaves sorted input alone |
| VersionHistory.WalkIsAChain | client/details.html:192-199 | the walk visits different ids and each event names the one before it |
| VersionHistory.SortHistoryPermutes | client/details.html:162-206 | on every input, with cycles, forks, gaps or repeated ids, the result is a permutation that is either sorted or linked pairwise from an event without predecessor |
| VersionHistory.EventsFollowPredecessors | client/details.html:162-206 | on every history, forked or incomplete, each event comes after the one it names |
| VersionHistory.LastIsLatest | client/details.html:260-261 | on every history the last event, shown as current, has the highest version |
| VersionHistory.ForkFreeKeepsLogOrder | client/details.html:162-206 | on a complete history with one root and no fork, walk and fallback agree and keep log order |
| VersionHistory.ChainIsTakenExactly | client/details.html:185-205 | on a complete history the chain is shown exactly when there is one root and no fork |
| RunHistories.IndexesAreInLog | server/internal/index/lookup.go:33-65 | in reachable states the listed indexes are the indexed entries of the document, ascending and in the log |
| RunHistories.SelectionIsHistory | server/internal/api/add.go:89-133 | any selection of entries of a reachable log is a history in the sense of the ordering results |
| RunHistories.ShowDetails | client/details.html:208-261 | loading the page: entry, index list, all entries or an error, filter, ordering |
| RunHistories.OfDocumentIsExact | client/details.html:231-245 | the filter keeps exactly the entries of the document, in their order |
| RunHistories.PageIsExact | client/details.html:208-261 | on reachable states the page of an entry shows a history if and only if that entry is published and the index lists entries of its document, all of them published; then it shows exactly those |
| RunHistories.EveryRunShowsItsHistory | client/details.html:208-261 | in every run, forks and lost rows included, when the page shows a history (exactly under that condition) each event comes after its predecessor and one of the highest version last |
| RunHistories.ForkFreeRunShowsLogOrder | client/details.html:162-261 | in every run, the page of a fully indexed document with one CREATE and no fork shows its events in log order once all are published, and an error before |
| RunHistories.SerialRunShowsOneChain | client/details.html:162-261 | when the requests for a document are served one at a time, its page shows versions 1, 2, 3 of one chain in log order as soon as the last one is published, and an error before |
| Scenarios.AcceptedButUnpublished | client/details.html:231-236 | after any accepted CREATE and before the next checkpoint, the page shows an error and the startup check refuses the complete index |
| Scenarios.FollowUpHidesHistory | client/details.html:231-236 | an accepted follow-up makes the page of the published first event fail until the next checkpoint |
| Scenarios.LostRowPasses | server/internal/index/alignment.go:24-95 | a run whose second row is lost and whose checkpoint is one behind passes the startup check |
| Scenarios.RacesFork | server/internal/api/add.go:37-43 | two follow-ups looked up before either is appended fork the document |
| Scenarios.LostRowForks | server/internal/api/add.go:68-81 | two CREATEs of a document served one after the other, the row of the first lost, are both appended: two roots |
| Scenarios.TenUnpublishedHideAll | client/consult.html:278-293 | after eleven or more CREATEs with a checkpoint over the first, browsing without filters shows nothing although that event is published |
| Scenarios.HasMoreOnLastPage | server/internal/api/query.go:113-131 | after one CREATE without a checkpoint, has_more is set on a page that holds all matches |
| Scenarios.SampleCreationsDiffer | server/internal/event/prepare.go:40-64 | CREATEs of different documents exist in any number |
| Scenarios.SamplesExist | server/internal/event/prepare.go:40-64 | requests of the kind these runs need exist for every document and ids |
| IndexQueries.GetIndexesByDocId | server/internal/index/lookup.go:33-65 | all indexes of the document, and an error for a blank id |
| IndexQueries.LatestIsLastIndex | server/internal/index/lookup.go:68-92 | the latest index is the last of that list |
| IndexQueries.GetByDocHash | server/internal/index/lookup.go:11-23 | the last row with the digest, or none when no row has it |
| IndexQueries.BuildConditions | server/internal/index/search.go:24-45 | the clauses put together select exactly the rows that the parameters ask for |
| IndexQueries.SearchIndexes | server/internal/index/search.go:23-94 | never an SQL error: one page of the ordered matches, and the number of all of them |
| IndexQueries.IsDescExactly | server/internal/index/search.go:48-57 | the order is descending exactly for desc in any case and with any white space around |
| IndexQueries.CutIsExact | server/internal/index/search.go:57-68 | what LIMIT and OFFSET leave of the rows: neighbouring ones, none for limit 0 or an offset behind the end |
| IndexQueries.SelectsExactly | server/internal/index/search.go:24-45 | blank filters select everything, the others the rows with that id; times within the bounds, the upper one excluded |
| IndexQueries.PagesAreExact | client/consult.html:278-293 | as many pages of ten as the matches need |
| IndexQueries.SearchEntries | server/internal/api/query.go:205-234 | the loop returns the readable part of the page with its entries, totals and has_more |
| IndexQueries.EntriesFollowIndexes | server/internal/api/query.go:223-231 | the i-th entry of a response is the one read at its i-th index |
| IndexQueries.MatchesAreExact | server/internal/index/search.go:48-57 | the matches are exactly the selected rows, each once, ascending or descending as asked |
| IndexQueries.HasMoreMeaning | server/internal/api/query.go:113-131 | has_more is set exactly when a match lies beyond the page or one on it cannot be read |
| IndexQueries.FollowPagesIsExact | server/internal/api/query.go:113-131 | following has_more with any page size collects every readable match once and in order |
| IndexQueries.BrowsingIsExact | client/consult.html:278-293 | going through the pages of the page shows every readable match once and in order if and only if no page without readable rows comes before one of them |
| IndexQueries.BrowsingNewestFirst | client/consult.html:278-293 | with the newest first and entries readable below the published size, browsing shows every published match if and only if not the ten newest matches are unpublished while another is published; then it shows nothing |
| RunSearches.EveryRunIsBrowsed | client/consult.html:278-293 | in every run and for all filters, browsing shows exactly the published events selected, newest first, or, under exactly that condition, nothing; the rows belong to the log entries read |
| IndexQueries.AllReadableAllSeen | client/consult.html:357-366 | when all rows can be read, browsing shows all matches |
| IndexQueries.NothingSeen | client/consult.html:278-293 | a page without readable rows ends the browsing, and that is right only when no readable row follows |
| LogRead.BundleReaches | server/internal/logread/helpers.go:41-44 | the partial size is below 256 and the bundle covers the entry and stays within the tree |
| LogRead.ReadIsExact | server/internal/logread/helpers.go:36-63 | reading gives the entry of the log at the index exactly when it is in the tree and the store serves the bundle in either form |
| LogRead.StoredIsReadable | server/internal/logread/helpers.go:36-63 | from a store of the log every entry of every published tree is read; without partial bundles exactly those whose bundle has filled up |
| AnchorRecord.ValueOfDecimal | server/internal/anchor/file_publisher.go:111-121 | reading a printed number gives the number |
| AnchorRecord.FieldsOfParts | server/internal/anchor/file_publisher.go:124 | splitting two texts joined by a space gives the fields of both |
| AnchorRecord.ParsesExactly | server/internal/anchor/file_publisher.go:123-145 | a line is a record exactly when it has six fields, the third a number below 256 and the fourth one below 2^64, and then that of those fields |
| AnchorRecord.RecordRoundTrip | server/internal/anchor/file_publisher.go:111-145 | a printed record is read back unchanged if and only if its texts are words and the clock prints one field, for every uint8 and uint64 |
| AnchorWorker.LineParses | server/internal/anchor/file_publisher.go:123-145 | a record with torn text in front of it is read back if and only if there is no white space in that text |
| AnchorTears.PartHasSpace | server/internal/anchor/file_publisher.go:111-121 | a part of a line has white space in it exactly when it reaches beyond the timestamp |
| AnchorTears.PartParses | server/internal/anchor/file_publisher.go:123-145 | a part of a line is an error until the first digit of the checkpoint hash, and from there a record with as much of the hash as there is |
| AnchorTears.AfterTornWrite | server/internal/anchor/file_publisher.go:58-109 | after whole writes and a torn one, the latest checkpoint is that shortened record or an error, while nothing counts as published |
| AnchorTears.AfterTornAndWhole | server/internal/anchor/file_publisher.go:58-109 | when a whole write follows, the latest checkpoint is its record exactly when the torn one got no further than the timestamp, and an error otherwise |
| AnchorFile.FilePublisher.PublishCheckpoint | server/internal/anchor/file_publisher.go:35-56 | appends as much of the line as reaches the file, creating the file if need be, and succeeds exactly when all of it does |
| AnchorFile.Scan | server/internal/anchor/file_publisher.go:74-96 | the loop finds the last non-blank line and the number of such lines, or a line of 65536 bytes or more |
| AnchorFile.FilePublisher.LatestCheckpoint | server/internal/anchor/file_publisher.go:58-109 | the last non-blank line as a record with the number of such lines, on any file, and the error cases |
| AnchorReceipts.LastRecordIsExact | server/internal/anchor/file_publisher.go:74-96 | the line that is read is the last one that is not blank, without the white space around it |
| AnchorReceipts.CountIsExact | server/internal/anchor/file_publisher.go:74-96 | the block number is the number of lines that are not blank |
| AnchorReceipts.FoundIsExact | server/internal/anchor/file_publisher.go:58-109 | on any file: what is found is the record of that line, the number of such lines, and as transaction id the digest of the bytes of that line, in ASCII its character codes |
| AnchorReceipts.NotFoundExactly | server/internal/anchor/file_publisher.go:58-109 | no record when there are only blank lines; an error exactly for a line of 65536 bytes or more and for a last line that is no record |
| AnchorReceipts.TxIdBinds | server/internal/anchor/file_publisher.go:103-108 | two files with the same transaction id end in the same record, or the bytes of the two lines collide |
| AnchorReceipts.LatestTxId | server/internal/anchor/file_publisher.go:103-108 | in every run whose file reads back, the transaction id is the digest of the line of the last published record |
| Utf8Text.Utf8CharIsExact | server/internal/anchor/file_publisher.go:103 | the bytes of a character are those of the table in section 3 of RFC 3629 |
| Utf8Text.Utf8Injective | server/internal/anchor/file_publisher.go:103 | different texts have different bytes |
| AnchorFile.WholeLine | server/internal/anchor/file_publisher.go:52-54 | a whole line becomes one more line, with the torn text before it in front |
| AnchorFile.TornLine | server/internal/anchor/file_publisher.go:52-54 | a part of a line becomes torn text behind the lines |
| AnchorWorker.Worker.constructor | server/internal/anchor/worker.go:25-40 | a new worker remembers nothing and keeps the file |
| AnchorWorker.Worker.PublishCheckpoint | server/internal/anchor/worker.go:101-127 | an attempt changes file and lastHash exactly as specified, reports nothing new exactly when the checkpoint is not due, and publishes nothing and keeps lastHash when it fails |
| AnchorWorker.BuildsExactly | server/internal/anchor/worker.go:66-82 | a record is built exactly of a checkpoint note with a root of 32 bytes, with prefix, version 1, size, root and digest of that checkpoint |
| AnchorWorker.PublishesExactly | server/internal/anchor/worker.go:101-127 | an attempt publishes exactly when its checkpoint can be read, is due and sound, and the whole line reaches the file |
| AnchorWorker.NoLineIsTooLong | server/internal/anchor/file_publisher.go:74-96 | no line without torn text reaches the limit of the scanner |
| AnchorWorker.RunKeepsInv | server/internal/anchor/worker.go:101-127 | in every run, torn writes included, the lines of the file are the printed records of what was published, each with the torn text before it, and at most torn text follows |
| AnchorWorker.LatestIsLastPublished | server/internal/anchor/file_publisher.go:58-145 | in every run the latest checkpoint is the last published record with as many blocks as publications if and only if no torn text ends the file, none with white space precedes that record and no line is too long |
| AnchorWorker.WholeWritesReadBack | server/internal/anchor/file_publisher.go:58-145 | in every run whose writes are whole or not at all, that is always so |
| AnchorWorker.RepeatsAreDemanded | server/internal/anchor/worker.go:101-127 | equal checkpoint hashes are published in a row only on demand or after a restart, and lastHash is that of the last published record |
| AnchorWorker.AttemptPublishesCurrent | server/internal/anchor/worker.go:101-127 | after an attempt with sound checkpoint and whole write the last published record holds the digest of the current checkpoint, after a demand also its size and root |
| DocumentVerifier.VerifyDocument | client/verify.js:106-194 | the checks of the page in order: digest of the document against the event, root text, inclusion proof |
| DocumentVerifier.ProofAcceptsExactly | client/verify.js:138-156 | the proof is found valid exactly when root text and hash texts name, in either case, a root and hashes that the algorithm of section 2.1.3.2 of RFC 9162 accepts, below size 2^53 |
| DocumentVerifier.DocumentAcceptsExactly | client/verify.js:106-194 | document and proof are accepted exactly when in addition the event holds hex: and the digest of the document in either case |
| ServedLog.RunsExtend | server/internal/api/add.go:60-66 | the log of a run is a prefix of that of every later run, and the published size never shrinks |
| ServedLog.CheckpointsAreConsistent | server/internal/proofsvc/service.go:59-83 | in every run and every later one, the earlier published root is consistent with the later one by the proof that the server sends |
| ServedLog.ServedEventVerifies | server/internal/proofsvc/service.go:31-57 | in every run, for every published event and every document, the page accepts the proof sent, and the document exactly when its digest is that of the event |
| ServedLog.VerifiedIsNotarized | client/verify.js:106-194 | what the page accepts against a published root, whatever the proof claims, is the event of a well-formed, linked log entry with the digest of the document, at the claimed index if the size is that of the checkpoint; or a collision between page and tree is returned |
| ServedLog.ReceiptSurvives | client/verify_consistency.html:121-169 | an event accepted against a checkpoint of any origin that is consistent with one published by a run is that entry of the log of this run and of all later ones, or a located collision is returned |

## Left out

- InclusionVerifier.VerifyInclusion: index and size are integers; values that are no integers, which the page refuses too, are not modelled.
- NotaryServer.InsertNeverConflicts: rests on fresh event ids, the one thing assumed of the UUID library.
- VersionHistory.SortHistoryPermutes: versions are integers and event ids texts. The page also takes events whose doc_version is no number and events without an id. Then versions compare as NaN, the comparison is no consistent order, and the result of the sort is up to the JavaScript engine; no run of the server has such events.
- AnchorFile.FilePublisher.LatestCheckpoint: a file is a sequence of characters; bytes that are not UTF-8 are not modelled, and block numbers do not wrap.
- IndexQueries.SearchIndexes: times are instants, so the overflow of UnixNano beyond the year 2262 and the 64-bit range of indexes are not modelled.
- IndexQueries.SearchEntries: reading the query string (numbers, dates, defaults) is left out; it starts from a checked query on a table that does not change between pages.
- RunHistories.ShowDetails: reads from a store that serves all bundles; LogRead.ReadIsExact says what one that refuses some does. Index and log do not change while a page loads.
- Case folding is ASCII: the few other letters that Go maps to ASCII ones (in the event type and in the search order) are not modelled.
- DocumentVerifier.VerifyDocument: the event file is given as its bytes, and the numbers of the proof as integers; what a file that is not UTF-8 becomes is not modelled.
- JSON: decoding of requests, the refusal of unknown or server-managed fields, and canonicalization are left out; events are values, and their bytes come from an arbitrary encoding.
- Time zones and the text of timestamps: times are instants. Where the code parses and prints times, the model keeps the instant.
- Tessera, SQLite and the checkpoint format: an append-only sequence with a published prefix, a keyed table, and a parsed pair of size and root. Proof generation is the definition of RFC 6962.
- Context cancellation, mutexes and HTTP: each operation that holds a lock is one step; status codes, routes, caching and signers are plumbing.
- The constant-time wish in the comment of the byte comparison: the loop returns early, as modelled.
- Freedom from forks outside serial runs, terminal REVOKE and EXPIRE events, and the meaning of prev_event_leaf: the code does not enforce them.
- GetByLeafHash, the recovery page, the status page, form building and rendering: easy or presentation.
- The binary on-chain payload, and the load and seed tools: no part of the service.
