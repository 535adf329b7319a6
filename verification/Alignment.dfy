// server/internal/index/alignment.go: the startup check of index against log.
module Alignment {
  import opened Wrappers
  import opened Text
  import opened NotaryEvent
  import opened NotaryServer
  import opened ClientCrypto
  import P = PayloadHash
  import L = LogRead

  const STARTUP_TAIL_CHECK_COUNT: nat := 10

  // The digest validateIndexedRowAgainstEntry computes from the log entry.
  function LogDocHash(e: Event): Result<string> {
    if e.req.payloadHash.Some? && Trim(GoSpace, e.req.payloadHash.value.value) != "" then
      P.ParsePayloadHashValue(e.req.payloadHash.value.value)
    else Ok("")
  }

  // validateIndexedRowAgainstEntry finds no mismatch.
  predicate RowMatches(cfg: Config, row: Row, e: Event) {
    && Trim(GoSpace, row.docId) == Trim(GoSpace, e.req.docId)
    && Trim(GoSpace, row.eventId) == Trim(GoSpace, e.eventId)
    && Trim(GoSpace, row.issuerEntityId) == Trim(GoSpace, e.req.issuerEntityId)
    && LogDocHash(e) == Ok(Lower(Trim(GoSpace, row.docHash)))
    && Lower(Trim(GoSpace, row.leafHash)) == LeafHash(cfg, e)
  }

  function TailStart(size: nat): nat {
    if size < STARTUP_TAIL_CHECK_COUNT then 0 else size - STARTUP_TAIL_CHECK_COUNT
  }

  predicate EntryMatches(cfg: Config, s: State, i: nat) {
    i in s.table && i < |s.log| && RowMatches(cfg, s.table[i], s.log[i])
  }

  // What ValidateAlignedWithLog asks for: as many rows as the checkpoint says there
  // are entries, and the last ten of those match.
  predicate Passes(cfg: Config, s: State) {
    && |s.table| == s.published
    && forall i | TailStart(s.published) <= i < s.published :: EntryMatches(cfg, s, i)
  }

  // What else can make it report an error: the checkpoint cannot be read, the rows
  // cannot be counted, the row of an index cannot be queried, or an entry cannot be
  // read from the log.
  datatype Environment = Environment(readsCheckpoint: bool, counts: bool, queries: nat -> bool,
                                     read: nat -> Result<Event>)

  // Reads that succeed give the entries of the published tree.
  ghost predicate ReadsLog(env: Environment, s: State) {
    forall i: nat | env.read(i).Ok? :: i < s.published && i < |s.log| && env.read(i).value == s.log[i]
  }

  // Reading bundles from a store of the log is such a way to read.
  lemma {:induction false} BundlesReadLog(env: Environment, s: State, store: L.Store<Event>)
    requires L.ServesLog(store, s.log) && s.published <= |s.log|
    requires forall i: nat :: env.read(i) == L.ReadLogEntryByIndex(store, s.published, i)
    ensures ReadsLog(env, s)
  {
    forall i: nat | env.read(i).Ok? ensures i < s.published && i < |s.log| && env.read(i).value == s.log[i] {
      L.ReadIsExact(store, s.log, s.published, i);
    }
  }

  predicate CanCompare(env: Environment, i: nat) {
    env.queries(i) && env.read(i).Ok?
  }

  predicate AllWorks(env: Environment, treeSize: nat) {
    && env.readsCheckpoint && env.counts
    && forall i | TailStart(treeSize) <= i < treeSize :: CanCompare(env, i)
  }

  // checkSingleEntry.
  method CheckSingleEntry(cfg: Config, s: State, env: Environment, i: nat) returns (ok: bool)
    requires ReadsLog(env, s)
    ensures ok <==> CanCompare(env, i) && EntryMatches(cfg, s, i)
  {
    if !env.queries(i) || i !in s.table {
      return false;
    }
    var entry := env.read(i);
    if entry.Err? {
      return false;
    }
    ok := RowMatches(cfg, s.table[i], entry.value);
  }

  method CheckTailEntries(cfg: Config, s: State, env: Environment, treeSize: nat) returns (ok: bool)
    requires ReadsLog(env, s)
    ensures ok <==> forall i | TailStart(treeSize) <= i < treeSize :: CanCompare(env, i) && EntryMatches(cfg, s, i)
  {
    hide RowMatches;
    var tail := STARTUP_TAIL_CHECK_COUNT;
    if treeSize < tail {
      tail := treeSize;
    }
    for i := treeSize - tail to treeSize
      invariant forall j | TailStart(treeSize) <= j < i :: CanCompare(env, j) && EntryMatches(cfg, s, j)
    {
      var matches := CheckSingleEntry(cfg, s, env, i);
      if !matches {
        return false;
      }
    }
    ok := true;
  }

  // The index is what the log says it should be.
  predicate IsComplete(cfg: Config, s: State) {
    forall i | 0 <= i < |s.log| :: i in s.table && s.table[i] == RowOf(cfg, s.log[i])
  }

  // The row of an event passes the comparison with that event.
  lemma {:induction false} RowMatchesEvent(cfg: Config, e: Event)
    requires WellFormed(e)
    ensures RowMatches(cfg, RowOf(cfg, e), e)
  {
    RowFields(cfg, e);
    HexIsTrimmed(DocHash(e).value);
    HexIsTrimmed(LeafHash(cfg, e));
    if e.req.payloadHash.Some? {
      StoredIsNotBlank(DocHash(e).value);
    }
  }

  lemma {:induction false} StoredIsNotBlank(digest: string)
    requires P.ParsePayloadHashValue(P.Stored(digest)).Ok?
    ensures Trim(GoSpace, P.Stored(digest)) != ""
  {
  }

  // ----- what the comparison compares -----

  // s, without white space around it and in lower case, is h.
  ghost predicate FoldsTo(s: string, h: string) {
    exists t | IsTrimOf(GoSpace, s, t) :: IsLowerOf(t, h)
  }

  ghost predicate SameTrimmed(s: string, t: string) {
    exists u | IsTrimOf(GoSpace, s, u) :: IsTrimOf(GoSpace, t, u)
  }

  // The digest in the row is that of the entry; none, when the entry has none.
  ghost predicate TellsDigest(docHash: string, ph: Option<PayloadHash>) {
    if ph.None? || AllSpace(GoSpace, ph.value.value) then AllSpace(GoSpace, docHash)
    else exists digest | P.IsValueOf(ph.value.value, digest) :: FoldsTo(docHash, digest)
  }

  // The row says of the entry what it should say, but for white space around the
  // texts and the case of the two digests.
  ghost predicate TellsOf(cfg: Config, row: Row, e: Event) {
    && SameTrimmed(row.docId, e.req.docId) && SameTrimmed(row.eventId, e.eventId)
    && SameTrimmed(row.issuerEntityId, e.req.issuerEntityId)
    && TellsDigest(row.docHash, e.req.payloadHash)
    && FoldsTo(row.leafHash, BytesToHex(cfg.sha256(cfg.encode(e))))
  }

  lemma {:induction false} TrimmedAlike(s: string, t: string)
    ensures Trim(GoSpace, s) == Trim(GoSpace, t) <==> SameTrimmed(s, t)
  {
    hide Trim, IsTrimOf;
    forall u
      ensures Trim(GoSpace, s) == u <==> IsTrimOf(GoSpace, s, u)
      ensures Trim(GoSpace, t) == u <==> IsTrimOf(GoSpace, t, u)
    {
      TrimIsExact(GoSpace, s, u);
      TrimIsExact(GoSpace, t, u);
    }
    assert IsTrimOf(GoSpace, s, Trim(GoSpace, s));
  }

  lemma {:induction false} DigestToldExactly(docHash: string, e: Event)
    ensures LogDocHash(e) == Ok(Lower(Trim(GoSpace, docHash))) <==> TellsDigest(docHash, e.req.payloadHash)
  {
    hide Trim, Lower, P.ParsePayloadHashValue, P.IsValueOf, FoldsTo, AllSpace;
    BlankIsAllSpace(GoSpace, docHash);
    var found := Lower(Trim(GoSpace, docHash));
    if e.req.payloadHash.Some? {
      var value := e.req.payloadHash.value.value;
      BlankIsAllSpace(GoSpace, value);
      P.ParsesExactly(value, found);
      FoldsExactly(docHash, found);
      forall digest | P.IsValueOf(value, digest) && FoldsTo(docHash, digest) ensures digest == found {
        FoldsExactly(docHash, digest);
      }
    }
  }

  lemma {:induction false} FoldsExactly(s: string, h: string)
    ensures Lower(Trim(GoSpace, s)) == h <==> FoldsTo(s, h)
  {
    hide Trim, IsTrimOf, IsLowerOf, Lower;
    var t := Trim(GoSpace, s);
    TrimIsExact(GoSpace, s, t);
    LowerIsExact(t, h);
    forall u | IsTrimOf(GoSpace, s, u) ensures u == t {
      TrimIsExact(GoSpace, s, u);
    }
  }

  lemma {:induction false} EntryFields(e: Event)
    requires WellFormed(e)
    ensures Trim(GoSpace, e.req.docId) == e.req.docId && Trim(GoSpace, e.eventId) == e.eventId
    ensures Trim(GoSpace, e.req.issuerEntityId) == e.req.issuerEntityId && LogDocHash(e) == DocHash(e) && DocHash(e).Ok?
  {
    TrimFixes(GoSpace, e.req.docId);
    TrimFixes(GoSpace, e.eventId);
    TrimFixes(GoSpace, e.req.issuerEntityId);
    if e.req.payloadHash.Some? {
      StoredIsNotBlank(DocHash(e).value);
    }
  }

  // The comparison accepts exactly the rows that tell of the entry, whatever table
  // and log hold.
  lemma {:induction false} RowMatchesExactly(cfg: Config, row: Row, e: Event)
    ensures RowMatches(cfg, row, e) <==> TellsOf(cfg, row, e)
  {
    hide Trim, Lower, FoldsTo, LogDocHash, SameTrimmed, TellsDigest;
    TrimmedAlike(row.docId, e.req.docId);
    TrimmedAlike(row.eventId, e.eventId);
    TrimmedAlike(row.issuerEntityId, e.req.issuerEntityId);
    DigestToldExactly(row.docHash, e);
    FoldsExactly(row.leafHash, LeafHash(cfg, e));
  }

  predicate HasNoUpper(s: string) {
    forall i | 0 <= i < |s| :: !('A' <= s[i] <= 'Z')
  }

  // Nothing to trim or to fold.
  predicate IsPlain(row: Row) {
    && IsTrimmed(GoSpace, row.docId) && IsTrimmed(GoSpace, row.eventId) && IsTrimmed(GoSpace, row.issuerEntityId)
    && IsTrimmed(GoSpace, row.docHash) && HasNoUpper(row.docHash)
    && IsTrimmed(GoSpace, row.leafHash) && HasNoUpper(row.leafHash)
  }

  lemma {:induction false} PlainFields(row: Row)
    requires IsPlain(row)
    ensures Trim(GoSpace, row.docId) == row.docId && Trim(GoSpace, row.eventId) == row.eventId
    ensures Trim(GoSpace, row.issuerEntityId) == row.issuerEntityId
    ensures Lower(Trim(GoSpace, row.docHash)) == row.docHash && Lower(Trim(GoSpace, row.leafHash)) == row.leafHash
  {
    TrimFixes(GoSpace, row.docId);
    TrimFixes(GoSpace, row.eventId);
    TrimFixes(GoSpace, row.issuerEntityId);
    TrimFixes(GoSpace, row.docHash);
    TrimFixes(GoSpace, row.leafHash);
    assert Lower(row.docHash) == row.docHash && Lower(row.leafHash) == row.leafHash;
  }

  // A row with nothing to trim or fold passes the comparison exactly when it is the
  // one that the server stores, up to the time, which is not compared.
  lemma {:induction false} PlainRowMatches(cfg: Config, row: Row, e: Event)
    requires WellFormed(e) && IsPlain(row)
    ensures RowMatches(cfg, row, e) <==> row.(recordedAt := e.recordedAt) == RowOf(cfg, e)
  {
    hide Trim, Lower, LogDocHash, DocHash, WellFormed, IsPlain, RowOf;
    EntryFields(e);
    PlainFields(row);
    RowFields(cfg, e);
  }

  // On any table and log, however they came about, the check passes exactly when the
  // number of rows is right and each of the last ten rows tells of its entry.
  lemma {:induction false} PassesExactly(cfg: Config, s: State)
    requires s.published <= |s.log|
    ensures Passes(cfg, s) <==>
      && |s.table| == s.published
      && forall i: nat | s.published - 10 <= i < s.published :: HasRowFor(cfg, s, i)
  {
    hide RowMatches, TellsOf;
    forall i: nat | i < s.published ensures EntryMatches(cfg, s, i) <==> HasRowFor(cfg, s, i) {
      if i in s.table {
        RowMatchesExactly(cfg, s.table[i], s.log[i]);
      }
    }
  }

  ghost predicate HasRowFor(cfg: Config, s: State, i: nat)
    requires i < |s.log|
  {
    i in s.table && TellsOf(cfg, s.table[i], s.log[i])
  }

  // In particular it refuses a tail row that differs from its entry in a field other
  // than the time.
  lemma {:induction false} WrongRowIsRefused(cfg: Config, s: State, i: nat)
    requires GoodLog(s.log) && TailStart(s.published) <= i < s.published <= |s.log|
    requires i in s.table && IsPlain(s.table[i])
    requires s.table[i].(recordedAt := s.log[i].recordedAt) != RowOf(cfg, s.log[i])
    ensures !Passes(cfg, s)
  {
    hide RowMatches, WellFormed, RowOf, IsPlain;
    PlainRowMatches(cfg, s.table[i], s.log[i]);
    assert !EntryMatches(cfg, s, i);
  }

  // ----- a set of n numbers below n is all of them -----

  function Below(n: nat): (b: set<nat>)
    ensures |b| == n && forall i: nat :: i in b <==> i < n
  {
    if n == 0 then {} else Below(n - 1) + {n - 1}
  }

  lemma {:induction false} FullSubset(a: set<nat>, b: set<nat>)
    requires a <= b && |a| == |b|
    ensures a == b
  {
    if a != b {
      var x :| x in b && x !in a;
      assert a <= b - {x};
      SubsetSize(a, b - {x});
    }
  }

  lemma {:induction false} SubsetSize(a: set<nat>, b: set<nat>)
    requires a <= b
    ensures |a| <= |b|
    decreases a
  {
    if a != {} {
      var x :| x in a;
      SubsetSize(a - {x}, b - {x});
    }
  }

  // ----- what the check means -----

  lemma {:induction false} RowThereMatches(cfg: Config, s: State, i: nat)
    requires Mirrors(cfg, s.log, s.table) && GoodLog(s.log)
    ensures EntryMatches(cfg, s, i) <==> i in s.table
  {
    if i in s.table {
      RowMatchesEvent(cfg, s.log[i]);
    }
  }

  // On reachable states the check sees exactly the number of rows and which of
  // the last ten published entries have one: a row that is there always matches.
  lemma {:induction false} PassesMeaning(cfg: Config, s: State)
    requires Mirrors(cfg, s.log, s.table) && GoodLog(s.log)
    ensures Passes(cfg, s) <==> |s.table| == s.published && HasTail(s)
  {
    forall i | TailStart(s.published) <= i < s.published ensures EntryMatches(cfg, s, i) <==> i in s.table {
      RowThereMatches(cfg, s, i);
    }
  }

  predicate HasTail(s: State) {
    forall i | TailStart(s.published) <= i < s.published :: i in s.table
  }

  // n different numbers below n are all of them.
  lemma {:induction false} FullKeys(keys: set<nat>, n: nat)
    requires forall k | k in keys :: k < n
    ensures |keys| == n <==> forall i | 0 <= i < n :: i in keys
  {
    if |keys| == n {
      FullSubset(keys, Below(n));
      forall i | 0 <= i < n ensures i in keys {
        assert i in Below(n);
      }
    }
    if forall i | 0 <= i < n :: i in keys {
      assert keys == Below(n);
    }
  }

  // As many mirroring rows as entries: then every entry has its row.
  lemma {:induction false} FullTable(cfg: Config, s: State)
    requires Mirrors(cfg, s.log, s.table)
    ensures IsComplete(cfg, s) <==> |s.table| == |s.log|
  {
    FullKeys(s.table.Keys, |s.log|);
  }

  lemma {:induction false} RightWhenCovered(cfg: Config, s: State)
    requires Mirrors(cfg, s.log, s.table) && GoodLog(s.log) && s.published == |s.log|
    ensures Passes(cfg, s) <==> IsComplete(cfg, s)
  {
    PassesMeaning(cfg, s);
    FullTable(cfg, s);
  }

  // In every run, once the checkpoint covers the whole log, the check passes if
  // and only if every entry has the row it should have, although it looks at no
  // more than ten rows.
  lemma {:induction false} CheckIsExact(cfg: Config, actions: seq<Action>)
    requires var s := Run(cfg, actions); s.published == |s.log|
    ensures Passes(cfg, Run(cfg, actions)) <==> IsComplete(cfg, Run(cfg, actions))
  {
    RunKeepsInv(cfg, actions);
    RightWhenCovered(cfg, Run(cfg, actions));
  }

  // The row every entry should have.
  ghost function AllRows(cfg: Config, log: seq<Event>): (table: map<nat, Row>)
    ensures Mirrors(cfg, log, table) && |table| == |log|
  {
    var table := map i: nat | i in Below(|log|) :: RowOf(cfg, log[i]);
    assert table.Keys == Below(|log|);
    table
  }

  // The check tells whether the index is complete.
  ghost predicate IsRight(cfg: Config, s: State) {
    Passes(cfg, s) <==> IsComplete(cfg, s)
  }

  // While the checkpoint lags behind the log, the check is wrong on exactly two
  // kinds of index: a complete one, which it refuses, and one that has as many rows
  // as there are published entries, with those of the tail among them.
  lemma {:induction false} RightUnderLag(cfg: Config, s: State)
    requires Mirrors(cfg, s.log, s.table) && GoodLog(s.log) && s.published < |s.log|
    ensures IsRight(cfg, s) <==> |s.table| != |s.log| && !(|s.table| == s.published && HasTail(s))
  {
    PassesMeaning(cfg, s);
    FullTable(cfg, s);
  }

  lemma {:induction false} WrongUnderLag(cfg: Config, log: seq<Event>, published: nat) returns (s: State)
    requires GoodLog(log) && published < |log|
    ensures s.log == log && s.published == published && Mirrors(cfg, log, s.table) && !IsRight(cfg, s)
  {
    s := State(log, published, AllRows(cfg, log), map[]);
    RightUnderLag(cfg, s);
  }

  // So the check can be relied on for all indexes of a log exactly when the
  // checkpoint covers that log.
  lemma {:induction false} RightExactlyWhenCovered(cfg: Config, log: seq<Event>, published: nat)
    requires GoodLog(log) && published <= |log|
    ensures (forall s: State | s.log == log && s.published == published && Mirrors(cfg, log, s.table) ::
      IsRight(cfg, s))
      <==> published == |log|
  {
    if published < |log| {
      var s := WrongUnderLag(cfg, log, published);
    } else {
      forall s: State | s.log == log && s.published == published && Mirrors(cfg, log, s.table) ensures IsRight(cfg, s) {
        RightWhenCovered(cfg, s);
      }
    }
  }
}
