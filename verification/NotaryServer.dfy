// The notarization server as a state machine: server/internal/api/add.go with
// the index of server/internal/index. One POST /add goes through four phases,
// and the phases of different requests may interleave in any way.
module NotaryServer {
  import opened Wrappers
  import opened Text
  import opened NotaryEvent

  // A row of notary_index; the table is keyed by log_index.
  datatype Row = Row(docId: string, eventId: string, docHash: string, leafHash: string, issuerEntityId: string,
                     recordedAt: int)

  // How far a request has got: its document has been looked up in the index, or
  // its event is ready to append, or its event is in the log at some index.
  datatype Phase =
    LookedUp(req: Request, latest: Option<nat>) | Ready(event: Event) | Appended(index: nat, event: Event)

  // The log holds the event each entry encodes; the first published entries are
  // covered by the current checkpoint.
  datatype State = State(log: seq<Event>, published: nat, table: map<nat, Row>, inFlight: map<nat, Phase>)

  const INITIAL := State([], 0, map[], map[])

  // The row AddEntry stores for an event.
  function RowOf(cfg: Config, e: Event): Row {
    Row(Trim(GoSpace, e.req.docId), Trim(GoSpace, e.eventId),
        Trim(GoSpace, match DocHash(e) { case Ok(h) => h case Err => "" }),
        Trim(GoSpace, LeafHash(cfg, e)), Trim(GoSpace, e.req.issuerEntityId), e.recordedAt)
  }

  // A well formed event has nothing to trim.
  lemma {:induction false} RowFields(cfg: Config, e: Event)
    requires WellFormed(e)
    ensures RowOf(cfg, e) ==
      Row(e.req.docId, e.eventId, DocHash(e).value, LeafHash(cfg, e), e.req.issuerEntityId, e.recordedAt)
  {
    TrimFixes(GoSpace, e.req.docId);
    TrimFixes(GoSpace, e.eventId);
    TrimFixes(GoSpace, e.req.issuerEntityId);
    HexIsTrimmed(DocHash(e).value);
    HexIsTrimmed(LeafHash(cfg, e));
  }

  // Of any event, the row holds the trimmed texts.
  lemma {:induction false} RowIsTrimmed(cfg: Config, e: Event)
    ensures var row := RowOf(cfg, e);
      && IsTrimOf(GoSpace, e.req.docId, row.docId) && IsTrimOf(GoSpace, e.eventId, row.eventId)
      && IsTrimOf(GoSpace, e.req.issuerEntityId, row.issuerEntityId) && row.recordedAt == e.recordedAt
  {
    hide Trim, IsTrimOf;
    TrimIsExact(GoSpace, e.req.docId, Trim(GoSpace, e.req.docId));
    TrimIsExact(GoSpace, e.eventId, Trim(GoSpace, e.eventId));
    TrimIsExact(GoSpace, e.req.issuerEntityId, Trim(GoSpace, e.req.issuerEntityId));
  }

  lemma {:induction false} HexIsTrimmed(h: string)
    requires AllLowerHex(h)
    ensures Trim(GoSpace, h) == h && Lower(h) == h
  {
  }

  // ----- the index -----

  predicate Names(table: map<nat, Row>, k: nat, docId: string) {
    k in table && table[k].docId == docId
  }

  ghost predicate IsLatest(table: map<nat, Row>, docId: string, latest: Option<nat>) {
    match latest
    case None => forall k | k in table :: !Names(table, k, docId)
    case Some(k) => Names(table, k, docId) && forall j: nat | Names(table, j, docId) :: j <= k
  }

  // SELECT ... WHERE doc_id = ? ORDER BY log_index DESC LIMIT 1.
  method SelectLatest(table: map<nat, Row>, docId: string) returns (latest: Option<nat>)
    ensures IsLatest(table, docId, latest)
  {
    latest := None;
    var todo := table.Keys;
    while todo != {}
      invariant todo <= table.Keys
      invariant latest.Some? ==> Names(table, latest.value, docId)
      invariant forall j: nat | Names(table, j, docId) :: j in todo || (latest.Some? && j <= latest.value)
    {
      var k :| k in todo;
      if table[k].docId == docId && (latest.None? || latest.value < k) {
        latest := Some(k);
      }
      todo := todo - {k};
    }
  }

  // INSERT fails on a repeated log_index (primary key) or event_id (UNIQUE).
  predicate CanInsert(table: map<nat, Row>, index: nat, row: Row) {
    index !in table && forall k | k in table :: table[k].eventId != row.eventId
  }

  // ----- the phases of a request -----

  // An action carries what the outside world decides: the request, the clock,
  // the fresh UUID, whether the database works, how far a checkpoint reaches.
  // latest is the answer of the index.
  datatype Action =
    | Lookup(id: nat, raw: Request, latest: Option<nat>)
    | Check(id: nat, now: int, eventId: string)
    | Append(id: nat)
    | Insert(id: nat, dbWorks: bool)
    | Abandon(id: nat)
    | Publish(size: nat)

  // UUIDs are never empty, carry no white space and are never repeated.
  ghost predicate IsFresh(s: State, eventId: string) {
    && eventId != "" && IsTrimmed(GoSpace, eventId)
    && (forall i | 0 <= i < |s.log| :: s.log[i].eventId != eventId)
    && (forall id | id in s.inFlight && s.inFlight[id].Ready? :: s.inFlight[id].event.eventId != eventId)
  }

  // The rest of resolveDocumentVersion: the version of the new event, given the
  // answer of the index. The head is read through the published checkpoint.
  function ResolveVersion(log: seq<Event>, published: nat, req: Request, latest: Option<nat>): Result<int> {
    if IsCreate(req.eventType) then
      if latest.None? then Ok(1) else Err
    else if IsFollowUp(req.eventType) then
      if latest.None? || latest.value >= published || latest.value >= |log| then Err
      else
        var head := log[latest.value];
        if Trim(GoSpace, head.req.docId) == req.docId && req.prevEventId.Some?
           && Trim(GoSpace, req.prevEventId.value) == Trim(GoSpace, head.eventId) then Ok(head.docVersion + 1)
        else Err
    else Err
  }

  function Drop(s: State, id: nat): State {
    s.(inFlight := s.inFlight - {id})
  }

  // Each phase as a step; one that cannot happen in s leaves s alone.
  ghost function LookupStep(s: State, id: nat, raw: Request, latest: Option<nat>): State {
    var req := Normalized(raw);
    if id !in s.inFlight && req.docId != "" && IsLatest(s.table, req.docId, latest)
    then s.(inFlight := s.inFlight[id := LookedUp(req, latest)]) else s
  }

  ghost function CheckStep(cfg: Config, s: State, id: nat, now: int, eventId: string): State {
    if !(id in s.inFlight && s.inFlight[id].LookedUp? && IsFresh(s, eventId)) then s
    else
      var event := CheckChain(cfg, s.log, s.published, s.inFlight[id].req, s.inFlight[id].latest, now, eventId);
      if event.Err? then Drop(s, id) else s.(inFlight := s.inFlight[id := Ready(event.value)])
  }

  // The event to append, or an error when the chain check or the preparation
  // refuses the request.
  function CheckChain(cfg: Config, log: seq<Event>, published: nat, req: Request, latest: Option<nat>,
                      now: int, eventId: string): Result<Event>
  {
    var version := ResolveVersion(log, published, req, latest);
    if version.Err? then Err else Prepare(cfg, req, now, version.value, eventId)
  }

  function AppendStep(s: State, id: nat): State {
    if !(id in s.inFlight && s.inFlight[id].Ready?) then s
    else
      var e := s.inFlight[id].event;
      s.(log := s.log + [e], inFlight := s.inFlight[id := Appended(|s.log|, e)])
  }

  function InsertStep(cfg: Config, s: State, id: nat, dbWorks: bool): State {
    if !(id in s.inFlight && s.inFlight[id].Appended?) then s
    else
      var Appended(index, e) := s.inFlight[id];
      if dbWorks && CanInsert(s.table, index, RowOf(cfg, e))
      then Drop(s, id).(table := s.table[index := RowOf(cfg, e)]) else Drop(s, id)
  }

  function PublishStep(s: State, size: nat): State {
    if s.published <= size <= |s.log| then s.(published := size) else s
  }

  // The keys of the table: no two rows with one event id.
  ghost predicate HasKeys(table: map<nat, Row>) {
    forall j, k | j in table && k in table && j != k :: table[j].eventId != table[k].eventId
  }

  // In any state, an insert keeps both keys and every row that is there.
  lemma {:induction false} InsertKeepsKeys(cfg: Config, s: State, id: nat, dbWorks: bool)
    requires HasKeys(s.table)
    ensures var s' := InsertStep(cfg, s, id, dbWorks);
      HasKeys(s'.table) && forall k | k in s.table :: k in s'.table && s'.table[k] == s.table[k]
  {
    hide RowOf;
  }

  ghost function Step(cfg: Config, s: State, a: Action): State {
    match a
    case Lookup(id, raw, latest) => LookupStep(s, id, raw, latest)
    case Check(id, now, eventId) => CheckStep(cfg, s, id, now, eventId)
    case Append(id) => AppendStep(s, id)
    case Insert(id, dbWorks) => InsertStep(cfg, s, id, dbWorks)
    case Abandon(id) => Drop(s, id)
    case Publish(size) => PublishStep(s, size)
  }

  ghost function Run(cfg: Config, actions: seq<Action>): State
    decreases |actions|
  {
    if actions == [] then INITIAL
    else Step(cfg, Run(cfg, actions[..|actions| - 1]), actions[|actions| - 1])
  }

  // One request served from start to end.
  ghost function Serve(cfg: Config, s: State, id: nat, raw: Request, latest: Option<nat>,
                       now: int, eventId: string, dbWorks: bool): State
  {
    InsertStep(cfg, AppendStep(CheckStep(cfg, LookupStep(s, id, raw, latest), id, now, eventId), id), id, dbWorks)
  }

  // ----- what every run keeps, whatever the interleaving -----

  // log[j] is the predecessor that e names: same document, one version less.
  predicate IsPred(log: seq<Event>, j: nat, e: Event)
    requires j < |log|
  {
    && log[j].req.docId == e.req.docId
    && e.req.prevEventId == Some(log[j].eventId)
    && e.docVersion == log[j].docVersion + 1
  }

  // Among the first n entries e has the predecessor it names; or it is a CREATE
  // event, which has version 1 and names none.
  predicate Linked(log: seq<Event>, n: nat, e: Event)
    requires n <= |log|
  {
    if IsCreate(e.req.eventType) then e.docVersion == 1 && IsAbsent(e.req.prevEventId)
    else exists j | 0 <= j < n :: IsPred(log, j, e)
  }

  predicate LinkedAt(log: seq<Event>, i: nat)
    requires i < |log|
  {
    Linked(log, i, log[i])
  }

  ghost predicate GoodLog(log: seq<Event>) {
    && (forall i | 0 <= i < |log| :: WellFormed(log[i]))
    && (forall i | 0 <= i < |log| :: LinkedAt(log, i))
    && (forall i, j | 0 <= i < j < |log| :: log[i].eventId != log[j].eventId)
  }

  // Every row mirrors its log entry, though not every entry need have a row.
  ghost predicate Mirrors(cfg: Config, log: seq<Event>, table: map<nat, Row>) {
    forall k | k in table :: k < |log| && table[k] == RowOf(cfg, log[k])
  }

  ghost predicate GoodPhase(log: seq<Event>, table: map<nat, Row>, p: Phase) {
    match p
    case LookedUp(req, latest) =>
      && (exists raw :: req == Normalized(raw))
      && (latest.Some? ==> latest.value < |log| && log[latest.value].req.docId == req.docId)
    case Ready(e) =>
      && WellFormed(e) && Linked(log, |log|, e)
      && forall i | 0 <= i < |log| :: log[i].eventId != e.eventId
    case Appended(index, e) =>
      index < |log| && log[index] == e && index !in table
  }

  // Two requests never hold the same event or the same place in the log.
  predicate Clash(p: Phase, q: Phase) {
    || (p.Ready? && q.Ready? && p.event.eventId == q.event.eventId)
    || (p.Appended? && q.Appended? && p.index == q.index)
  }

  ghost predicate GoodFlights(s: State) {
    && (forall id | id in s.inFlight :: GoodPhase(s.log, s.table, s.inFlight[id]))
    && (forall a, b | a in s.inFlight && b in s.inFlight && a != b :: !Clash(s.inFlight[a], s.inFlight[b]))
  }

  ghost predicate Inv(cfg: Config, s: State) {
    s.published <= |s.log| && GoodLog(s.log) && Mirrors(cfg, s.log, s.table) && GoodFlights(s)
  }

  // Moving one request to a phase that is good and clashes with no other.
  lemma {:induction false} PutKeepsInv(cfg: Config, s: State, id: nat, p: Phase)
    requires Inv(cfg, s) && GoodPhase(s.log, s.table, p)
    requires forall b | b in s.inFlight && b != id :: !Clash(p, s.inFlight[b])
    ensures Inv(cfg, s.(inFlight := s.inFlight[id := p]))
  {
    var s' := s.(inFlight := s.inFlight[id := p]);
    forall x | x in s'.inFlight ensures GoodPhase(s'.log, s'.table, s'.inFlight[x]) {
      assert x != id ==> GoodPhase(s.log, s.table, s.inFlight[x]);
    }
  }

  lemma {:induction false} DropKeepsInv(cfg: Config, s: State, id: nat)
    requires Inv(cfg, s)
    ensures Inv(cfg, Drop(s, id))
  {
  }

  lemma {:induction false} FoundIsGood(cfg: Config, s: State, raw: Request, latest: Option<nat>)
    requires GoodLog(s.log) && Mirrors(cfg, s.log, s.table) && IsLatest(s.table, Normalized(raw).docId, latest)
    ensures GoodPhase(s.log, s.table, LookedUp(Normalized(raw), latest))
  {
    if latest.Some? {
      assert Names(s.table, latest.value, Normalized(raw).docId);
      RowNames(cfg, s.log, s.table, latest.value, Normalized(raw).docId);
    }
  }

  lemma {:induction false} LookupKeepsInv(cfg: Config, s: State, id: nat, raw: Request, latest: Option<nat>)
    requires Inv(cfg, s)
    ensures Inv(cfg, LookupStep(s, id, raw, latest))
  {
    if id !in s.inFlight && IsLatest(s.table, Normalized(raw).docId, latest) {
      FoundIsGood(cfg, s, raw, latest);
      PutKeepsInv(cfg, s, id, LookedUp(Normalized(raw), latest));
    }
  }

  // What a successful check hands over is good to append.
  lemma {:induction false} CheckedIsGood(cfg: Config, s: State, req: Request, latest: Option<nat>, now: int,
                                         eventId: string)
    requires GoodLog(s.log) && s.published <= |s.log| && IsFresh(s, eventId) && exists raw :: req == Normalized(raw)
    ensures var r := CheckChain(cfg, s.log, s.published, req, latest, now, eventId);
      r.Ok? ==>
        var e := r.value;
        && GoodPhase(s.log, s.table, Ready(e)) && e.eventId == eventId && e.req.docId == req.docId
        && (IsCreate(e.req.eventType) ==> latest.None?)
        && (!IsCreate(e.req.eventType) ==> latest.Some? && latest.value < |s.log| && IsPred(s.log, latest.value, e))
  {
    var raw :| req == Normalized(raw);
    var r := CheckChain(cfg, s.log, s.published, req, latest, now, eventId);
    if r.Ok? {
      PrepareIsWellFormed(cfg, raw, now, ResolveVersion(s.log, s.published, req, latest).value, eventId);
      ResolvedIsLinked(s.log, s.published, raw, latest, r.value);
    }
  }

  lemma {:induction false} CheckKeepsInv(cfg: Config, s: State, id: nat, now: int, eventId: string)
    requires Inv(cfg, s)
    ensures Inv(cfg, CheckStep(cfg, s, id, now, eventId))
  {
    if id in s.inFlight && s.inFlight[id].LookedUp? && IsFresh(s, eventId) {
      var LookedUp(req, latest) := s.inFlight[id];
      assert GoodPhase(s.log, s.table, s.inFlight[id]);
      CheckedIsGood(cfg, s, req, latest, now, eventId);
      var event := CheckChain(cfg, s.log, s.published, req, latest, now, eventId);
      if event.Ok? {
        FreshNeverClashes(s, event.value);
        PutKeepsInv(cfg, s, id, Ready(event.value));
      } else {
        DropKeepsInv(cfg, s, id);
      }
    }
  }

  lemma {:induction false} FreshNeverClashes(s: State, e: Event)
    requires IsFresh(s, e.eventId)
    ensures forall b | b in s.inFlight :: !Clash(Ready(e), s.inFlight[b])
  {
  }

  // The chain check leaves an event with the predecessor it names.
  lemma {:induction false} ResolvedIsLinked(log: seq<Event>, published: nat, raw: Request, latest: Option<nat>,
                                            e: Event)
    requires GoodLog(log) && published <= |log| && WellFormed(e)
    requires var req := Normalized(raw);
      && ResolveVersion(log, published, req, latest) == Ok(e.docVersion)
      && e.req.docId == req.docId && e.req.prevEventId == req.prevEventId && e.req.eventType == req.eventType
    ensures Linked(log, |log|, e)
    ensures IsCreate(e.req.eventType) ==> latest.None?
    ensures !IsCreate(e.req.eventType) ==> latest.Some? && latest.value < |log| && IsPred(log, latest.value, e)
  {
    if !IsCreate(e.req.eventType) {
      HeadIsTrimmed(log[latest.value]);
      PrevIsTrimmed(raw);
      assert IsPred(log, latest.value, e);
    }
  }

  // A request fits after the looked-up head: a CREATE when there is none, any other
  // event when it names the head and the head is published.
  predicate FitsAfter(log: seq<Event>, published: nat, req: Request, latest: Option<nat>)
    requires latest.Some? ==> latest.value < |log|
  {
    if IsCreate(req.eventType) then latest.None?
    else
      && IsFollowUp(req.eventType) && latest.Some? && latest.value < published
      && req.prevEventId == Some(log[latest.value].eventId)
  }

  function VersionAfter(log: seq<Event>, latest: Option<nat>): int
    requires latest.Some? ==> latest.value < |log|
  {
    if latest.None? then 1 else log[latest.value].docVersion + 1
  }

  // With heads as they are found on reachable states the chain check accepts
  // exactly the requests that fit; no other branch refuses one.
  lemma {:induction false} ResolvesExactly(log: seq<Event>, published: nat, raw: Request, latest: Option<nat>)
    requires published <= |log|
    requires latest.Some? ==>
      latest.value < |log| && WellFormed(log[latest.value]) && log[latest.value].req.docId == Normalized(raw).docId
    ensures ResolveVersion(log, published, Normalized(raw), latest) ==
      if FitsAfter(log, published, Normalized(raw), latest) then Ok(VersionAfter(log, latest)) else Err
  {
    if latest.Some? {
      HeadIsTrimmed(log[latest.value]);
    }
    PrevIsTrimmed(raw);
    ResolvesTrimmed(log, published, Normalized(raw), latest);
  }

  // A POST /add is accepted after a head as the index finds it on reachable states.
  ghost predicate IsAccepted(cfg: Config, log: seq<Event>, published: nat, raw: Request, latest: Option<nat>, now: int)
    requires latest.Some? ==> latest.value < |log|
  {
    FitsAfter(log, published, Normalized(raw), latest) && IsAcceptable(cfg, raw, now)
  }

  // The check and the preparation together let exactly the requests through that
  // fit after the head and are acceptable, and number them after it.
  lemma {:induction false} ChecksExactly(cfg: Config, log: seq<Event>, published: nat, raw: Request,
                                         latest: Option<nat>, now: int, eventId: string)
    requires published <= |log|
    requires latest.Some? ==>
      latest.value < |log| && WellFormed(log[latest.value]) && log[latest.value].req.docId == Normalized(raw).docId
    ensures var r := CheckChain(cfg, log, published, Normalized(raw), latest, now, eventId);
      && (r.Ok? <==> IsAccepted(cfg, log, published, raw, latest, now))
      && (r.Ok? ==> r.value.docVersion == VersionAfter(log, latest) && r.value.eventId == eventId)
  {
    hide ResolveVersion, Normalized, IsAcceptable, FitsAfter, Validate;
    ResolvesExactly(log, published, raw, latest);
    if FitsAfter(log, published, Normalized(raw), latest) {
      AcceptsExactly(cfg, raw, now, VersionAfter(log, latest), eventId);
    }
  }

  lemma {:induction false} ResolvesTrimmed(log: seq<Event>, published: nat, req: Request, latest: Option<nat>)
    requires published <= |log| && (latest.Some? ==> latest.value < |log|)
    requires latest.Some? ==>
      var head := log[latest.value];
      Trim(GoSpace, head.eventId) == head.eventId && Trim(GoSpace, head.req.docId) == req.docId
    requires req.prevEventId.Some? ==> Trim(GoSpace, req.prevEventId.value) == req.prevEventId.value
    ensures ResolveVersion(log, published, req, latest) ==
      if FitsAfter(log, published, req, latest) then Ok(VersionAfter(log, latest)) else Err
  {
  }

  lemma {:induction false} HeadIsTrimmed(head: Event)
    requires WellFormed(head)
    ensures Trim(GoSpace, head.eventId) == head.eventId && Trim(GoSpace, head.req.docId) == head.req.docId
  {
    TrimFixes(GoSpace, head.eventId);
    TrimFixes(GoSpace, head.req.docId);
  }

  lemma {:induction false} PrevIsTrimmed(raw: Request)
    ensures var prev := Normalized(raw).prevEventId; prev.Some? ==> Trim(GoSpace, prev.value) == prev.value
  {
    NormalizedIsNormal(raw);
    if raw.prevEventId.Some? {
      TrimFixes(GoSpace, Normalized(raw).prevEventId.value);
    }
  }

  lemma {:induction false} AppendKeepsLog(log: seq<Event>, x: Event)
    requires GoodLog(log) && WellFormed(x) && Linked(log, |log|, x)
    requires forall i | 0 <= i < |log| :: log[i].eventId != x.eventId
    ensures GoodLog(log + [x])
  {
    var log' := log + [x];
    forall i | 0 <= i < |log'| ensures LinkedAt(log', i) {
      assert i < |log| ==> LinkedAt(log, i);
      LinkedLater(log, x, i, log'[i]);
    }
  }

  lemma {:induction false} PhaseAfterAppend(log: seq<Event>, table: map<nat, Row>, x: Event, p: Phase)
    requires GoodPhase(log, table, p) && !Clash(p, Ready(x))
    ensures GoodPhase(log + [x], table, p)
  {
    if p.Ready? {
      LinkedLater(log, x, |log|, p.event);
    }
  }

  lemma {:induction false} FlightsAfterAppend(cfg: Config, s: State, id: nat)
    requires GoodFlights(s) && Mirrors(cfg, s.log, s.table) && id in s.inFlight && s.inFlight[id].Ready?
    ensures GoodFlights(AppendStep(s, id))
  {
    var s', x := AppendStep(s, id), s.inFlight[id].event;
    forall b | b in s'.inFlight ensures GoodPhase(s'.log, s'.table, s'.inFlight[b]) {
      if b == id {
        assert |s.log| !in s.table;
      } else {
        assert !Clash(s.inFlight[b], s.inFlight[id]);
        PhaseAfterAppend(s.log, s.table, x, s.inFlight[b]);
      }
    }
    forall a, b | a in s'.inFlight && b in s'.inFlight && a != b ensures !Clash(s'.inFlight[a], s'.inFlight[b]) {
      assert GoodPhase(s.log, s.table, s.inFlight[a]) && GoodPhase(s.log, s.table, s.inFlight[b]);
    }
  }

  lemma {:induction false} AppendKeepsInv(cfg: Config, s: State, id: nat)
    requires Inv(cfg, s)
    ensures Inv(cfg, AppendStep(s, id))
  {
    if id in s.inFlight && s.inFlight[id].Ready? {
      assert GoodPhase(s.log, s.table, s.inFlight[id]);
      AppendKeepsLog(s.log, s.inFlight[id].event);
      FlightsAfterAppend(cfg, s, id);
    }
  }

  // Appending to the log breaks no link.
  lemma {:induction false} LinkedLater(log: seq<Event>, x: Event, n: nat, e: Event)
    requires n <= |log| && Linked(log, n, e)
    ensures Linked(log + [x], n, e) && Linked(log + [x], |log| + 1, e)
  {
    if !IsCreate(e.req.eventType) {
      var j :| 0 <= j < n && IsPred(log, j, e);
      assert IsPred(log + [x], j, e);
    }
  }

  // On reachable states an insert never meets a conflicting row.
  lemma {:induction false} InsertNeverConflicts(cfg: Config, s: State, id: nat)
    requires Inv(cfg, s) && id in s.inFlight && s.inFlight[id].Appended?
    ensures var Appended(index, e) := s.inFlight[id]; CanInsert(s.table, index, RowOf(cfg, e))
  {
    assert GoodPhase(s.log, s.table, s.inFlight[id]);
    RowIsNew(cfg, s.log, s.table, s.inFlight[id].index);
  }

  lemma {:induction false} RowEventId(cfg: Config, e: Event)
    requires WellFormed(e)
    ensures RowOf(cfg, e).eventId == e.eventId
  {
  }

  // A row is for the document of its entry.
  lemma {:induction false} RowNames(cfg: Config, log: seq<Event>, table: map<nat, Row>, k: nat, docId: string)
    requires GoodLog(log) && Mirrors(cfg, log, table) && k in table
    ensures Names(table, k, docId) <==> log[k].req.docId == docId
  {
    TrimFixes(GoSpace, log[k].req.docId);
  }

  lemma {:induction false} RowIsNew(cfg: Config, log: seq<Event>, table: map<nat, Row>, index: nat)
    requires GoodLog(log) && Mirrors(cfg, log, table) && index < |log| && index !in table
    ensures CanInsert(table, index, RowOf(cfg, log[index]))
  {
    RowEventId(cfg, log[index]);
    forall k | k in table ensures table[k].eventId != log[index].eventId {
      RowEventId(cfg, log[k]);
    }
  }

  lemma {:induction false} FlightsAfterInsert(cfg: Config, s: State, id: nat, dbWorks: bool)
    requires GoodFlights(s) && id in s.inFlight && s.inFlight[id].Appended?
    ensures GoodFlights(InsertStep(cfg, s, id, dbWorks))
  {
    var s' := InsertStep(cfg, s, id, dbWorks);
    forall b | b in s'.inFlight ensures GoodPhase(s'.log, s'.table, s'.inFlight[b]) {
      assert GoodPhase(s.log, s.table, s.inFlight[b]) && !Clash(s.inFlight[id], s.inFlight[b]);
    }
  }

  lemma {:induction false} InsertKeepsInv(cfg: Config, s: State, id: nat, dbWorks: bool)
    requires Inv(cfg, s)
    ensures Inv(cfg, InsertStep(cfg, s, id, dbWorks))
  {
    if id in s.inFlight && s.inFlight[id].Appended? {
      assert GoodPhase(s.log, s.table, s.inFlight[id]);
      FlightsAfterInsert(cfg, s, id, dbWorks);
    }
  }

  lemma {:induction false} PublishKeepsInv(cfg: Config, s: State, size: nat)
    requires Inv(cfg, s)
    ensures Inv(cfg, PublishStep(s, size))
  {
  }

  lemma {:induction false} RunKeepsInv(cfg: Config, actions: seq<Action>)
    ensures Inv(cfg, Run(cfg, actions))
    decreases |actions|
  {
    if actions != [] {
      var s := Run(cfg, actions[..|actions| - 1]);
      RunKeepsInv(cfg, actions[..|actions| - 1]);
      match actions[|actions| - 1]
      case Lookup(id, raw, latest) => LookupKeepsInv(cfg, s, id, raw, latest);
      case Check(id, now, eventId) => CheckKeepsInv(cfg, s, id, now, eventId);
      case Append(id) => AppendKeepsInv(cfg, s, id);
      case Insert(id, dbWorks) => InsertKeepsInv(cfg, s, id, dbWorks);
      case Abandon(id) => DropKeepsInv(cfg, s, id);
      case Publish(size) => PublishKeepsInv(cfg, s, size);
    }
  }

  // ----- versions are depths -----

  // Where the event with a given id stands among the first n entries.
  function Find(log: seq<Event>, n: nat, eventId: string): (at: Option<nat>)
    requires n <= |log|
    ensures at.Some? ==> at.value < n && log[at.value].eventId == eventId
    ensures at.None? ==> forall j | 0 <= j < n :: log[j].eventId != eventId
  {
    if n == 0 then None
    else if log[n - 1].eventId == eventId then Some(n - 1)
    else Find(log, n - 1, eventId)
  }

  // How many links lead from entry i back to the start of its chain.
  function Depth(log: seq<Event>, i: nat): nat
    requires i < |log|
  {
    if IsAbsent(log[i].req.prevEventId) then 0
    else
      var pred := Find(log, i, log[i].req.prevEventId.value);
      if pred.None? then 0 else 1 + Depth(log, pred.value)
  }

  // The entry where that walk ends.
  function ChainStart(log: seq<Event>, i: nat): (start: nat)
    requires i < |log|
    ensures start <= i
  {
    if IsAbsent(log[i].req.prevEventId) then i
    else
      var pred := Find(log, i, log[i].req.prevEventId.value);
      if pred.None? then i else ChainStart(log, pred.value)
  }

  lemma {:induction false} VersionIsDepth(log: seq<Event>, i: nat)
    requires GoodLog(log) && i < |log|
    ensures LinkedAt(log, i) && log[i].docVersion == Depth(log, i) + 1
    ensures var start := ChainStart(log, i);
      IsCreate(log[start].req.eventType) && log[start].req.docId == log[i].req.docId
    decreases i
  {
    assert LinkedAt(log, i);
    if !IsCreate(log[i].req.eventType) {
      var j := PredIsFound(log, i);
      VersionIsDepth(log, j);
    }
  }

  lemma {:induction false} PredIsFound(log: seq<Event>, i: nat) returns (j: nat)
    requires GoodLog(log) && i < |log| && !IsCreate(log[i].req.eventType)
    ensures j < i && IsPred(log, j, log[i])
    ensures !IsAbsent(log[i].req.prevEventId) && Find(log, i, log[i].req.prevEventId.value) == Some(j)
  {
    assert LinkedAt(log, i);
    j :| 0 <= j < i && IsPred(log, j, log[i]);
    assert WellFormed(log[j]);
    FindIsUnique(log, i, j);
  }

  lemma {:induction false} FindIsUnique(log: seq<Event>, n: nat, j: nat)
    requires j < n <= |log| && forall a, b | 0 <= a < b < |log| :: log[a].eventId != log[b].eventId
    ensures Find(log, n, log[j].eventId) == Some(j)
  {
    var found := Find(log, n, log[j].eventId);
    assert found.Some? && log[found.value].eventId == log[j].eventId;
  }

  // Under every interleaving, every link of the log leads to an earlier entry of
  // the same document with one version less, and following links always ends at
  // a CREATE event of that document: the links form a forest, and the version of
  // an entry is its depth plus one.
  lemma {:induction false} EveryRunIsAForest(cfg: Config, actions: seq<Action>, i: nat)
    requires i < |Run(cfg, actions).log|
    ensures var log := Run(cfg, actions).log;
      && LinkedAt(log, i)
      && log[i].docVersion == Depth(log, i) + 1
      && IsCreate(log[ChainStart(log, i)].req.eventType)
      && log[ChainStart(log, i)].req.docId == log[i].req.docId
  {
    RunKeepsInv(cfg, actions);
    VersionIsDepth(Run(cfg, actions).log, i);
  }
}
