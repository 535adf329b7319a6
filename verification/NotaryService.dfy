// The server object behind POST /add and the startup check: the fields that
// server/internal/api/add.go and server/internal/index change, phase by phase.
module NotaryService {
  import opened Wrappers
  import opened Text
  import opened NotaryEvent
  import opened NotaryServer
  import A = Alignment

  lemma NoRequestNoStep(cfg: Config, s: State, id: nat, now: int, eventId: string, dbWorks: bool)
    requires id !in s.inFlight
    ensures CheckStep(cfg, s, id, now, eventId) == s && AppendStep(s, id) == s && InsertStep(cfg, s, id, dbWorks) == s
  {
  }

  // Which requests are accepted in a reachable state.
  ghost predicate IsServed(cfg: Config, s: State, raw: Request, now: int) {
    exists latest: Option<nat> | IsLatest(s.table, Normalized(raw).docId, latest) ::
      && (latest.Some? ==> latest.value < |s.log|)
      && IsAccepted(cfg, s.log, s.published, raw, latest, now)
  }

  lemma {:induction false} LatestIsUnique(table: map<nat, Row>, docId: string, a: Option<nat>, b: Option<nat>)
    requires IsLatest(table, docId, a) && IsLatest(table, docId, b)
    ensures a == b
  {
    if a.Some? {
      assert Names(table, a.value, docId);
    }
    if b.Some? {
      assert Names(table, b.value, docId);
    }
  }

  // With the answer of the index, a request is served when its document is named and
  // the check lets it through.
  lemma {:induction false} ServedExactly(cfg: Config, s: State, raw: Request, latest: Option<nat>, now: int,
                                         eventId: string)
    requires Inv(cfg, s) && IsLatest(s.table, Normalized(raw).docId, latest)
    ensures IsServed(cfg, s, raw, now) <==>
      CheckChain(cfg, s.log, s.published, Normalized(raw), latest, now, eventId).Ok?
    ensures IsServed(cfg, s, raw, now) ==> Normalized(raw).docId != ""
  {
    hide Normalized, CheckChain, IsAcceptable, FitsAfter, IsLatest, WellFormed, HasFields;
    FoundIsGood(cfg, s, raw, latest);
    FieldsExactly(raw);
    ChecksExactly(cfg, s.log, s.published, raw, latest, now, eventId);
    assert IsServed(cfg, s, raw, now) ==> IsAccepted(cfg, s.log, s.published, raw, latest, now) by {
      forall other: Option<nat> | IsLatest(s.table, Normalized(raw).docId, other) ensures other == latest {
        LatestIsUnique(s.table, Normalized(raw).docId, other, latest);
      }
    }
    if IsServed(cfg, s, raw, now) {
      AcceptableIsNamed(cfg, raw, now);
    }
  }

  lemma {:induction false} CheckKeepsId(cfg: Config, log: seq<Event>, published: nat, req: Request, latest: Option<nat>,
                                        now: int, eventId: string)
    ensures var r := CheckChain(cfg, log, published, req, latest, now, eventId); r.Ok? ==> r.value.eventId == eventId
  {
    hide ResolveVersion, Validate;
  }

  lemma {:induction false} AcceptableIsNamed(cfg: Config, raw: Request, now: int)
    requires IsAcceptable(cfg, raw, now)
    ensures Normalized(raw).docId != ""
  {
    hide SuitsItsType;
    FieldsExactly(raw);
  }

  class Notary {
    const cfg: Config
    var log: seq<Event>
    var published: nat
    var table: map<nat, Row>
    var inFlight: map<nat, Phase>

    function State(): State
      reads this
    {
      NotaryServer.State(log, published, table, inFlight)
    }

    constructor (cfg: Config)
      ensures this.cfg == cfg && State() == INITIAL
    {
      this.cfg := cfg;
      log, published, table, inFlight := [], 0, map[], map[];
    }

    // Decode a request and ask the index for the head of its document.
    method LookupHead(id: nat, raw: Request) returns (latest: Option<nat>)
      requires id !in inFlight
      modifies this`inFlight
      ensures IsLatest(table, Normalized(raw).docId, latest)
      ensures State() == LookupStep(old(State()), id, raw, latest)
    {
      var req := NormalizeRequest(raw);
      latest := SelectLatest(table, req.docId);
      if req.docId != "" {
        inFlight := inFlight[id := LookedUp(req, latest)];
      }
    }

    // resolveDocumentVersion, from the answer of the index on.
    method ResolveDocumentVersion(req: Request, latest: Option<nat>) returns (version: Result<int>)
      ensures version == ResolveVersion(log, published, req, latest)
    {
      if IsCreate(req.eventType) {
        return if latest.Some? then Err else Ok(1);
      }
      if !IsFollowUp(req.eventType) || latest.None? {
        return Err;
      }
      if latest.value >= published || latest.value >= |log| {
        return Err;
      }
      var head := log[latest.value];
      if Trim(GoSpace, head.req.docId) != req.docId || req.prevEventId.None? {
        return Err;
      }
      if Trim(GoSpace, req.prevEventId.value) != Trim(GoSpace, head.eventId) {
        return Err;
      }
      version := Ok(head.docVersion + 1);
    }

    // Check the chain and prepare the event; eventId is what the UUID library
    // returns.
    method CheckDocument(id: nat, now: int, eventId: string)
      requires id in inFlight && inFlight[id].LookedUp? && IsFresh(State(), eventId)
      modifies this`inFlight
      ensures State() == CheckStep(cfg, old(State()), id, now, eventId)
    {
      var LookedUp(req, latest) := inFlight[id];
      var version := ResolveDocumentVersion(req, latest);
      if version.Err? {
        inFlight := inFlight - {id};
        return;
      }
      var event := Prepare(cfg, req, now, version.value, eventId);
      if event.Err? {
        inFlight := inFlight - {id};
        return;
      }
      inFlight := inFlight[id := Ready(event.value)];
    }

    method AppendEvent(id: nat) returns (index: nat)
      requires id in inFlight && inFlight[id].Ready?
      modifies this`inFlight, this`log
      ensures State() == AppendStep(old(State()), id) && index == old(|log|)
    {
      var e := inFlight[id].event;
      index := |log|;
      log := log + [e];
      inFlight := inFlight[id := Appended(index, e)];
    }

    // AddEntry; a failure is logged and otherwise ignored by the caller.
    method AddEntry(id: nat, dbWorks: bool)
      requires id in inFlight && inFlight[id].Appended?
      modifies this`inFlight, this`table
      ensures State() == InsertStep(cfg, old(State()), id, dbWorks)
    {
      var Appended(index, e) := inFlight[id];
      var row := RowOf(cfg, e);
      inFlight := inFlight - {id};
      if dbWorks && CanInsert(table, index, row) {
        table := table[index := row];
      }
    }

    method PublishCheckpoint(size: nat)
      modifies this`published
      ensures State() == PublishStep(old(State()), size)
    {
      if published <= size <= |log| {
        published := size;
      }
    }

    // One POST /add with nothing in between; the log index when it is accepted.
    method AddEvent(id: nat, raw: Request, now: int, eventId: string, dbWorks: bool) returns (index: Option<nat>)
      requires id !in inFlight && IsFresh(State(), eventId)
      modifies this
      ensures exists latest ::
        State() == Serve(cfg, old(State()), id, raw, latest, now, eventId, dbWorks)
      ensures Inv(cfg, old(State())) ==> (index.Some? <==> IsServed(cfg, old(State()), raw, now))
      ensures index.None? ==> log == old(log)
      ensures index.Some? ==>
        index.value == old(|log|) == |log| - 1 && old(log) <= log && log[index.value].eventId == eventId
      ensures id !in inFlight
    {
      hide Inv, IsServed, Normalized, CheckChain, RowOf, IsTrimmed, IsLatest, CanInsert;
      index := None;
      var latest := LookupHead(id, raw);
      if Inv(cfg, old(State())) {
        ServedExactly(cfg, old(State()), raw, latest, now, eventId);
      }
      CheckKeepsId(cfg, log, published, Normalized(raw), latest, now, eventId);
      ghost var served := Serve(cfg, old(State()), id, raw, latest, now, eventId, dbWorks);
      if id !in inFlight {
        NoRequestNoStep(cfg, State(), id, now, eventId, dbWorks);
        assert State() == served;
        return;
      }
      CheckDocument(id, now, eventId);
      if id !in inFlight {
        NoRequestNoStep(cfg, State(), id, now, eventId, dbWorks);
        assert State() == served;
        return;
      }
      var i := AppendEvent(id);
      AddEntry(id, dbWorks);
      index := Some(i);
      assert State() == served;
    }

    method ValidateAlignedWithLog(env: A.Environment) returns (ok: bool)
      requires A.ReadsLog(env, State())
      ensures ok <==> A.AllWorks(env, published) && A.Passes(cfg, State())
    {
      if !env.readsCheckpoint || !env.counts || |table| != published {
        return false;
      }
      if published == 0 {
        return true;
      }
      ok := A.CheckTailEntries(cfg, State(), env, published);
    }
  }
}
