// Runs of the notarization server that reach the limits of what it promises: for
// every request of the kind described, the run ends in the state described.
module Scenarios {
  import opened Wrappers
  import opened Text
  import opened NotaryEvent
  import opened NotaryServer
  import A = Alignment
  import H = RunHistories
  import S = SerialRuns
  import V = VersionHistory
  import Q = IndexQueries
  import R = RunSearches
  import P = PayloadHash

  // ----- runs, step by step -----

  lemma {:induction false} RunThen(cfg: Config, actions: seq<Action>, a: Action)
    ensures Run(cfg, actions + [a]) == Step(cfg, Run(cfg, actions), a)
  {
    assert (actions + [a])[..|actions|] == actions;
  }

  // The four steps of one request, with nothing in between.
  function Serving(id: nat, raw: Request, latest: Option<nat>, now: int, eventId: string, dbWorks: bool): seq<Action> {
    [Lookup(id, raw, latest), Check(id, now, eventId), Append(id), Insert(id, dbWorks)]
  }

  lemma {:induction false} RunServing(cfg: Config, actions: seq<Action>, id: nat, raw: Request, latest: Option<nat>,
                                      now: int, eventId: string, dbWorks: bool)
    ensures Run(cfg, actions + Serving(id, raw, latest, now, eventId, dbWorks)) ==
      Serve(cfg, Run(cfg, actions), id, raw, latest, now, eventId, dbWorks)
  {
    hide Step, Serve;
    var a1 := actions + [Lookup(id, raw, latest)];
    var a2 := a1 + [Check(id, now, eventId)];
    var a3 := a2 + [Append(id)];
    RunThen(cfg, actions, Lookup(id, raw, latest));
    RunThen(cfg, a1, Check(id, now, eventId));
    RunThen(cfg, a2, Append(id));
    RunThen(cfg, a3, Insert(id, dbWorks));
    FourSteps(cfg, Run(cfg, actions), id, raw, latest, now, eventId, dbWorks);
    assert actions + Serving(id, raw, latest, now, eventId, dbWorks) == a3 + [Insert(id, dbWorks)];
  }

  lemma {:induction false} FourSteps(cfg: Config, s: State, id: nat, raw: Request, latest: Option<nat>,
                                     now: int, eventId: string, dbWorks: bool)
    ensures Serve(cfg, s, id, raw, latest, now, eventId, dbWorks) ==
      Step(cfg, Step(cfg, Step(cfg, Step(cfg, s, Lookup(id, raw, latest)), Check(id, now, eventId)), Append(id)),
        Insert(id, dbWorks))
  {
  }

  // A request that is accepted adds its event, and its row if the database works.
  lemma {:induction false} ServedIsAdded(cfg: Config, s: State, id: nat, raw: Request, latest: Option<nat>,
                                         now: int, eventId: string, dbWorks: bool, e: Event)
    requires id !in s.inFlight && Normalized(raw).docId != "" && IsLatest(s.table, Normalized(raw).docId, latest)
    requires IsFresh(s, eventId)
    requires CheckChain(cfg, s.log, s.published, Normalized(raw), latest, now, eventId) == Ok(e)
    ensures Serve(cfg, s, id, raw, latest, now, eventId, dbWorks) ==
      State(s.log + [e], s.published,
            if dbWorks && CanInsert(s.table, |s.log|, RowOf(cfg, e)) then s.table[|s.log| := RowOf(cfg, e)]
            else s.table,
            s.inFlight)
  {
    hide CheckChain, RowOf, Normalized;
    var s1 := LookupStep(s, id, raw, latest);
    CheckedIsReady(cfg, s1, id, now, eventId, e);
    var s2 := CheckStep(cfg, s1, id, now, eventId);
    var s3 := AppendStep(s2, id);
    assert s3.inFlight - {id} == s.inFlight;
  }

  lemma {:induction false} CheckedIsReady(cfg: Config, s: State, id: nat, now: int, eventId: string, e: Event)
    requires id in s.inFlight && s.inFlight[id].LookedUp? && IsFresh(s, eventId)
    requires CheckChain(cfg, s.log, s.published, s.inFlight[id].req, s.inFlight[id].latest, now, eventId) == Ok(e)
    ensures CheckStep(cfg, s, id, now, eventId) == s.(inFlight := s.inFlight[id := Ready(e)])
  {
    hide CheckChain, IsFresh;
  }

  // ----- the requests -----

  // A CREATE that passes all checks.
  predicate Creates(cfg: Config, raw: Request, now: int, eventId: string) {
    && eventId != "" && IsTrimmed(GoSpace, eventId)
    && IsCreate(Normalized(raw).eventType) && Prepare(cfg, Normalized(raw), now, 1, eventId).Ok?
  }

  function Created(cfg: Config, raw: Request, now: int, eventId: string): Event
    requires Creates(cfg, raw, now, eventId)
  {
    Prepare(cfg, Normalized(raw), now, 1, eventId).value
  }

  // A follow-up to the first event of a document that passes all checks.
  predicate Follows(cfg: Config, first: Event, raw: Request, now: int, eventId: string) {
    && eventId != "" && IsTrimmed(GoSpace, eventId)
    && IsFollowUp(Normalized(raw).eventType) && Normalized(raw).docId == first.req.docId
    && Normalized(raw).prevEventId == Some(first.eventId)
    && Prepare(cfg, Normalized(raw), now, 2, eventId).Ok?
  }

  function Following(cfg: Config, first: Event, raw: Request, now: int, eventId: string): Event
    requires Follows(cfg, first, raw, now, eventId)
  {
    Prepare(cfg, Normalized(raw), now, 2, eventId).value
  }

  lemma {:induction false} CreatedIsGood(cfg: Config, raw: Request, now: int, eventId: string)
    requires Creates(cfg, raw, now, eventId)
    ensures var e := Created(cfg, raw, now, eventId);
      && WellFormed(e) && e.eventId == eventId && e.docVersion == 1
      && e.req.docId == Normalized(raw).docId != "" && IsCreate(e.req.eventType)
  {
    PrepareIsWellFormed(cfg, raw, now, 1, eventId);
  }

  lemma {:induction false} FollowingIsGood(cfg: Config, first: Event, raw: Request, now: int, eventId: string)
    requires Follows(cfg, first, raw, now, eventId)
    ensures var e := Following(cfg, first, raw, now, eventId);
      && WellFormed(e) && e.eventId == eventId && e.docVersion == 2
      && e.req.docId == first.req.docId && e.req.prevEventId == Some(first.eventId) && !IsCreate(e.req.eventType)
  {
    PrepareIsWellFormed(cfg, raw, now, 2, eventId);
  }

  // The chain check lets a CREATE of a new document through, and a follow-up once
  // the first event is published.
  lemma {:induction false} CreateIsChecked(cfg: Config, log: seq<Event>, published: nat, raw: Request, now: int,
                                           eventId: string)
    requires Creates(cfg, raw, now, eventId)
    ensures CheckChain(cfg, log, published, Normalized(raw), None, now, eventId) == Ok(Created(cfg, raw, now, eventId))
  {
  }

  lemma {:induction false} FollowUpIsChecked(cfg: Config, log: seq<Event>, published: nat, first: Event, raw: Request,
                                             now: int, eventId: string)
    requires log != [] && log[0] == first && WellFormed(first) && first.docVersion == 1 && 0 < published <= |log|
    requires Follows(cfg, first, raw, now, eventId)
    ensures CheckChain(cfg, log, published, Normalized(raw), Some(0), now, eventId) ==
      Ok(Following(cfg, first, raw, now, eventId))
  {
    hide ResolveVersion, Prepare, Normalized, WellFormed;
    ResolvesExactly(log, published, raw, Some(0));
  }

  // ----- after one CREATE -----

  // What a CREATE leaves behind, with the checkpoint at 0 or at 1.
  ghost function AfterCreate(cfg: Config, e: Event, published: nat): State {
    State([e], published, map[0 := RowOf(cfg, e)], map[])
  }

  lemma {:induction false} RunCreate(cfg: Config, raw: Request, now: int, eventId: string)
    requires Creates(cfg, raw, now, eventId)
    ensures var e := Created(cfg, raw, now, eventId);
      var actions := Serving(0, raw, None, now, eventId, true);
      Run(cfg, actions) == AfterCreate(cfg, e, 0) && Run(cfg, actions + [Publish(1)]) == AfterCreate(cfg, e, 1)
  {
    hide Serve, CheckChain, Prepare, Normalized, RowOf;
    var actions := Serving(0, raw, None, now, eventId, true);
    assert [] + actions == actions;
    RunServing(cfg, [], 0, raw, None, now, eventId, true);
    ServeCreate(cfg, INITIAL, 0, raw, now, eventId, true);
    RunThen(cfg, actions, Publish(1));
  }

  lemma {:induction false} ServeCreate(cfg: Config, s: State, id: nat, raw: Request, now: int, eventId: string,
                                       dbWorks: bool)
    requires Creates(cfg, raw, now, eventId) && id !in s.inFlight && IsFresh(s, eventId)
    requires IsLatest(s.table, Normalized(raw).docId, None)
    ensures var e := Created(cfg, raw, now, eventId);
      Serve(cfg, s, id, raw, None, now, eventId, dbWorks) ==
      State(s.log + [e], s.published,
            if dbWorks && CanInsert(s.table, |s.log|, RowOf(cfg, e)) then s.table[|s.log| := RowOf(cfg, e)]
            else s.table,
            s.inFlight)
  {
    CreatedIsGood(cfg, raw, now, eventId);
    CreateIsChecked(cfg, s.log, s.published, raw, now, eventId);
    ServedIsAdded(cfg, s, id, raw, None, now, eventId, dbWorks, Created(cfg, raw, now, eventId));
  }

  // Until the next checkpoint the index is complete but the startup check refuses
  // it, and the page of the event that was just accepted shows an error.
  lemma {:induction false} AcceptedButUnpublished(cfg: Config, raw: Request, now: int, eventId: string)
    requires Creates(cfg, raw, now, eventId)
    ensures var s := Run(cfg, Serving(0, raw, None, now, eventId, true));
      && s.published < |s.log| == 1 && A.IsComplete(cfg, s) && !A.Passes(cfg, s)
      && H.IndexesFor(s, s.log[0].req.docId) == [0] && H.DetailsPage(s, 0) == Err
  {
    var actions, e := Serving(0, raw, None, now, eventId, true), Created(cfg, raw, now, eventId);
    RunCreate(cfg, raw, now, eventId);
    RunKeepsInv(cfg, actions);
    UnpublishedCreate(cfg, AfterCreate(cfg, e, 0), e);
  }

  lemma {:induction false} UnpublishedCreate(cfg: Config, s: State, e: Event)
    requires Inv(cfg, s) && s == AfterCreate(cfg, e, 0)
    ensures A.IsComplete(cfg, s) && !A.Passes(cfg, s) && H.IndexesFor(s, e.req.docId) == [0]
      && H.DetailsPage(s, 0) == Err
  {
    hide A.IsComplete, A.Passes, RowOf, H.DetailsPage, H.IndexesFor, Inv;
    OneRowTooMany(cfg, e);
    H.PageIsExact(cfg, s, 0);
    CreateIsListed(cfg, s, e, 0);
  }

  lemma {:induction false} OneRowTooMany(cfg: Config, e: Event)
    ensures var s := AfterCreate(cfg, e, 0); A.IsComplete(cfg, s) && !A.Passes(cfg, s)
  {
    hide A.EntryMatches, RowOf;
    assert |AfterCreate(cfg, e, 0).table| == 1;
  }

  lemma {:induction false} CreateIsListed(cfg: Config, s: State, e: Event, published: nat)
    requires Inv(cfg, s) && s == AfterCreate(cfg, e, published)
    ensures H.IndexesFor(s, e.req.docId) == [0]
  {
    H.IndexesAreInLog(cfg, s, e.req.docId);
    OnlyZero(H.IndexesFor(s, e.req.docId));
  }

  lemma {:induction false} OnlyZero(at: seq<nat>)
    requires Q.Ascending(at) && forall i: nat :: i in at <==> i == 0
    ensures at == [0]
  {
    Q.AscendingIsUnique(at, [0]);
  }

  // ----- an index with a row missing -----

  // The CREATE of a second document, the insert of whose row fails: with the
  // checkpoint still at 1, the startup check passes on the incomplete index.
  lemma {:induction false} LostRowPasses(cfg: Config, raw1: Request, now1: int, id1: string, raw2: Request, now2: int,
                                         id2: string)
    requires Creates(cfg, raw1, now1, id1) && Creates(cfg, raw2, now2, id2)
    requires id1 != id2 && Normalized(raw1).docId != Normalized(raw2).docId
    ensures var actions := Serving(0, raw1, None, now1, id1, true) + [Publish(1)] +
      Serving(1, raw2, None, now2, id2, false);
      var s := Run(cfg, actions);
      s.published < |s.log| == 2 && A.Passes(cfg, s) && !A.IsComplete(cfg, s)
  {
    RunLostRow(cfg, raw1, now1, id1, raw2, now2, id2);
    CreatedIsGood(cfg, raw1, now1, id1);
    OneRowOfTwo(cfg, Created(cfg, raw1, now1, id1), Created(cfg, raw2, now2, id2));
  }

  ghost function AfterLostRow(cfg: Config, e1: Event, e2: Event): State {
    State([e1, e2], 1, map[0 := RowOf(cfg, e1)], map[])
  }

  lemma {:induction false} RunLostRow(cfg: Config, raw1: Request, now1: int, id1: string, raw2: Request, now2: int,
                                      id2: string)
    requires Creates(cfg, raw1, now1, id1) && Creates(cfg, raw2, now2, id2)
    requires id1 != id2 && Normalized(raw1).docId != Normalized(raw2).docId
    ensures var actions := Serving(0, raw1, None, now1, id1, true) + [Publish(1)] +
      Serving(1, raw2, None, now2, id2, false);
      Run(cfg, actions) == AfterLostRow(cfg, Created(cfg, raw1, now1, id1), Created(cfg, raw2, now2, id2))
  {
    hide Serve, CheckChain, Prepare, Normalized, RowOf;
    var e1, e2 := Created(cfg, raw1, now1, id1), Created(cfg, raw2, now2, id2);
    var before := Serving(0, raw1, None, now1, id1, true) + [Publish(1)];
    RunCreate(cfg, raw1, now1, id1);
    SecondIsNew(cfg, raw1, now1, id1, raw2, now2, id2);
    RunServing(cfg, before, 1, raw2, None, now2, id2, false);
    ServeCreate(cfg, AfterCreate(cfg, e1, 1), 1, raw2, now2, id2, false);
    assert [e1] + [e2] == [e1, e2];
  }

  lemma {:induction false} SecondIsNew(cfg: Config, raw1: Request, now1: int, id1: string, raw2: Request, now2: int,
                                       id2: string)
    requires Creates(cfg, raw1, now1, id1) && Creates(cfg, raw2, now2, id2)
    requires id1 != id2 && Normalized(raw1).docId != Normalized(raw2).docId
    ensures var s := AfterCreate(cfg, Created(cfg, raw1, now1, id1), 1);
      IsFresh(s, id2) && IsLatest(s.table, Normalized(raw2).docId, None)
  {
    CreatedIsGood(cfg, raw1, now1, id1);
    RowFields(cfg, Created(cfg, raw1, now1, id1));
  }

  lemma {:induction false} OneRowOfTwo(cfg: Config, e1: Event, e2: Event)
    requires WellFormed(e1)
    ensures var s := AfterLostRow(cfg, e1, e2); A.Passes(cfg, s) && !A.IsComplete(cfg, s)
  {
    hide A.RowMatches, RowOf, WellFormed;
    A.RowMatchesEvent(cfg, e1);
    assert 1 !in AfterLostRow(cfg, e1, e2).table;
  }

  // ----- a history with an unpublished end -----

  // A follow-up that is accepted hides the whole history, also for the published
  // first event, until the next checkpoint.
  lemma {:induction false} FollowUpHidesHistory(cfg: Config, raw1: Request, now1: int, id1: string, raw2: Request,
                                                now2: int, id2: string)
    requires Creates(cfg, raw1, now1, id1) && Follows(cfg, Created(cfg, raw1, now1, id1), raw2, now2, id2) && id1 != id2
    ensures var before := Serving(0, raw1, None, now1, id1, true) + [Publish(1)];
      var after := before + Serving(1, raw2, Some(0), now2, id2, true);
      H.DetailsPage(Run(cfg, before), 0).Ok? && H.DetailsPage(Run(cfg, after), 0) == Err
  {
    var before := Serving(0, raw1, None, now1, id1, true) + [Publish(1)];
    var after := before + Serving(1, raw2, Some(0), now2, id2, true);
    var e1, e2 := Created(cfg, raw1, now1, id1), Following(cfg, Created(cfg, raw1, now1, id1), raw2, now2, id2);
    RunCreate(cfg, raw1, now1, id1);
    RunKeepsInv(cfg, before);
    FirstIsShown(cfg, Run(cfg, before), e1);
    RunFollowUp(cfg, raw1, now1, id1, raw2, now2, id2);
    RunKeepsInv(cfg, after);
    SecondIsNotShown(cfg, Run(cfg, after), e1, e2);
  }

  lemma {:induction false} FirstIsShown(cfg: Config, s: State, e: Event)
    requires Inv(cfg, s) && s == AfterCreate(cfg, e, 1)
    ensures H.DetailsPage(s, 0).Ok?
  {
    hide RowOf, H.DetailsPage;
    H.PageIsExact(cfg, s, 0);
    CreateIsListed(cfg, s, e, 1);
  }

  ghost function AfterFollowUp(cfg: Config, e1: Event, e2: Event): State {
    State([e1, e2], 1, map[0 := RowOf(cfg, e1), 1 := RowOf(cfg, e2)], map[])
  }

  lemma {:induction false} SecondIsNotShown(cfg: Config, s: State, e1: Event, e2: Event)
    requires Inv(cfg, s) && s == AfterFollowUp(cfg, e1, e2) && e1.req.docId == e2.req.docId
    ensures H.DetailsPage(s, 0) == Err
  {
    hide RowOf, H.DetailsPage;
    var at := H.IndexesFor(s, e1.req.docId);
    H.PageIsExact(cfg, s, 0);
    H.IndexesAreInLog(cfg, s, e1.req.docId);
    assert 1 in at;
  }

  lemma {:induction false} RunFollowUp(cfg: Config, raw1: Request, now1: int, id1: string, raw2: Request, now2: int,
                                       id2: string)
    requires Creates(cfg, raw1, now1, id1) && Follows(cfg, Created(cfg, raw1, now1, id1), raw2, now2, id2) && id1 != id2
    ensures var e1 := Created(cfg, raw1, now1, id1);
      var actions := Serving(0, raw1, None, now1, id1, true) + [Publish(1)] +
        Serving(1, raw2, Some(0), now2, id2, true);
      Run(cfg, actions) == AfterFollowUp(cfg, e1, Following(cfg, e1, raw2, now2, id2))
  {
    hide Serve, CheckChain, Prepare, Normalized, RowOf;
    var e1 := Created(cfg, raw1, now1, id1);
    var before := Serving(0, raw1, None, now1, id1, true) + [Publish(1)];
    RunCreate(cfg, raw1, now1, id1);
    RunServing(cfg, before, 1, raw2, Some(0), now2, id2, true);
    CreatedIsGood(cfg, raw1, now1, id1);
    ServeFollowUp(cfg, e1, raw2, now2, id2);
  }

  lemma {:induction false} FirstIsFound(cfg: Config, e1: Event, id2: string)
    requires WellFormed(e1) && id2 != "" && IsTrimmed(GoSpace, id2) && e1.eventId != id2
    ensures var s := AfterCreate(cfg, e1, 1); IsFresh(s, id2) && IsLatest(s.table, e1.req.docId, Some(0))
  {
    RowFields(cfg, e1);
  }

  lemma {:induction false} ServeFollowUp(cfg: Config, e1: Event, raw: Request, now: int, id2: string)
    requires WellFormed(e1) && e1.docVersion == 1 && Follows(cfg, e1, raw, now, id2) && e1.eventId != id2
    ensures Serve(cfg, AfterCreate(cfg, e1, 1), 1, raw, Some(0), now, id2, true) ==
      AfterFollowUp(cfg, e1, Following(cfg, e1, raw, now, id2))
  {
    hide Serve, CheckChain, Prepare, Normalized, RowOf;
    var s, e2 := AfterCreate(cfg, e1, 1), Following(cfg, e1, raw, now, id2);
    FirstIsFound(cfg, e1, id2);
    FollowUpIsChecked(cfg, [e1], 1, e1, raw, now, id2);
    FollowingIsGood(cfg, e1, raw, now, id2);
    ServedIsAdded(cfg, s, 1, raw, Some(0), now, id2, true, e2);
    RowEventId(cfg, e1);
    RowEventId(cfg, e2);
    assert [e1] + [e2] == [e1, e2];
  }

  // ----- a race -----

  // Two follow-ups that are both looked up before either is appended.
  function Racing(rawA: Request, nowA: int, idA: string, rawB: Request, nowB: int, idB: string): seq<Action> {
    [Lookup(1, rawA, Some(0)), Lookup(2, rawB, Some(0)), Check(1, nowA, idA), Check(2, nowB, idB), Append(1), Append(2)]
  }

  ghost function Race(cfg: Config, s: State, rawA: Request, nowA: int, idA: string, rawB: Request, nowB: int,
                      idB: string): State {
    var looked := LookupStep(LookupStep(s, 1, rawA, Some(0)), 2, rawB, Some(0));
    var checked := CheckStep(cfg, CheckStep(cfg, looked, 1, nowA, idA), 2, nowB, idB);
    AppendStep(AppendStep(checked, 1), 2)
  }

  lemma {:induction false} RunRacing(cfg: Config, actions: seq<Action>, rawA: Request, nowA: int, idA: string,
                                     rawB: Request, nowB: int, idB: string)
    ensures Run(cfg, actions + Racing(rawA, nowA, idA, rawB, nowB, idB)) ==
      Race(cfg, Run(cfg, actions), rawA, nowA, idA, rawB, nowB, idB)
  {
    hide LookupStep, CheckStep, AppendStep;
    var a1 := actions + [Lookup(1, rawA, Some(0))];
    var a2 := a1 + [Lookup(2, rawB, Some(0))];
    var a3 := a2 + [Check(1, nowA, idA)];
    var a4 := a3 + [Check(2, nowB, idB)];
    var a5 := a4 + [Append(1)];
    RunThen(cfg, actions, Lookup(1, rawA, Some(0)));
    RunThen(cfg, a1, Lookup(2, rawB, Some(0)));
    RunThen(cfg, a2, Check(1, nowA, idA));
    RunThen(cfg, a3, Check(2, nowB, idB));
    RunThen(cfg, a4, Append(1));
    RunThen(cfg, a5, Append(2));
    assert actions + Racing(rawA, nowA, idA, rawB, nowB, idB) == a5 + [Append(2)];
  }

  // Two entries that name the first one.
  ghost predicate IsForked(log: seq<Event>) {
    && |log| == 3 && IsPred(log, 0, log[1]) && IsPred(log, 0, log[2])
    && V.HasFork(H.Items(log, [0, 1, 2])) && !S.Linear(log, log[0].req.docId)
  }

  // Both are appended, and the document has a fork: serving its requests one at a
  // time is what keeps its history linear.
  lemma {:induction false} RacesFork(cfg: Config, raw1: Request, now1: int, id1: string,
                                     rawA: Request, nowA: int, idA: string, rawB: Request, nowB: int, idB: string)
    requires Creates(cfg, raw1, now1, id1) && id1 != idA && id1 != idB && idA != idB
    requires var e1 := Created(cfg, raw1, now1, id1);
      Follows(cfg, e1, rawA, nowA, idA) && Follows(cfg, e1, rawB, nowB, idB)
    ensures var actions := Serving(0, raw1, None, now1, id1, true) + [Publish(1)] +
      Racing(rawA, nowA, idA, rawB, nowB, idB);
      IsForked(Run(cfg, actions).log)
  {
    hide Creates, Follows, Race;
    var e1 := Created(cfg, raw1, now1, id1);
    var before := Serving(0, raw1, None, now1, id1, true) + [Publish(1)];
    RunCreate(cfg, raw1, now1, id1);
    RunRacing(cfg, before, rawA, nowA, idA, rawB, nowB, idB);
    CreatedIsGood(cfg, raw1, now1, id1);
    RaceEnds(cfg, e1, rawA, nowA, idA, rawB, nowB, idB);
    FollowingIsGood(cfg, e1, rawA, nowA, idA);
    FollowingIsGood(cfg, e1, rawB, nowB, idB);
    TwoNamingOneFork([e1, Following(cfg, e1, rawA, nowA, idA), Following(cfg, e1, rawB, nowB, idB)]);
  }

  lemma {:induction false} RaceEnds(cfg: Config, e1: Event, rawA: Request, nowA: int, idA: string, rawB: Request,
                                    nowB: int, idB: string)
    requires WellFormed(e1) && e1.docVersion == 1 && e1.eventId != idA && e1.eventId != idB && idA != idB
    requires Follows(cfg, e1, rawA, nowA, idA) && Follows(cfg, e1, rawB, nowB, idB)
    ensures Race(cfg, AfterCreate(cfg, e1, 1), rawA, nowA, idA, rawB, nowB, idB).log ==
      [e1, Following(cfg, e1, rawA, nowA, idA), Following(cfg, e1, rawB, nowB, idB)]
  {
    hide CheckChain, Prepare, Normalized, RowOf, LookupStep, CheckStep, AppendStep, IsFresh, IsLatest, WellFormed;
    var s, eA, eB := AfterCreate(cfg, e1, 1), Following(cfg, e1, rawA, nowA, idA), Following(cfg, e1, rawB, nowB, idB);
    FirstIsFound(cfg, e1, idA);
    FirstIsFound(cfg, e1, idB);
    DocIdIsThere(e1);
    RaceLookups(s, rawA, rawB);
    FollowUpIsChecked(cfg, [e1], 1, e1, rawA, nowA, idA);
    FollowUpIsChecked(cfg, [e1], 1, e1, rawB, nowB, idB);
    FollowingIsGood(cfg, e1, rawA, nowA, idA);
    RaceChecks(cfg, s, Normalized(rawA), nowA, idA, eA, Normalized(rawB), nowB, idB, eB);
    RaceAppends(s, eA, eB);
  }

  lemma {:induction false} DocIdIsThere(e: Event)
    requires WellFormed(e)
    ensures e.req.docId != ""
  {
  }

  // The three rounds of the race: both requests move on together.
  lemma {:induction false} RaceLookups(s: State, rawA: Request, rawB: Request)
    requires s.inFlight == map[] && Normalized(rawA).docId == Normalized(rawB).docId != ""
    requires IsLatest(s.table, Normalized(rawA).docId, Some(0))
    ensures LookupStep(LookupStep(s, 1, rawA, Some(0)), 2, rawB, Some(0)) ==
      s.(inFlight := map[1 := LookedUp(Normalized(rawA), Some(0)), 2 := LookedUp(Normalized(rawB), Some(0))])
  {
    hide Normalized, IsLatest;
  }

  lemma {:induction false} RaceChecks(cfg: Config, s: State, reqA: Request, nowA: int, idA: string, eA: Event,
                                      reqB: Request, nowB: int, idB: string, eB: Event)
    requires s.inFlight == map[] && IsFresh(s, idA) && IsFresh(s, idB) && idA != idB && eA.eventId == idA
    requires CheckChain(cfg, s.log, s.published, reqA, Some(0), nowA, idA) == Ok(eA)
    requires CheckChain(cfg, s.log, s.published, reqB, Some(0), nowB, idB) == Ok(eB)
    ensures var looked := s.(inFlight := map[1 := LookedUp(reqA, Some(0)), 2 := LookedUp(reqB, Some(0))]);
      CheckStep(cfg, CheckStep(cfg, looked, 1, nowA, idA), 2, nowB, idB) ==
      s.(inFlight := map[1 := Ready(eA), 2 := Ready(eB)])
  {
    hide CheckChain, CheckStep, IsTrimmed;
    var looked := s.(inFlight := map[1 := LookedUp(reqA, Some(0)), 2 := LookedUp(reqB, Some(0))]);
    CheckedIsReady(cfg, looked, 1, nowA, idA, eA);
    var half := looked.(inFlight := looked.inFlight[1 := Ready(eA)]);
    CheckedIsReady(cfg, half, 2, nowB, idB, eB);
    assert half.inFlight[2 := Ready(eB)] == map[1 := Ready(eA), 2 := Ready(eB)];
  }

  lemma {:induction false} RaceAppends(s: State, eA: Event, eB: Event)
    ensures AppendStep(AppendStep(s.(inFlight := map[1 := Ready(eA), 2 := Ready(eB)]), 1), 2).log == s.log + [eA, eB]
  {
  }

  lemma {:induction false} TwoNamingOneFork(log: seq<Event>)
    requires |log| == 3 && log[0].eventId != "" && IsPred(log, 0, log[1]) && IsPred(log, 0, log[2])
    requires !IsCreate(log[1].req.eventType) && !IsCreate(log[2].req.eventType)
    ensures IsForked(log)
  {
    var h := H.Items(log, [0, 1, 2]);
    V.TwoNamesFork(h, 1, 2, log[0].eventId);
    assert S.LastOf(log, 2, log[0].req.docId) == Some(1);
    assert !S.InChain(log, 2, log[0].req.docId);
  }

  // ----- a lost row -----

  // Two CREATEs of one document.
  ghost predicate HasTwoRoots(log: seq<Event>) {
    && |log| == 2 && log[0].req.docId == log[1].req.docId
    && IsCreate(log[0].req.eventType) && IsCreate(log[1].req.eventType)
    && !S.Linear(log, log[0].req.docId) && !V.OneRoot(H.Items(log, [0, 1]))
  }

  // Two CREATEs of one document, one after the other, the row of the first lost:
  // both are appended, so serving requests one at a time is not enough.
  lemma {:induction false} LostRowForks(cfg: Config, raw1: Request, now1: int, id1: string, raw2: Request, now2: int,
                                        id2: string)
    requires Creates(cfg, raw1, now1, id1) && Creates(cfg, raw2, now2, id2)
    requires id1 != id2 && Normalized(raw1).docId == Normalized(raw2).docId
    ensures var actions := Serving(0, raw1, None, now1, id1, false) + Serving(1, raw2, None, now2, id2, true);
      HasTwoRoots(Run(cfg, actions).log)
  {
    hide Creates, Serve, CheckChain, Prepare, Normalized, RowOf;
    var first := Serving(0, raw1, None, now1, id1, false);
    var e1, e2 := Created(cfg, raw1, now1, id1), Created(cfg, raw2, now2, id2);
    CreatedIsGood(cfg, raw1, now1, id1);
    CreatedIsGood(cfg, raw2, now2, id2);
    IdIsFresh(cfg, INITIAL, raw1, now1, id1);
    RunServing(cfg, [], 0, raw1, None, now1, id1, false);
    assert [] + first == first;
    ServeCreate(cfg, INITIAL, 0, raw1, now1, id1, false);
    assert [] + [e1] == [e1];
    IdIsFresh(cfg, State([e1], 0, map[], map[]), raw2, now2, id2);
    RunServing(cfg, first, 1, raw2, None, now2, id2, true);
    ServeCreate(cfg, State([e1], 0, map[], map[]), 1, raw2, now2, id2, true);
    assert [e1] + [e2] == [e1, e2];
    TwoRoots([e1, e2]);
  }

  lemma {:induction false} IdIsFresh(cfg: Config, s: State, raw: Request, now: int, eventId: string)
    requires Creates(cfg, raw, now, eventId) && s.inFlight == map[]
    requires forall i | 0 <= i < |s.log| :: s.log[i].eventId != eventId
    ensures IsFresh(s, eventId)
  {
  }

  lemma {:induction false} TwoRoots(log: seq<Event>)
    requires |log| == 2 && log[0].req.docId == log[1].req.docId && WellFormed(log[0]) && WellFormed(log[1])
    requires IsCreate(log[0].req.eventType) && IsCreate(log[1].req.eventType)
    ensures HasTwoRoots(log)
  {
    var h := H.Items(log, [0, 1]);
    assert V.IsRoot(h[0]) && V.IsRoot(h[1]);
    assert S.LastOf(log, 1, log[0].req.docId) == Some(0);
    assert !S.InChain(log, 1, log[0].req.docId);
  }

  // ----- ten unpublished events -----

  // A CREATE and the event it becomes.
  datatype Creation = Creation(raw: Request, now: int, eventId: string, event: Event)

  predicate IsCreation(cfg: Config, c: Creation) {
    Creates(cfg, c.raw, c.now, c.eventId) && c.event == Created(cfg, c.raw, c.now, c.eventId)
  }

  predicate Differ(c: Creation, d: Creation) {
    c.eventId != d.eventId && Normalized(c.raw).docId != Normalized(d.raw).docId
  }

  // CREATEs of different documents.
  predicate AreCreations(cfg: Config, cs: seq<Creation>) {
    && (forall i | 0 <= i < |cs| :: IsCreation(cfg, cs[i]))
    && (forall i, j | 0 <= i < j < |cs| :: Differ(cs[i], cs[j]))
  }

  // One is served after the other; a checkpoint comes after the first.
  function Filling(cs: seq<Creation>): seq<Action> {
    if cs == [] then []
    else
      var n, c := |cs| - 1, cs[|cs| - 1];
      Filling(cs[..n]) + Serving(n, c.raw, None, c.now, c.eventId, true) + if n == 0 then [Publish(1)] else []
  }

  function EventsOf(cs: seq<Creation>): (log: seq<Event>)
    ensures |log| == |cs| && forall i | 0 <= i < |cs| :: log[i] == cs[i].event
  {
    if cs == [] then [] else EventsOf(cs[..|cs| - 1]) + [cs[|cs| - 1].event]
  }

  ghost function Filled(cfg: Config, cs: seq<Creation>): State {
    State(EventsOf(cs), if cs == [] then 0 else 1, A.AllRows(cfg, EventsOf(cs)), map[])
  }

  // Another document is new to a log with all its rows.
  ghost predicate IsNew(cfg: Config, log: seq<Event>, c: Creation) {
    forall i | 0 <= i < |log| ::
      WellFormed(log[i]) && log[i].eventId != c.eventId && log[i].req.docId != Normalized(c.raw).docId
  }

  lemma {:induction false} OthersAreNew(cfg: Config, cs: seq<Creation>, c: Creation)
    requires AreCreations(cfg, cs + [c])
    ensures AreCreations(cfg, cs) && IsCreation(cfg, c) && IsNew(cfg, EventsOf(cs), c)
  {
    assert (cs + [c])[|cs|] == c;
    hide Creates, Normalized, WellFormed;
    forall i | 0 <= i < |cs| ensures IsCreation(cfg, cs[i]) && Differ(cs[i], c) {
      assert (cs + [c])[i] == cs[i] && (cs + [c])[|cs|] == c;
    }
    forall i, j | 0 <= i < j < |cs| ensures Differ(cs[i], cs[j]) {
      assert Differ((cs + [c])[i], (cs + [c])[j]);
    }
    forall i | 0 <= i < |cs|
      ensures var e := EventsOf(cs)[i];
        WellFormed(e) && e.eventId == cs[i].eventId && e.req.docId == Normalized(cs[i].raw).docId
    {
      CreatedIsGood(cfg, cs[i].raw, cs[i].now, cs[i].eventId);
    }
  }

  lemma {:induction false} ServeNew(cfg: Config, log: seq<Event>, published: nat, c: Creation)
    requires IsCreation(cfg, c) && IsNew(cfg, log, c)
    ensures Serve(cfg, State(log, published, A.AllRows(cfg, log), map[]), |log|, c.raw, None, c.now, c.eventId, true) ==
      State(log + [c.event], published, A.AllRows(cfg, log + [c.event]), map[])
  {
    hide Creates, Serve, Normalized, Prepare, RowOf, WellFormed;
    var s, e := State(log, published, A.AllRows(cfg, log), map[]), c.event;
    IdIsFresh(cfg, s, c.raw, c.now, c.eventId);
    CreatedIsGood(cfg, c.raw, c.now, c.eventId);
    RowEventId(cfg, e);
    forall k | k in s.table ensures s.table[k].docId != Normalized(c.raw).docId && s.table[k].eventId != c.eventId {
      RowFields(cfg, log[k]);
    }
    ServeCreate(cfg, s, |log|, c.raw, c.now, c.eventId, true);
    OneMoreRow(cfg, log, e);
  }

  lemma {:induction false} OneMoreRow(cfg: Config, log: seq<Event>, e: Event)
    ensures A.AllRows(cfg, log)[|log| := RowOf(cfg, e)] == A.AllRows(cfg, log + [e])
  {
    hide RowOf;
  }

  lemma {:induction false} RunFilling(cfg: Config, cs: seq<Creation>)
    requires AreCreations(cfg, cs)
    ensures Run(cfg, Filling(cs)) == Filled(cfg, cs)
    decreases |cs|
  {
    hide AreCreations, IsCreation, IsNew, EventsOf, Filling, Filled, Run;
    if cs == [] {
      NothingFilled(cfg);
    } else {
      var init, c := cs[..|cs| - 1], cs[|cs| - 1];
      assert init + [c] == cs;
      OthersAreNew(cfg, init, c);
      RunFilling(cfg, init);
      FillOneMore(cfg, init, c);
    }
  }

  lemma {:induction false} FillingThen(cs: seq<Creation>, c: Creation)
    ensures Filling(cs + [c]) ==
      Filling(cs) + Serving(|cs|, c.raw, None, c.now, c.eventId, true) + if cs == [] then [Publish(1)] else []
    ensures EventsOf(cs + [c]) == EventsOf(cs) + [c.event]
  {
    hide Serving;
    assert (cs + [c])[..|cs|] == cs;
  }

  lemma {:induction false} FillOneMore(cfg: Config, cs: seq<Creation>, c: Creation)
    requires IsCreation(cfg, c) && IsNew(cfg, EventsOf(cs), c) && Run(cfg, Filling(cs)) == Filled(cfg, cs)
    ensures Run(cfg, Filling(cs + [c])) == Filled(cfg, cs + [c])
  {
    hide IsCreation, IsNew, Serve, Serving, Step, A.AllRows, RowOf, Run, Filling;
    FillingThen(cs, c);
    var served := Filling(cs) + Serving(|cs|, c.raw, None, c.now, c.eventId, true);
    ServeNew(cfg, EventsOf(cs), if cs == [] then 0 else 1, c);
    RunServing(cfg, Filling(cs), |cs|, c.raw, None, c.now, c.eventId, true);
    if cs == [] {
      RunThen(cfg, served, Publish(1));
      PublishFirst(cfg, Run(cfg, served));
    } else {
      assert served + [] == served;
    }
  }

  lemma {:induction false} NothingFilled(cfg: Config)
    ensures Run(cfg, Filling([])) == Filled(cfg, [])
  {
    assert A.AllRows(cfg, []) == map[];
  }

  lemma {:induction false} PublishFirst(cfg: Config, s: State)
    requires s.published == 0 && |s.log| == 1
    ensures Step(cfg, s, Publish(1)) == s.(published := 1)
  {
  }

  // The search page without filters.
  const EVERYTHING := Q.EntriesQuery("", "", None, None, Q.PAGE_SIZE, 0, true)

  lemma {:induction false} EverythingIsSelected(row: Row)
    ensures Q.Selects(EVERYTHING.(limit := 0, offset := 0).ToSearchParams(), row)
    ensures EVERYTHING.Asks(row)
  {
  }

  lemma {:induction false} EverythingMatches(cfg: Config, log: seq<Event>)
    ensures var matches := Q.Matches(A.AllRows(cfg, log), EVERYTHING);
      |matches| == |log| && forall i | 0 <= i < |log| :: matches[i] == |log| - 1 - i
  {
    hide RowOf, Q.Selects, Q.Select, Q.IsDesc;
    var p := EVERYTHING.(limit := 0, offset := 0).ToSearchParams();
    var table, all := A.AllRows(cfg, log), Counting(|log|);
    Q.OrderIsRead(p.order);
    forall row ensures Q.Selects(p, row) {
      EverythingIsSelected(row);
    }
    Q.SelectIsExact(table, Q.Wanted(p));
    Q.AscendingIsUnique(Q.Select(table, Q.Wanted(p)), all);
  }

  function Counting(n: nat): (all: seq<nat>)
    ensures |all| == n && (forall i | 0 <= i < n :: all[i] == i) && forall k: nat :: k in all <==> k < n
  {
    if n == 0 then [] else Counting(n - 1) + [n - 1]
  }

  // After eleven CREATEs and a checkpoint over the first of them, browsing without
  // filters shows nothing, although that event is published.
  lemma {:induction false} TenUnpublishedHideAll(cfg: Config, cs: seq<Creation>)
    requires AreCreations(cfg, cs) && |cs| > Q.PAGE_SIZE
    ensures var s := Run(cfg, Filling(cs));
      && s.published == 1 && R.IsHit(s, EVERYTHING, 0)
      && Q.BrowsePages(Q.Matches(s.table, EVERYTHING), R.Reader(s), 1) == []
  {
    hide AreCreations, Filling, Run, Q.Matches, Q.BrowsePages, A.AllRows, Q.Selects, R.Reader, RowOf;
    RunFilling(cfg, cs);
    EverythingMatches(cfg, EventsOf(cs));
    R.EveryRunIsBrowsed(cfg, Filling(cs), EVERYTHING);
    EverythingIsSelected(Filled(cfg, cs).table[0]);
  }

  // After one CREATE without a checkpoint, has_more is set although no match lies
  // beyond the page.
  lemma {:induction false} HasMoreOnLastPage(cfg: Config, raw: Request, now: int, eventId: string)
    requires Creates(cfg, raw, now, eventId)
    ensures var s := Run(cfg, Serving(0, raw, None, now, eventId, true));
      var matches := Q.Matches(s.table, EVERYTHING);
      var page := Q.Page(matches, EVERYTHING.limit, EVERYTHING.offset);
      page == matches == [0] && EVERYTHING.offset + |Q.Readable(R.Reader(s), page)| < |matches|
  {
    hide Creates, RowOf, Serving;
    RunCreate(cfg, raw, now, eventId);
    var e := Created(cfg, raw, now, eventId);
    var s := AfterCreate(cfg, e, 0);
    assert A.AllRows(cfg, [e]) == s.table;
    EverythingMatches(cfg, [e]);
    R.ReaderIsExact(s);
    Q.ReadsNothing(R.Reader(s), [0]);
  }

  // ----- requests like these exist -----

  function Zeros(n: nat): (s: string)
    ensures |s| == n && AllLowerHex(s)
  {
    if n == 0 then "" else Zeros(n - 1) + "0"
  }

  // With the switch for the time of recording on or off.
  function SampleConfig(issuedAtAsRecordedAt: bool): Config {
    Config(_ => true, _ => seq(32, _ => 0), _ => [], issuedAtAsRecordedAt)
  }

  function Sample(eventType: string, docId: string, prev: Option<string>): Request {
    Request(EVENT_SCHEMA, eventType, docId, prev, None, Some(PayloadHash("sha-256", P.Stored(Zeros(64)))),
            "i", "", Some(0), "t", "", "")
  }

  lemma {:induction false} SampleIsNormal(eventType: string, docId: string, prev: Option<string>)
    requires (eventType == "CREATE" || IsFollowUp(eventType)) && IsTrimmed(GoSpace, docId)
    requires prev.Some? ==> IsTrimmed(GoSpace, prev.value)
    ensures Normalized(Sample(eventType, docId, prev)) == Sample(eventType, docId, prev)
  {
    hide Normalized, HasNoLower;
    TypeIsNormal(eventType);
    assert InNormalForm(Sample(eventType, docId, prev));
    NormalIsFixed(Sample(eventType, docId, prev));
  }

  lemma {:induction false} TypeIsNormal(eventType: string)
    requires eventType == "CREATE" || IsFollowUp(eventType)
    ensures IsTrimmed(GoSpace, eventType) && HasNoLower(eventType)
  {
  }

  lemma {:induction false} SampleIsPrepared(mode: bool, eventType: string, docId: string, prev: Option<string>,
                                            version: int, eventId: string)
    requires if prev.None? then eventType == "CREATE"
             else IsFollowUp(eventType) && prev.value != "" && IsTrimmed(GoSpace, prev.value)
    requires docId != "" && version >= 1
    ensures Prepare(SampleConfig(mode), Sample(eventType, docId, prev), 1, version, eventId).Ok?
  {
    hide P.ParsePayloadHashValue, Trim;
    StoredIsGood(Zeros(64));
    if prev.Some? {
      TrimFixes(GoSpace, prev.value);
    }
  }

  // The scenarios above are about something: for any two different ids, and any
  // document, there are a CREATE and a follow-up of each type of this kind.
  lemma {:induction false} SamplesExist(mode: bool, eventType: string, docId: string, id1: string, id2: string)
    requires IsFollowUp(eventType) && docId != "" && IsTrimmed(GoSpace, docId)
    requires id1 != "" && IsTrimmed(GoSpace, id1) && id2 != "" && IsTrimmed(GoSpace, id2)
    ensures var create, update := Sample("CREATE", docId, None), Sample(eventType, docId, Some(id1));
      && Creates(SampleConfig(mode), create, 1, id1)
      && Follows(SampleConfig(mode), Created(SampleConfig(mode), create, 1, id1), update, 1, id2)
  {
    hide Normalized, Prepare, SampleConfig;
    var cfg := SampleConfig(mode);
    SampleIsNormal("CREATE", docId, None);
    SampleIsPrepared(mode, "CREATE", docId, None, 1, id1);
    CreatedIsGood(cfg, Sample("CREATE", docId, None), 1, id1);
    SampleIsNormal(eventType, docId, Some(id1));
    SampleIsPrepared(mode, eventType, docId, Some(id1), 2, id2);
  }

  function Name(n: nat): (s: string)
    ensures |s| == n + 1 && (forall i | 0 <= i <= n :: s[i] == 'x') && IsTrimmed(GoSpace, s)
  {
    if n == 0 then "x" else Name(n - 1) + "x"
  }

  function SampleCreation(name: string): Creation
    requires name != "" && IsTrimmed(GoSpace, name)
  {
    SamplesExist(false, "UPDATE", name, name, name);
    var raw := Sample("CREATE", name, None);
    Creation(raw, 1, name, Created(SampleConfig(false), raw, 1, name))
  }

  function SampleCreations(n: nat): (cs: seq<Creation>)
    ensures |cs| == n && forall i | 0 <= i < n :: cs[i] == SampleCreation(Name(i))
  {
    if n == 0 then [] else SampleCreations(n - 1) + [SampleCreation(Name(n - 1))]
  }

  // And there are as many different ones as one likes.
  lemma {:induction false} SampleCreationsDiffer(n: nat)
    ensures AreCreations(SampleConfig(false), SampleCreations(n))
  {
    hide IsCreation, Normalized, SampleCreation;
    var cs := SampleCreations(n);
    forall i | 0 <= i < n
      ensures IsCreation(SampleConfig(false), cs[i]) && Normalized(cs[i].raw).docId == cs[i].eventId == Name(i)
    {
      SampleIsCreation(Name(i));
    }
  }

  lemma {:induction false} SampleIsCreation(name: string)
    requires name != "" && IsTrimmed(GoSpace, name)
    ensures var c := SampleCreation(name);
      IsCreation(SampleConfig(false), c) && Normalized(c.raw).docId == c.eventId == name
  {
    hide Creates, Prepare, Normalized;
    SamplesExist(false, "UPDATE", name, name, name);
    SampleIsNormal("CREATE", name, None);
  }
}
