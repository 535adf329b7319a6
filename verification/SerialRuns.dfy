// Runs of the notarization server in which the requests for one document are
// served one at a time and their index inserts succeed, while anything may happen
// to the other documents: there that document has one linear history.
module SerialRuns {
  import opened Wrappers
  import opened Text
  import opened NotaryEvent
  import opened NotaryServer

  // Where the last of the first n entries for a document stands.
  function LastOf(log: seq<Event>, n: nat, docId: string): (at: Option<nat>)
    requires n <= |log|
    ensures at.Some? ==> at.value < n && log[at.value].req.docId == docId
    ensures forall j | (if at.Some? then at.value + 1 else 0) <= j < n :: log[j].req.docId != docId
  {
    if n == 0 then None
    else if log[n - 1].req.docId == docId then Some(n - 1)
    else LastOf(log, n - 1, docId)
  }

  // How many of the first n entries are for a document.
  function CountOf(log: seq<Event>, n: nat, docId: string): nat
    requires n <= |log|
  {
    if n == 0 then 0
    else CountOf(log, n - 1, docId) + if log[n - 1].req.docId == docId then 1 else 0
  }

  // e continues the history of its document as it stands after n entries.
  predicate Continues(log: seq<Event>, n: nat, e: Event)
    requires n <= |log|
  {
    var last := LastOf(log, n, e.req.docId);
    if last.None? then IsCreate(e.req.eventType) && e.docVersion == 1 && IsAbsent(e.req.prevEventId)
    else !IsCreate(e.req.eventType) && IsPred(log, last.value, e)
  }

  // The document has one chain: each of its entries continues the one before.
  ghost predicate Linear(log: seq<Event>, docId: string) {
    forall i | 0 <= i < |log| :: InChain(log, i, docId)
  }

  predicate InChain(log: seq<Event>, i: nat, docId: string)
    requires i < |log|
  {
    log[i].req.docId == docId ==> Continues(log, i, log[i])
  }

  // The document a request in flight is for.
  function DocOf(p: Phase): string {
    match p
    case LookedUp(req, _) => req.docId
    case Ready(e) => e.req.docId
    case Appended(_, e) => e.req.docId
  }

  predicate IsFlying(s: State, id: nat, docId: string) {
    id in s.inFlight && DocOf(s.inFlight[id]) == docId
  }

  // A request for the document starts only when none is in flight, and an entry of
  // it in the log is always indexed. Other documents are free, and checkpoints
  // come whenever they come.
  predicate IsSerial(s: State, a: Action, docId: string) {
    match a
    case Lookup(_, raw, _) => Normalized(raw).docId == docId ==> forall id | id in s.inFlight :: !IsFlying(s, id, docId)
    case Insert(id, dbWorks) => IsFlying(s, id, docId) ==> dbWorks
    case Abandon(id) => IsFlying(s, id, docId) ==> !s.inFlight[id].Appended?
    case _ => true
  }

  ghost predicate SerialRun(cfg: Config, actions: seq<Action>, docId: string)
    decreases |actions|
  {
    actions == [] ||
    var before := actions[..|actions| - 1];
    SerialRun(cfg, before, docId) && IsSerial(Run(cfg, before), actions[|actions| - 1], docId)
  }

  ghost predicate SerialPhase(log: seq<Event>, p: Phase) {
    match p
    case LookedUp(req, latest) => latest == LastOf(log, |log|, req.docId)
    case Ready(e) => Continues(log, |log|, e)
    case Appended(index, e) => index < |log| && log[index] == e
  }

  // What such runs keep besides Inv.
  ghost predicate OneAtATime(s: State, docId: string) {
    && Linear(s.log, docId)
    && (forall a, b | IsFlying(s, a, docId) && IsFlying(s, b, docId) :: a == b)
    && (forall id | IsFlying(s, id, docId) :: SerialPhase(s.log, s.inFlight[id]))
    && (forall i | 0 <= i < |s.log| :: IsIndexed(s, i, docId))
  }

  // Every entry of the document has its row, or its request is about to insert it.
  ghost predicate IsIndexed(s: State, i: nat, docId: string)
    requires i < |s.log|
  {
    s.log[i].req.docId == docId ==> i in s.table || exists id :: AwaitsInsert(s, id, i, docId)
  }

  predicate AwaitsInsert(s: State, id: nat, i: nat, docId: string) {
    IsFlying(s, id, docId) && s.inFlight[id].Appended? && s.inFlight[id].index == i
  }

  ghost predicate FullyIndexed(s: State, docId: string) {
    forall i | 0 <= i < |s.log| && s.log[i].req.docId == docId :: i in s.table
  }

  // With no such request about to insert, the index knows the whole document.
  lemma {:induction false} NothingAwaits(s: State, docId: string)
    requires OneAtATime(s, docId) && forall id | IsFlying(s, id, docId) :: !s.inFlight[id].Appended?
    ensures FullyIndexed(s, docId)
  {
    forall i | 0 <= i < |s.log| && s.log[i].req.docId == docId ensures i in s.table {
      assert IsIndexed(s, i, docId);
    }
  }

  // Then its answer is the last entry of the document.
  lemma {:induction false} LookupFindsLast(cfg: Config, s: State, docId: string, latest: Option<nat>)
    requires GoodLog(s.log) && Mirrors(cfg, s.log, s.table) && IsLatest(s.table, docId, latest)
    requires FullyIndexed(s, docId)
    ensures latest == LastOf(s.log, |s.log|, docId)
  {
    forall j | 0 <= j < |s.log| && s.log[j].req.docId == docId ensures latest.Some? && j <= latest.value {
      RowNames(cfg, s.log, s.table, j, docId);
    }
    if latest.Some? {
      assert Names(s.table, latest.value, docId);
      RowNames(cfg, s.log, s.table, latest.value, docId);
    }
    LastOfIsUnique(s.log, docId, latest);
  }

  lemma {:induction false} LastOfIsUnique(log: seq<Event>, docId: string, at: Option<nat>)
    requires at.Some? ==> at.value < |log| && log[at.value].req.docId == docId
    requires forall j | 0 <= j < |log| && log[j].req.docId == docId :: at.Some? && j <= at.value
    ensures at == LastOf(log, |log|, docId)
  {
  }

  // Moving a request to a phase before its append: one for the document must be in
  // order and the only one.
  lemma {:induction false} PutIsLinear(s: State, id: nat, p: Phase, docId: string)
    requires OneAtATime(s, docId) && !p.Appended? && (IsFlying(s, id, docId) ==> !s.inFlight[id].Appended?)
    requires DocOf(p) == docId ==> SerialPhase(s.log, p) && forall b | IsFlying(s, b, docId) :: b == id
    ensures OneAtATime(s.(inFlight := s.inFlight[id := p]), docId)
  {
    var s' := s.(inFlight := s.inFlight[id := p]);
    forall b | IsFlying(s', b, docId) && b != id ensures IsFlying(s, b, docId) {
    }
    forall i | 0 <= i < |s'.log| ensures IsIndexed(s', i, docId) {
      StillIndexed(s, s', i, id, docId);
    }
  }

  // Changing one request does not take the row of an entry away, unless that
  // request is the one to insert it.
  lemma {:induction false} StillIndexed(s: State, s': State, i: nat, id: nat, docId: string)
    requires i < |s.log| && i < |s'.log| && s.log[i] == s'.log[i] && IsIndexed(s, i, docId)
    requires forall k | k in s.table :: k in s'.table
    requires forall b | b in s.inFlight && b != id :: b in s'.inFlight && s'.inFlight[b] == s.inFlight[b]
    requires AwaitsInsert(s, id, i, docId) ==> i in s'.table
    ensures IsIndexed(s', i, docId)
  {
    if s.log[i].req.docId == docId && i !in s.table {
      var b :| AwaitsInsert(s, b, i, docId);
      assert b != id ==> AwaitsInsert(s', b, i, docId);
    }
  }

  lemma {:induction false} DropIsLinear(s: State, id: nat, docId: string)
    requires OneAtATime(s, docId) && (IsFlying(s, id, docId) ==> !s.inFlight[id].Appended?)
    ensures OneAtATime(Drop(s, id), docId)
  {
    var s' := Drop(s, id);
    forall b | IsFlying(s', b, docId) ensures IsFlying(s, b, docId) {
    }
    forall i | 0 <= i < |s'.log| ensures IsIndexed(s', i, docId) {
      assert IsIndexed(s, i, docId);
      StillIndexed(s, s', i, id, docId);
    }
  }

  lemma {:induction false} LookupIsLinear(cfg: Config, s: State, id: nat, raw: Request, latest: Option<nat>,
                                          docId: string)
    requires Inv(cfg, s) && OneAtATime(s, docId) && IsSerial(s, Lookup(id, raw, latest), docId)
    ensures OneAtATime(LookupStep(s, id, raw, latest), docId)
  {
    var req := Normalized(raw);
    if id !in s.inFlight && IsLatest(s.table, req.docId, latest) {
      if req.docId == docId {
        NothingAwaits(s, docId);
        LookupFindsLast(cfg, s, docId, latest);
      }
      PutIsLinear(s, id, LookedUp(req, latest), docId);
    }
  }

  lemma {:induction false} CheckIsLinear(cfg: Config, s: State, id: nat, now: int, eventId: string, docId: string)
    requires Inv(cfg, s) && OneAtATime(s, docId)
    ensures OneAtATime(CheckStep(cfg, s, id, now, eventId), docId)
  {
    if id in s.inFlight && s.inFlight[id].LookedUp? && IsFresh(s, eventId) {
      var LookedUp(req, latest) := s.inFlight[id];
      assert GoodPhase(s.log, s.table, s.inFlight[id]);
      CheckedIsGood(cfg, s, req, latest, now, eventId);
      var event := CheckChain(cfg, s.log, s.published, req, latest, now, eventId);
      if event.Ok? {
        assert IsFlying(s, id, docId) <==> event.value.req.docId == docId;
        PutIsLinear(s, id, Ready(event.value), docId);
      } else {
        DropIsLinear(s, id, docId);
      }
    }
  }

  // ----- appending -----

  lemma {:induction false} LastOfLater(log: seq<Event>, x: Event, n: nat, docId: string)
    requires n <= |log|
    ensures LastOf(log + [x], n, docId) == LastOf(log, n, docId)
    ensures CountOf(log + [x], n, docId) == CountOf(log, n, docId)
  {
    if n > 0 {
      LastOfLater(log, x, n - 1, docId);
    }
  }

  lemma {:induction false} ContinuesLater(log: seq<Event>, x: Event, n: nat, e: Event)
    requires n <= |log|
    ensures Continues(log + [x], n, e) == Continues(log, n, e)
  {
    LastOfLater(log, x, n, e.req.docId);
  }

  lemma {:induction false} AppendKeepsLinear(log: seq<Event>, x: Event, docId: string)
    requires Linear(log, docId) && (x.req.docId == docId ==> Continues(log, |log|, x))
    ensures Linear(log + [x], docId)
  {
    var log' := log + [x];
    forall i | 0 <= i < |log'| ensures InChain(log', i, docId) {
      assert i < |log| ==> InChain(log, i, docId);
      ContinuesLater(log, x, i, log'[i]);
    }
  }

  // An entry for another document changes nothing for a request.
  lemma {:induction false} PhaseAfterOther(log: seq<Event>, x: Event, p: Phase)
    requires SerialPhase(log, p) && (p.Appended? || x.req.docId != DocOf(p))
    ensures SerialPhase(log + [x], p)
  {
    if p.LookedUp? {
      LastOfLater(log, x, |log|, p.req.docId);
    } else if p.Ready? {
      LastOfLater(log, x, |log|, p.event.req.docId);
    }
  }

  lemma {:induction false} AppendIsLinear(s: State, id: nat, docId: string)
    requires OneAtATime(s, docId)
    ensures OneAtATime(AppendStep(s, id), docId)
  {
    if id in s.inFlight && s.inFlight[id].Ready? {
      var s', x := AppendStep(s, id), s.inFlight[id].event;
      assert IsFlying(s, id, docId) ==> SerialPhase(s.log, s.inFlight[id]);
      AppendKeepsLinear(s.log, x, docId);
      forall b | IsFlying(s', b, docId) ensures IsFlying(s, b, docId) && SerialPhase(s'.log, s'.inFlight[b]) {
        assert IsFlying(s, b, docId);
        if b != id {
          PhaseAfterOther(s.log, x, s.inFlight[b]);
        }
      }
      forall i | 0 <= i < |s'.log| ensures IsIndexed(s', i, docId) {
        if i < |s.log| {
          assert IsIndexed(s, i, docId);
          StillIndexed(s, s', i, id, docId);
        } else {
          assert x.req.docId == docId ==> AwaitsInsert(s', id, i, docId);
        }
      }
    }
  }

  lemma {:induction false} InsertIsLinear(cfg: Config, s: State, id: nat, dbWorks: bool, docId: string)
    requires Inv(cfg, s) && OneAtATime(s, docId) && IsSerial(s, Insert(id, dbWorks), docId)
    ensures OneAtATime(InsertStep(cfg, s, id, dbWorks), docId)
  {
    if id in s.inFlight && s.inFlight[id].Appended? {
      var s' := InsertStep(cfg, s, id, dbWorks);
      InsertNeverConflicts(cfg, s, id);
      forall b | IsFlying(s', b, docId) ensures IsFlying(s, b, docId) {
      }
      forall i | 0 <= i < |s'.log| ensures IsIndexed(s', i, docId) {
        assert IsIndexed(s, i, docId);
        StillIndexed(s, s', i, id, docId);
      }
    }
  }

  lemma {:induction false} PublishIsLinear(s: State, size: nat, docId: string)
    requires OneAtATime(s, docId)
    ensures OneAtATime(PublishStep(s, size), docId)
  {
    var s' := PublishStep(s, size);
    forall b | IsFlying(s', b, docId) ensures IsFlying(s, b, docId) {
    }
    forall i | 0 <= i < |s'.log| ensures IsIndexed(s', i, docId) {
      assert IsIndexed(s, i, docId);
      if s.log[i].req.docId == docId && i !in s.table {
        var b :| AwaitsInsert(s, b, i, docId);
        assert AwaitsInsert(s', b, i, docId);
      }
    }
  }

  lemma {:induction false} SerialRunKeepsInv(cfg: Config, actions: seq<Action>, docId: string)
    requires SerialRun(cfg, actions, docId)
    ensures OneAtATime(Run(cfg, actions), docId)
    decreases |actions|
  {
    if actions != [] {
      var before := actions[..|actions| - 1];
      var s := Run(cfg, before);
      SerialRunKeepsInv(cfg, before, docId);
      RunKeepsInv(cfg, before);
      match actions[|actions| - 1]
      case Lookup(id, raw, latest) => LookupIsLinear(cfg, s, id, raw, latest, docId);
      case Check(id, now, eventId) => CheckIsLinear(cfg, s, id, now, eventId, docId);
      case Append(id) => AppendIsLinear(s, id, docId);
      case Insert(id, dbWorks) => InsertIsLinear(cfg, s, id, dbWorks, docId);
      case Abandon(id) => DropIsLinear(s, id, docId);
      case Publish(size) => PublishIsLinear(s, size, docId);
    }
  }

  // In every run that serves the requests for a document one at a time, whatever
  // the other documents and the checkpoints do, its entries form one chain in log
  // order: the first is its CREATE event, each later one names the one before it,
  // and the versions are 1, 2, 3, ...
  lemma {:induction false} SerialRunsAreLinear(cfg: Config, actions: seq<Action>, docId: string, i: nat)
    requires SerialRun(cfg, actions, docId)
    requires i < |Run(cfg, actions).log| && Run(cfg, actions).log[i].req.docId == docId
    ensures var log := Run(cfg, actions).log;
      Continues(log, i, log[i]) && log[i].docVersion == CountOf(log, i + 1, docId)
  {
    SerialRunKeepsInv(cfg, actions, docId);
    VersionIsRank(Run(cfg, actions).log, docId, i);
  }

  lemma {:induction false} VersionIsRank(log: seq<Event>, docId: string, i: nat)
    requires Linear(log, docId) && i < |log| && log[i].req.docId == docId
    ensures Continues(log, i, log[i]) && log[i].docVersion == CountOf(log, i + 1, docId)
    decreases i
  {
    assert InChain(log, i, docId);
    var last := LastOf(log, i, docId);
    CountSkips(log, if last.Some? then last.value + 1 else 0, i, docId);
    if last.Some? {
      VersionIsRank(log, docId, last.value);
    }
  }

  lemma {:induction false} CountSkips(log: seq<Event>, start: nat, end: nat, docId: string)
    requires start <= end <= |log| && forall j | start <= j < end :: log[j].req.docId != docId
    ensures CountOf(log, end, docId) == CountOf(log, start, docId)
    decreases end
  {
    if start < end {
      CountSkips(log, start, end - 1, docId);
    }
  }

  // ----- without that hypothesis: which appends keep a document linear -----

  // The head that the event builds on is still the last entry of its document: a
  // CREATE finds none, any other event names it.
  predicate IsTimely(log: seq<Event>, e: Event) {
    var last := LastOf(log, |log|, e.req.docId);
    if IsCreate(e.req.eventType) then last.None?
    else last.Some? && e.req.prevEventId == Some(log[last.value].eventId)
  }

  lemma {:induction false} TimelyContinues(log: seq<Event>, e: Event)
    requires GoodLog(log) && Linked(log, |log|, e)
    ensures Continues(log, |log|, e) <==> IsTimely(log, e)
  {
    if !IsCreate(e.req.eventType) {
      var j :| 0 <= j < |log| && IsPred(log, j, e);
      var last := LastOf(log, |log|, e.req.docId);
      assert last.Some? && log[last.value].eventId == log[j].eventId ==> last.value == j;
    }
  }

  lemma {:induction false} AppendIsLinearExactly(log: seq<Event>, x: Event, docId: string)
    ensures Linear(log + [x], docId) <==> Linear(log, docId) && (x.req.docId == docId ==> Continues(log, |log|, x))
  {
    var log' := log + [x];
    if Linear(log', docId) {
      forall i | 0 <= i < |log| ensures InChain(log, i, docId) {
        assert InChain(log', i, docId);
        ContinuesLater(log, x, i, log[i]);
      }
      assert InChain(log', |log|, docId);
      ContinuesLater(log, x, |log|, x);
    } else if Linear(log, docId) && (x.req.docId == docId ==> Continues(log, |log|, x)) {
      AppendKeepsLinear(log, x, docId);
    }
  }

  // The step appends no event of the document that comes too late.
  predicate IsTimelyStep(s: State, a: Action, docId: string) {
    a.Append? && IsFlying(s, a.id, docId) && s.inFlight[a.id].Ready? ==> IsTimely(s.log, s.inFlight[a.id].event)
  }

  ghost predicate TimelyRun(cfg: Config, actions: seq<Action>, docId: string)
    decreases |actions|
  {
    actions == [] ||
    var before := actions[..|actions| - 1];
    TimelyRun(cfg, before, docId) && IsTimelyStep(Run(cfg, before), actions[|actions| - 1], docId)
  }

  lemma {:induction false} StepIsLinearExactly(cfg: Config, s: State, a: Action, docId: string)
    requires Inv(cfg, s)
    ensures Linear(Step(cfg, s, a).log, docId) <==> Linear(s.log, docId) && IsTimelyStep(s, a, docId)
  {
    if a.Append? && a.id in s.inFlight && s.inFlight[a.id].Ready? {
      var e := s.inFlight[a.id].event;
      assert GoodPhase(s.log, s.table, s.inFlight[a.id]);
      TimelyContinues(s.log, e);
      AppendIsLinearExactly(s.log, e, docId);
    } else {
      OnlyAppendsExtend(cfg, s, a);
    }
  }

  lemma {:induction false} OnlyAppendsExtend(cfg: Config, s: State, a: Action)
    requires !(a.Append? && a.id in s.inFlight && s.inFlight[a.id].Ready?)
    ensures Step(cfg, s, a).log == s.log
  {
    hide CheckChain, RowOf, IsLatest, IsFresh, CanInsert;
  }

  // In every run, with any races, lost rows and abandoned requests, a document has
  // one linear history if and only if each of its events was appended while the
  // head it builds on was still the last entry of the document.
  lemma {:induction false} LinearExactlyWhenTimely(cfg: Config, actions: seq<Action>, docId: string)
    ensures Linear(Run(cfg, actions).log, docId) <==> TimelyRun(cfg, actions, docId)
    decreases |actions|
  {
    if actions != [] {
      var before := actions[..|actions| - 1];
      LinearExactlyWhenTimely(cfg, before, docId);
      RunKeepsInv(cfg, before);
      StepIsLinearExactly(cfg, Run(cfg, before), actions[|actions| - 1], docId);
    }
  }

  // ----- between two requests for the document -----

  lemma {:induction false} CountAfterLast(log: seq<Event>, docId: string)
    requires Linear(log, docId)
    ensures var last := LastOf(log, |log|, docId);
      CountOf(log, |log|, docId) == if last.None? then 0 else log[last.value].docVersion
  {
    var last := LastOf(log, |log|, docId);
    CountSkips(log, if last.Some? then last.value + 1 else 0, |log|, docId);
    if last.Some? {
      VersionIsRank(log, docId, last.value);
    }
  }

  // A state as such runs leave it while no request for the document is in flight.
  ghost predicate IsIdle(cfg: Config, s: State, docId: string) {
    && s.published <= |s.log| && GoodLog(s.log) && Mirrors(cfg, s.log, s.table)
    && Linear(s.log, docId) && FullyIndexed(s, docId)
  }

  lemma {:induction false} SerialRunIsIdle(cfg: Config, actions: seq<Action>, docId: string)
    requires SerialRun(cfg, actions, docId)
    requires forall id | id in Run(cfg, actions).inFlight :: !IsFlying(Run(cfg, actions), id, docId)
    ensures IsIdle(cfg, Run(cfg, actions), docId)
  {
    RunKeepsInv(cfg, actions);
    SerialRunKeepsInv(cfg, actions, docId);
    NothingAwaits(Run(cfg, actions), docId);
  }

  // There the chain check accepts exactly the events that fit after the last entry
  // of their document, and gives them the next version.
  lemma {:induction false} IdleCheckIsExact(cfg: Config, s: State, raw: Request, latest: Option<nat>)
    requires IsIdle(cfg, s, Normalized(raw).docId) && IsLatest(s.table, Normalized(raw).docId, latest)
    ensures latest == LastOf(s.log, |s.log|, Normalized(raw).docId)
    ensures ResolveVersion(s.log, s.published, Normalized(raw), latest) ==
      if FitsAfter(s.log, s.published, Normalized(raw), latest) then Ok(VersionAfter(s.log, latest)) else Err
    ensures VersionAfter(s.log, latest) == CountOf(s.log, |s.log|, Normalized(raw).docId) + 1
  {
    var docId := Normalized(raw).docId;
    LookupFindsLast(cfg, s, docId, latest);
    CountAfterLast(s.log, docId);
    ResolvesExactly(s.log, s.published, raw, latest);
  }
}
