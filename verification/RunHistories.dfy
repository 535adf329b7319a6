// The version history that client/details.html shows for a document of a running
// server: the index lists the entries (lookup.go), the published part of the log
// supplies them (logread/helpers.go), and sortHistory puts them in order.
module RunHistories {
  import opened Wrappers
  import opened Text
  import opened NotaryEvent
  import opened NotaryServer
  import Q = IndexQueries
  import V = VersionHistory
  import S = SerialRuns
  import L = LogRead

  // What parseEvent keeps of an entry of the log.
  function ToItem(e: Event, i: nat): V.Item {
    V.Item(e.eventId, e.req.eventType, e.req.prevEventId, e.docVersion, i)
  }

  predicate InLog(log: seq<Event>, at: seq<nat>) {
    forall k | 0 <= k < |at| :: at[k] < |log|
  }

  function Items(log: seq<Event>, at: seq<nat>): (h: seq<V.Item>)
    requires InLog(log, at)
    ensures |h| == |at| && forall k | 0 <= k < |at| :: h[k] == ToItem(log[at[k]], at[k])
  {
    if at == [] then [] else Items(log, at[..|at| - 1]) + [ToItem(log[at[|at| - 1]], at[|at| - 1])]
  }

  // The entries of any selection of the log, in log order, form a history:
  // whatever is missing or forked.
  lemma {:induction false} SelectionIsHistory(log: seq<Event>, at: seq<nat>)
    requires GoodLog(log) && InLog(log, at) && Q.Ascending(at)
    ensures V.IsHistory(Items(log, at))
  {
    var h := Items(log, at);
    forall a, b | a in h && b in h && V.Names(b, a.eventId) ensures b.version == a.version + 1 {
      NamedIsPred(log, a.index, b.index);
    }
  }

  // An entry that names another has that one as its predecessor.
  lemma {:induction false} NamedIsPred(log: seq<Event>, i: nat, j: nat)
    requires GoodLog(log) && i < |log| && j < |log|
    requires !IsAbsent(log[j].req.prevEventId) && log[j].req.prevEventId.value == log[i].eventId
    ensures i < j && IsPred(log, i, log[j])
  {
    assert WellFormed(log[j]);
    var p := PredIsFound(log, j);
    SameIdSameEntry(log, p, i);
  }

  lemma {:induction false} SameIdSameEntry(log: seq<Event>, i: nat, j: nat)
    requires GoodLog(log) && i < |log| && j < |log| && log[i].eventId == log[j].eventId
    ensures i == j
  {
  }

  // ----- the page -----

  // GET /get-entry, from a store that works: an entry of the published tree.
  function ReadEntry(s: State, i: nat): Result<Event> {
    L.ReadLogEntryByIndex(L.StoreOf(s.log, true), s.published, i)
  }

  lemma {:induction false} ReadEntryIsExact(s: State, i: nat)
    requires s.published <= |s.log|
    ensures ReadEntry(s, i) == if i < s.published then Ok(s.log[i]) else Err
  {
    L.StoredIsReadable(s.log, true, s.published, i);
  }

  // GET /get-indexes.
  ghost function IndexesFor(s: State, docId: string): seq<nat> {
    Q.IndexesOf(s.table, docId)
  }

  // An entry as fetched, with the index it was fetched for.
  datatype Fetched = Fetched(event: Event, index: nat)

  // All of them, or an error when one cannot be fetched.
  function Fetch(s: State, at: seq<nat>): Result<seq<Fetched>> {
    if at == [] then Ok([])
    else
      var rest, last := Fetch(s, at[..|at| - 1]), ReadEntry(s, at[|at| - 1]);
      if rest.Err? || last.Err? then Err else Ok(rest.value + [Fetched(last.value, at[|at| - 1])])
  }

  // Those of the document, as the ordering sees them.
  function OfDocument(entries: seq<Fetched>, docId: string): seq<V.Item> {
    if entries == [] then []
    else
      var rest, last := OfDocument(entries[..|entries| - 1], docId), entries[|entries| - 1];
      if last.event.req.docId == docId then rest + [ToItem(last.event, last.index)] else rest
  }

  // They are exactly the entries of the document, in their order.
  lemma {:induction false} OfDocumentIsExact(entries: seq<Fetched>, docId: string) returns (at: seq<nat>)
    ensures Q.Ascending(at) && |at| == |OfDocument(entries, docId)|
    ensures forall i: nat :: i in at <==> i < |entries| && entries[i].event.req.docId == docId
    ensures forall k | 0 <= k < |at| ::
      at[k] < |entries| && OfDocument(entries, docId)[k] == ToItem(entries[at[k]].event, entries[at[k]].index)
    decreases |entries|
  {
    at := [];
    if entries != [] {
      var n := |entries| - 1;
      at := OfDocumentIsExact(entries[..n], docId);
      if entries[n].event.req.docId == docId {
        assert forall k | 0 <= k < |at| :: at[k] in at;
        at := at + [n];
      }
    }
  }

  // loadDetails for the entry at an index: the history it shows, or an error.
  // Nothing to show is an error too.
  ghost function DetailsPage(s: State, current: nat): Result<seq<V.Item>> {
    var entry := ReadEntry(s, current);
    if entry.Err? || Trim(GoSpace, entry.value.req.docId) == "" then Err
    else
      var docId := entry.value.req.docId;
      var at := IndexesFor(s, Trim(GoSpace, docId));
      var entries := Fetch(s, at);
      if at == [] || entries.Err? || OfDocument(entries.value, docId) == [] then Err
      else Ok(V.SortHistory(OfDocument(entries.value, docId)))
  }

  method ShowDetails(s: State, current: nat) returns (page: Result<seq<V.Item>>)
    ensures page == DetailsPage(s, current)
  {
    var entry := ReadEntry(s, current);
    if entry.Err? {
      return Err;
    }
    var docId := entry.value.req.docId;
    var at := Q.GetIndexesByDocId(s.table, docId);
    if at.Err? || at.value == [] {
      return Err;
    }
    var entries: seq<Fetched> := [];
    for i := 0 to |at.value|
      invariant Fetch(s, at.value[..i]) == Ok(entries)
    {
      assert at.value[..i + 1][..i] == at.value[..i];
      var e := ReadEntry(s, at.value[i]);
      if e.Err? {
        FetchFails(s, at.value, i);
        return Err;
      }
      entries := entries + [Fetched(e.value, at.value[i])];
    }
    assert at.value[..|at.value|] == at.value;
    var history := OfDocument(entries, docId);
    if history == [] {
      return Err;
    }
    var ordered := V.SortHistoryByLinks(history);
    page := Ok(ordered);
  }

  lemma {:induction false} FetchFails(s: State, at: seq<nat>, i: nat)
    requires i < |at| && ReadEntry(s, at[i]).Err?
    ensures Fetch(s, at).Err?
    decreases |at|
  {
    if i < |at| - 1 {
      FetchFails(s, at[..|at| - 1], i);
    }
  }

  lemma {:induction false} FetchIsExact(s: State, at: seq<nat>)
    requires s.published <= |s.log| && InLog(s.log, at) && forall k | 0 <= k < |at| :: at[k] < s.published
    ensures Fetch(s, at).Ok? && |Fetch(s, at).value| == |at|
    ensures forall k | 0 <= k < |at| :: Fetch(s, at).value[k] == Fetched(s.log[at[k]], at[k])
    decreases |at|
  {
    if at != [] {
      FetchIsExact(s, at[..|at| - 1]);
      ReadEntryIsExact(s, at[|at| - 1]);
    }
  }

  // When all entries are of the document none is left out.
  lemma {:induction false} AllOfDocument(log: seq<Event>, at: seq<nat>, entries: seq<Fetched>, docId: string)
    requires InLog(log, at) && |entries| == |at|
    requires forall k | 0 <= k < |at| :: entries[k] == Fetched(log[at[k]], at[k]) && log[at[k]].req.docId == docId
    ensures OfDocument(entries, docId) == Items(log, at)
    decreases |at|
  {
    if at != [] {
      AllOfDocument(log, at[..|at| - 1], entries[..|at| - 1], docId);
    }
  }

  // ----- what it shows on reachable states -----

  lemma {:induction false} IndexesAreInLog(cfg: Config, s: State, docId: string)
    requires GoodLog(s.log) && Mirrors(cfg, s.log, s.table)
    ensures Q.Ascending(IndexesFor(s, docId)) && InLog(s.log, IndexesFor(s, docId))
    ensures forall i: nat :: i in IndexesFor(s, docId) <==> i in s.table && i < |s.log| && s.log[i].req.docId == docId
  {
    var at := IndexesFor(s, docId);
    Q.SelectIsExact(s.table, Q.IsFor(docId));
    forall k | 0 <= k < |at| ensures at[k] < |s.log| {
      assert at[k] in at;
    }
    forall i | i in s.table ensures Names(s.table, i, docId) <==> s.log[i].req.docId == docId {
      RowNames(cfg, s.log, s.table, i, docId);
    }
  }

  // The indexes at are there and published.
  predicate CanShow(s: State, at: seq<nat>) {
    at != [] && forall k | 0 <= k < |at| :: at[k] < s.published
  }

  // The page shows a history exactly when the entry itself is published and the
  // index lists entries of its document, all of them published; and then it shows
  // those entries. Otherwise it shows an error.
  lemma {:induction false} PageIsExact(cfg: Config, s: State, current: nat)
    requires Inv(cfg, s)
    ensures current >= s.published ==> DetailsPage(s, current) == Err
    ensures current < s.published ==>
      var at := IndexesFor(s, s.log[current].req.docId);
      && InLog(s.log, at)
      && DetailsPage(s, current) == if CanShow(s, at) then Ok(V.SortHistory(Items(s.log, at))) else Err
  {
    ReadEntryIsExact(s, current);
    if current < s.published {
      var docId := s.log[current].req.docId;
      var at := IndexesFor(s, docId);
      assert WellFormed(s.log[current]);
      HeadIsTrimmed(s.log[current]);
      IndexesAreInLog(cfg, s, docId);
      ListIsExact(s, at, docId);
    }
  }

  lemma {:induction false} ListIsExact(s: State, at: seq<nat>, docId: string)
    requires s.published <= |s.log| && InLog(s.log, at)
    requires forall i | i in at :: i < |s.log| && s.log[i].req.docId == docId
    ensures Fetch(s, at).Ok? <==> forall k | 0 <= k < |at| :: at[k] < s.published
    ensures Fetch(s, at).Ok? ==> OfDocument(Fetch(s, at).value, docId) == Items(s.log, at)
  {
    if k :| 0 <= k < |at| && at[k] >= s.published {
      ReadEntryIsExact(s, at[k]);
      FetchFails(s, at, k);
    } else {
      FetchIsExact(s, at);
      forall k | 0 <= k < |at| ensures s.log[at[k]].req.docId == docId {
        assert at[k] in at;
      }
      AllOfDocument(s.log, at, Fetch(s, at).value, docId);
    }
  }

  // shown holds the events of h, each after the one it names, and an event of the
  // highest version last.
  ghost predicate ShowsInOrder(h: seq<V.Item>, shown: seq<V.Item>) {
    && multiset(shown) == multiset(h)
    && (forall i, j | 0 <= i < |shown| && 0 <= j < |shown| && V.Names(shown[j], shown[i].eventId) :: i < j)
    && (forall e | e in h :: shown != [] && e.version <= shown[|shown| - 1].version)
  }

  lemma {:induction false} HistoryIsShown(h: seq<V.Item>)
    requires V.IsHistory(h)
    ensures ShowsInOrder(h, V.SortHistory(h))
  {
    var shown := V.SortHistory(h);
    V.SortHistoryPermutes(h);
    forall i, j | 0 <= i < |shown| && 0 <= j < |shown| && V.Names(shown[j], shown[i].eventId) ensures i < j {
      V.EventsFollowPredecessors(h, i, j);
    }
    forall e | e in h ensures shown != [] && e.version <= shown[|shown| - 1].version {
      V.LastIsLatest(h, e);
    }
  }

  // In every run, under every interleaving, forks and lost index rows included,
  // the page of a published entry shows a history if and only if the index lists
  // entries of its document and all of them are published; then it shows exactly
  // those, every event after the one it names, and one of the highest version last.
  lemma {:induction false} EveryRunShowsItsHistory(cfg: Config, actions: seq<Action>, current: nat)
    ensures var s := Run(cfg, actions);
      current >= s.published ==> DetailsPage(s, current).Err?
    ensures var s := Run(cfg, actions);
      current < s.published ==>
        && current < |s.log|
        && var at := IndexesFor(s, s.log[current].req.docId);
           && InLog(s.log, at)
           && (DetailsPage(s, current).Ok? <==> CanShow(s, at))
           && (CanShow(s, at) ==> ShowsInOrder(Items(s.log, at), DetailsPage(s, current).value))
  {
    var s := Run(cfg, actions);
    RunKeepsInv(cfg, actions);
    PageIsExact(cfg, s, current);
    if current < s.published {
      var at := IndexesFor(s, s.log[current].req.docId);
      IndexesAreInLog(cfg, s, s.log[current].req.docId);
      SelectionIsHistory(s.log, at);
      HistoryIsShown(Items(s.log, at));
    }
  }

  // ----- complete histories -----

  // at lists all entries of the document in order.
  ghost predicate ListsAll(log: seq<Event>, docId: string, at: seq<nat>) {
    && Q.Ascending(at) && InLog(log, at)
    && forall i: nat :: i in at <==> i < |log| && log[i].req.docId == docId
  }

  lemma {:induction false} ListedIsComplete(log: seq<Event>, docId: string, at: seq<nat>)
    requires GoodLog(log) && ListsAll(log, docId, at)
    ensures V.IsComplete(Items(log, at))
  {
    var h := Items(log, at);
    SelectionIsHistory(log, at);
    forall k | 0 <= k < |h| ensures V.RootOrLinked(h, k) {
      ListedIsLinked(log, docId, at, k);
    }
  }

  lemma {:induction false} ListedIsLinked(log: seq<Event>, docId: string, at: seq<nat>, k: nat)
    requires GoodLog(log) && ListsAll(log, docId, at) && k < |at|
    ensures V.RootOrLinked(Items(log, at), k)
  {
    var i, h := at[k], Items(log, at);
    assert at[k] in at;
    assert WellFormed(log[i]);
    if IsCreate(log[i].req.eventType) {
      assert V.IsRoot(h[k]);
    } else {
      var p := PredIsFound(log, i);
      var m := Position(at, p, k);
      assert V.Names(h[k], h[m].eventId);
    }
  }

  lemma {:induction false} Position(at: seq<nat>, p: nat, k: nat) returns (m: nat)
    requires Q.Ascending(at) && p in at && k < |at| && p < at[k]
    ensures m < k && at[m] == p
  {
    m :| 0 <= m < |at| && at[m] == p;
  }

  lemma {:induction false} FullyIndexedListsAll(cfg: Config, s: State, docId: string)
    requires GoodLog(s.log) && Mirrors(cfg, s.log, s.table) && S.FullyIndexed(s, docId)
    ensures ListsAll(s.log, docId, IndexesFor(s, docId))
  {
    IndexesAreInLog(cfg, s, docId);
  }

  // In every run, once a document is fully indexed and has one CREATE event and no
  // fork, what its page shows is its events in log order, whichever of the two
  // ways of sorting is taken.
  lemma {:induction false} ForkFreeRunShowsLogOrder(cfg: Config, actions: seq<Action>, current: nat)
    requires var s := Run(cfg, actions);
      current < |s.log| && S.FullyIndexed(s, s.log[current].req.docId)
    ensures var s := Run(cfg, actions);
      var at := IndexesFor(s, s.log[current].req.docId);
      && ListsAll(s.log, s.log[current].req.docId, at)
      && var h := Items(s.log, at);
         V.OneRoot(h) && !V.HasFork(h) ==>
           && V.SortByVersion(h) == h
           && DetailsPage(s, current) == if CanShow(s, at) then Ok(h) else Err
  {
    var s := Run(cfg, actions);
    var docId := s.log[current].req.docId;
    RunKeepsInv(cfg, actions);
    FullyIndexedListsAll(cfg, s, docId);
    ListedIsComplete(s.log, docId, IndexesFor(s, docId));
    var h := Items(s.log, IndexesFor(s, docId));
    if V.OneRoot(h) && !V.HasFork(h) {
      V.ForkFreeKeepsLogOrder(h);
    }
    PageIsExact(cfg, s, current);
    ListedIsShown(s, docId, IndexesFor(s, docId), current);
  }

  // An entry of the document that cannot be read keeps the rest from being shown.
  lemma {:induction false} ListedIsShown(s: State, docId: string, at: seq<nat>, current: nat)
    requires ListsAll(s.log, docId, at) && current < |s.log| && s.log[current].req.docId == docId
    ensures at != [] && (CanShow(s, at) ==> current < s.published)
  {
    assert current in at;
  }

  // ----- documents served one request at a time -----

  // Between two listed entries there is none of the document.
  lemma {:induction false} LastOfListed(log: seq<Event>, docId: string, at: seq<nat>, k: nat)
    requires ListsAll(log, docId, at) && k < |at|
    ensures S.LastOf(log, at[k], docId) == if k == 0 then None else Some(at[k - 1])
  {
    assert at[k] in at;
    var last := S.LastOf(log, at[k], docId);
    if k > 0 {
      assert at[k - 1] in at;
    }
    if last.Some? {
      assert last.value in at;
      var m := Position(at, last.value, k);
    }
  }

  lemma {:induction false} LinearIsLinked(log: seq<Event>, docId: string, at: seq<nat>, k: nat)
    requires GoodLog(log) && S.Linear(log, docId) && ListsAll(log, docId, at) && k < |at|
    ensures var h := Items(log, at);
      if k == 0 then V.IsRoot(h[k]) && h[k].version == 1
      else !V.IsRoot(h[k]) && V.Names(h[k], h[k - 1].eventId)
  {
    if k > 0 {
      assert WellFormed(log[at[k - 1]]);
    }
    assert at[k] in at;
    LastOfListed(log, docId, at, k);
    assert S.InChain(log, at[k], docId);
  }

  // Linked events with different ids leave no room for a fork.
  lemma {:induction false} LinkedHasNoFork(h: seq<V.Item>)
    requires V.LinkedPairwise(h) && V.DistinctIds(h) && (h != [] ==> V.NoPrev(h[0]))
    ensures !V.HasFork(h)
  {
    forall i, j | 0 <= i < j < |h| ensures V.NoPrev(h[i]) || !V.Names(h[j], h[i].prev.value) {
      assert V.Names(h[j], h[j - 1].eventId);
      if i > 0 {
        assert V.Names(h[i], h[i - 1].eventId);
      }
    }
  }

  lemma {:induction false} LinearIsPairwise(log: seq<Event>, docId: string, at: seq<nat>)
    requires GoodLog(log) && S.Linear(log, docId) && ListsAll(log, docId, at)
    ensures V.LinkedPairwise(Items(log, at)) && V.OneRoot(Items(log, at))
  {
    var h := Items(log, at);
    forall k | 0 <= k < |at| ensures k > 0 ==> !V.IsRoot(h[k]) && V.Names(h[k], h[k - 1].eventId) {
      LinearIsLinked(log, docId, at, k);
    }
  }

  lemma {:induction false} LinearIsOneChain(log: seq<Event>, docId: string, at: seq<nat>)
    requires GoodLog(log) && S.Linear(log, docId) && ListsAll(log, docId, at)
    ensures IsOneChain(Items(log, at))
  {
    LinearIsPairwise(log, docId, at);
    SelectionIsHistory(log, at);
    if at != [] {
      LinearIsLinked(log, docId, at, 0);
      ChainVersions(Items(log, at));
    }
    LinkedHasNoFork(Items(log, at));
  }

  // Versions 1, 2, 3, ..., each naming the one before.
  predicate IsOneChain(h: seq<V.Item>) {
    && V.LinkedPairwise(h) && V.OneRoot(h) && !V.HasFork(h)
    && forall k | 0 <= k < |h| :: h[k].version == k + 1
  }

  lemma {:induction false} ChainVersions(h: seq<V.Item>)
    requires V.IsHistory(h) && V.LinkedPairwise(h) && h != [] && h[0].version == 1
    ensures forall k | 0 <= k < |h| :: h[k].version == k + 1
  {
    forall k | 0 <= k < |h| ensures h[k].version == k + 1 {
      V.LinkedVersions(h, h, 0, k);
    }
  }

  // Everything listed is published exactly when the last entry of the document is.
  lemma {:induction false} LastDecides(s: State, docId: string, at: seq<nat>)
    requires ListsAll(s.log, docId, at) && at != []
    ensures var last := S.LastOf(s.log, |s.log|, docId);
      last.Some? && (CanShow(s, at) <==> last.value < s.published)
  {
    assert at[0] in at;
    var last := S.LastOf(s.log, |s.log|, docId);
    assert last.value in at;
    forall k | 0 <= k < |at| ensures at[k] <= last.value {
      assert at[k] in at;
    }
  }

  // When the requests for a document are served one at a time and none is in
  // flight, its events form one chain in log order, and the page of each of them
  // shows that chain as soon as the last one is published, and an error before.
  lemma {:induction false} SerialRunShowsOneChain(cfg: Config, actions: seq<Action>, current: nat)
    requires current < |Run(cfg, actions).log|
    requires var s := Run(cfg, actions);
      var docId := s.log[current].req.docId;
      S.SerialRun(cfg, actions, docId) && forall id | id in s.inFlight :: !S.IsFlying(s, id, docId)
    ensures var s := Run(cfg, actions);
      var docId := s.log[current].req.docId;
      var at, last := IndexesFor(s, docId), S.LastOf(s.log, |s.log|, docId);
      && ListsAll(s.log, docId, at) && IsOneChain(Items(s.log, at)) && last.Some?
      && DetailsPage(s, current) == if last.value < s.published then Ok(Items(s.log, at)) else Err
  {
    var s := Run(cfg, actions);
    var docId := s.log[current].req.docId;
    S.SerialRunIsIdle(cfg, actions, docId);
    ForkFreeRunShowsLogOrder(cfg, actions, current);
    LinearIsOneChain(s.log, docId, IndexesFor(s, docId));
    ListedIsShown(s, docId, IndexesFor(s, docId), current);
    LastDecides(s, docId, IndexesFor(s, docId));
  }
}
