// client/details.html: ordering the events of a document for its version history.
module VersionHistory {
  import opened Wrappers
  import opened Text

  // The fields of a parsed event that the ordering looks at.
  datatype Item = Item(eventId: string, eventType: string, prev: Option<string>, version: int, index: int)

  // No predecessor: the field is null or an empty string.
  predicate NoPrev(e: Item) { IsAbsent(e.prev) }

  predicate Names(e: Item, eventId: string) { !NoPrev(e) && e.prev.value == eventId }

  // ----- the fallback: a stable sort by version, then index -----

  predicate Before(a: Item, b: Item) {
    a.version < b.version || (a.version == b.version && a.index <= b.index)
  }

  predicate Sorted(s: seq<Item>) {
    forall i, j | 0 <= i < j < |s| :: Before(s[i], s[j])
  }

  // Behind everything that may stand before x.
  function Insert(s: seq<Item>, x: Item): (r: seq<Item>)
    requires Sorted(s)
    ensures Sorted(r) && multiset(r) == multiset(s) + multiset{x}
    ensures forall y | y in r :: y in s || y == x
  {
    if s == [] then [x]
    else
      var last, init := s[|s| - 1], s[..|s| - 1];
      assert s == init + [last];
      if Before(last, x) then
        SortedSnoc(s, x);
        s + [x]
      else
        var r := Insert(init, x);
        SortedSnoc(r, last);
        r + [last]
  }

  lemma SortedSnoc(s: seq<Item>, x: Item)
    requires Sorted(s) && forall y | y in s :: Before(y, x)
    ensures Sorted(s + [x])
  {
  }

  function SortByVersion(events: seq<Item>): (r: seq<Item>)
    ensures Sorted(r) && multiset(r) == multiset(events)
  {
    if events == [] then []
    else
      assert events == events[..|events| - 1] + [events[|events| - 1]];
      Insert(SortByVersion(events[..|events| - 1]), events[|events| - 1])
  }

  // Lower versions come first, and lower indexes among equal versions.
  lemma {:induction false} SortOrder(events: seq<Item>, i: nat, j: nat)
    requires i < j < |events|
    ensures var r := SortByVersion(events);
      && |r| == |events| && r[i].version <= r[j].version
      && (r[i].version == r[j].version ==> r[i].index <= r[j].index)
  {
    var r := SortByVersion(events);
    assert |multiset(r)| == |multiset(events)|;
    assert Before(r[i], r[j]);
  }

  lemma {:induction false} SortKeepsSorted(events: seq<Item>)
    requires Sorted(events)
    ensures SortByVersion(events) == events
    decreases |events|
  {
    if events != [] {
      SortKeepsSorted(events[..|events| - 1]);
      assert events == events[..|events| - 1] + [events[|events| - 1]];
    }
  }

  // ----- the chain walk -----

  // The event that nextByPrev holds for an id: the last one that names it.
  function Next(events: seq<Item>, eventId: string): (next: Option<Item>)
    ensures next.Some? ==> next.value in events && Names(next.value, eventId)
    ensures next.None? ==> forall e | e in events :: !Names(e, eventId)
  {
    if events == [] then None
    else if Names(events[|events| - 1], eventId) then Some(events[|events| - 1])
    else Next(events[..|events| - 1], eventId)
  }

  ghost function Ids(events: seq<Item>): set<string> { set e | e in events :: e.eventId }

  // Follow the links from cur until one leads nowhere or to a visited event.
  ghost function Walk(events: seq<Item>, cur: Option<Item>, visited: set<string>): (out: seq<Item>)
    requires cur.Some? ==> cur.value in events
    decreases Ids(events) - visited
  {
    if cur.None? || cur.value.eventId in visited then []
    else [cur.value] + Walk(events, Next(events, cur.value.eventId), visited + {cur.value.eventId})
  }

  predicate IsRoot(e: Item) { e.eventType == "CREATE" && NoPrev(e) }

  function FindRoot(events: seq<Item>): (root: Option<Item>)
    ensures root.Some? ==> root.value in events && IsRoot(root.value)
    ensures root.None? ==> forall e | e in events :: !IsRoot(e)
  {
    if events == [] then None else if IsRoot(events[0]) then Some(events[0]) else FindRoot(events[1..])
  }

  function FindStart(events: seq<Item>): (start: Option<Item>)
    ensures start.Some? ==> start.value in events && NoPrev(start.value)
    ensures start.None? ==> forall e | e in events :: !NoPrev(e)
  {
    if events == [] then None else if NoPrev(events[0]) then Some(events[0]) else FindStart(events[1..])
  }

  function Start(events: seq<Item>): (start: Option<Item>)
    ensures start.Some? ==> start.value in events && NoPrev(start.value)
    ensures start.None? ==> forall e | e in events :: !NoPrev(e)
  {
    var root := FindRoot(events);
    if root.Some? then root else FindStart(events)
  }

  // e is the first of the events that satisfy p.
  ghost predicate IsFirst(events: seq<Item>, p: Item -> bool, e: Item) {
    exists i | 0 <= i < |events| :: events[i] == e && p(e) && forall j | 0 <= j < i :: !p(events[j])
  }

  lemma {:induction false} FirstRoot(events: seq<Item>) returns (i: nat)
    requires FindRoot(events).Some?
    ensures i < |events| && events[i] == FindRoot(events).value && IsRoot(events[i])
    ensures forall j | 0 <= j < i :: !IsRoot(events[j])
    decreases |events|
  {
    if IsRoot(events[0]) {
      i := 0;
    } else {
      i := FirstRoot(events[1..]);
      i := i + 1;
    }
  }

  lemma {:induction false} FirstStart(events: seq<Item>) returns (i: nat)
    requires FindStart(events).Some?
    ensures i < |events| && events[i] == FindStart(events).value && NoPrev(events[i])
    ensures forall j | 0 <= j < i :: !NoPrev(events[j])
    decreases |events|
  {
    if NoPrev(events[0]) {
      i := 0;
    } else {
      i := FirstStart(events[1..]);
      i := i + 1;
    }
  }

  // The chain starts at the first CREATE without predecessor, or for lack of one at
  // the first event without predecessor.
  lemma {:induction false} StartIsExact(events: seq<Item>)
    ensures Start(events).None? <==> forall e | e in events :: !NoPrev(e)
    ensures Start(events).Some? ==>
      var e := Start(events).value;
      if exists x | x in events :: IsRoot(x) then IsFirst(events, (x: Item) => IsRoot(x), e)
      else IsFirst(events, (x: Item) => NoPrev(x), e)
  {
    if FindRoot(events).Some? {
      var i := FirstRoot(events);
    } else if FindStart(events).Some? {
      var i := FirstStart(events);
    }
  }

  // Two events name the same predecessor.
  predicate HasFork(events: seq<Item>) {
    exists i, j | 0 <= i < j < |events| :: !NoPrev(events[i]) && Names(events[j], events[i].prev.value)
  }

  // sortHistory.
  ghost function SortHistory(events: seq<Item>): seq<Item> {
    if Start(events).None? || HasFork(events) then SortByVersion(events)
    else
      var chain := Walk(events, Start(events), {});
      if |chain| == |events| then chain else SortByVersion(events)
  }

  // ----- the code -----

  function CountNaming(events: seq<Item>, eventId: string): nat {
    if events == [] then 0
    else CountNaming(events[..|events| - 1], eventId) + if Names(events[|events| - 1], eventId) then 1 else 0
  }

  lemma {:induction false} CountSome(events: seq<Item>, eventId: string)
    ensures CountNaming(events, eventId) > 0 <==> exists e | e in events :: Names(e, eventId)
    decreases |events|
  {
    if events != [] {
      var init := events[..|events| - 1];
      assert events == init + [events[|events| - 1]];
      CountSome(init, eventId);
    }
  }

  // A count above one is a fork.
  lemma {:induction false} CountFork(events: seq<Item>, eventId: string)
    ensures CountNaming(events, eventId) > 1 <==>
      exists i, j | 0 <= i < j < |events| :: Names(events[i], eventId) && Names(events[j], eventId)
    decreases |events|
  {
    if events != [] {
      var n := |events| - 1;
      var init := events[..n];
      CountFork(init, eventId);
      CountSome(init, eventId);
      if Names(events[n], eventId) && CountNaming(init, eventId) > 0 {
        var e :| e in init && Names(e, eventId);
        var i :| 0 <= i < n && init[i] == e;
        assert Names(events[i], eventId) && Names(events[n], eventId);
      }
      if CountNaming(init, eventId) > 1 {
        var i, j :| 0 <= i < j < |init| && Names(init[i], eventId) && Names(init[j], eventId);
        assert Names(events[i], eventId) && Names(events[j], eventId);
      }
      if i, j :| 0 <= i < j < |events| && Names(events[i], eventId) && Names(events[j], eventId) {
        assert init[i] in init && Names(init[i], eventId);
        if j < n {
          assert Names(init[j], eventId);
        }
      }
    }
  }

  // The two maps sortHistory fills in one pass over the events.
  method LinkMaps(events: seq<Item>) returns (nextByPrev: map<string, Item>, prevCount: map<string, nat>)
    ensures forall id :: (if id in nextByPrev then Some(nextByPrev[id]) else None) == Next(events, id)
    ensures forall id :: (if id in prevCount then prevCount[id] else 0) == CountNaming(events, id)
  {
    nextByPrev, prevCount := map[], map[];
    for i := 0 to |events|
      invariant forall id :: (if id in nextByPrev then Some(nextByPrev[id]) else None) == Next(events[..i], id)
      invariant forall id :: (if id in prevCount then prevCount[id] else 0) == CountNaming(events[..i], id)
    {
      var e := events[i];
      assert events[..i + 1][..i] == events[..i];
      if !NoPrev(e) {
        var id := e.prev.value;
        nextByPrev := nextByPrev[id := e];
        prevCount := prevCount[id := (if id in prevCount then prevCount[id] else 0) + 1];
      }
    }
    assert events[..|events|] == events;
  }

  method AnyAboveOne(prevCount: map<string, nat>) returns (found: bool)
    ensures found <==> exists id | id in prevCount :: prevCount[id] > 1
  {
    var todo := prevCount.Keys;
    while todo != {}
      invariant todo <= prevCount.Keys
      invariant forall id | id in prevCount && prevCount[id] > 1 :: id in todo
    {
      var id :| id in todo;
      if prevCount[id] > 1 {
        return true;
      }
      todo := todo - {id};
    }
    found := false;
  }

  // The while loop of sortHistory.
  method FollowLinks(events: seq<Item>, nextByPrev: map<string, Item>, root: Option<Item>) returns (out: seq<Item>)
    requires root.Some? ==> root.value in events
    requires forall id :: (if id in nextByPrev then Some(nextByPrev[id]) else None) == Next(events, id)
    ensures out == Walk(events, root, {})
  {
    out := [];
    var visited, cur := {}, root;
    while cur.Some? && cur.value.eventId !in visited
      invariant cur.Some? ==> cur.value in events
      invariant out + Walk(events, cur, visited) == Walk(events, root, {})
      decreases Ids(events) - visited
    {
      var id := cur.value.eventId;
      var next := if id in nextByPrev then Some(nextByPrev[id]) else None;
      assert next == Next(events, id);
      WalkStep(events, cur, visited, out, next);
      visited := visited + {id};
      out := out + [cur.value];
      cur := next;
    }
  }

  lemma {:induction false} WalkStep(events: seq<Item>, cur: Option<Item>, visited: set<string>, out: seq<Item>,
                                    next: Option<Item>)
    requires cur.Some? && cur.value in events && cur.value.eventId !in visited
      && next == Next(events, cur.value.eventId)
    ensures out + Walk(events, cur, visited) == out + [cur.value] + Walk(events, next, visited + {cur.value.eventId})
  {
  }

  method SortHistoryByLinks(events: seq<Item>) returns (sorted: seq<Item>)
    ensures sorted == SortHistory(events)
  {
    var nextByPrev, prevCount := LinkMaps(events);
    var root := Start(events);
    if root.None? {
      return SortByVersion(events);
    }
    var fork := AnyAboveOne(prevCount);
    ForkIsCount(events, prevCount);
    if fork {
      return SortByVersion(events);
    }
    var out := FollowLinks(events, nextByPrev, root);
    if |out| != |events| {
      return SortByVersion(events);
    }
    return out;
  }

  lemma ForkIsCount(events: seq<Item>, prevCount: map<string, nat>)
    requires forall id :: (if id in prevCount then prevCount[id] else 0) == CountNaming(events, id)
    ensures HasFork(events) <==> exists id | id in prevCount :: prevCount[id] > 1
  {
    if HasFork(events) {
      var i, j :| 0 <= i < j < |events| && !NoPrev(events[i]) && Names(events[j], events[i].prev.value);
      var id := events[i].prev.value;
      assert Names(events[i], id);
      CountFork(events, id);
      assert id in prevCount && prevCount[id] > 1;
    }
    if id :| id in prevCount && prevCount[id] > 1 {
      CountFork(events, id);
    }
  }

  // ----- what it returns on any input -----

  // Each event names the one before it.
  predicate LinkedPairwise(s: seq<Item>) {
    forall i | 0 < i < |s| :: Names(s[i], s[i - 1].eventId)
  }

  predicate DistinctIds(s: seq<Item>) {
    forall i, j | 0 <= i < j < |s| :: s[i].eventId != s[j].eventId
  }

  lemma {:induction false} WalkIsAChain(events: seq<Item>, cur: Option<Item>, visited: set<string>)
    requires cur.Some? ==> cur.value in events
    ensures var out := Walk(events, cur, visited);
      && LinkedPairwise(out) && DistinctIds(out)
      && (forall e | e in out :: e in events && e.eventId !in visited)
      && (out != [] ==> cur == Some(out[0]))
    decreases Ids(events) - visited
  {
    if cur.Some? && cur.value.eventId !in visited {
      var id := cur.value.eventId;
      WalkIsAChain(events, Next(events, id), visited + {id});
    }
  }

  // As many events with different ids as there are events: a permutation.
  lemma DistinctIsPermutation(out: seq<Item>, events: seq<Item>)
    requires DistinctIds(out) && |out| == |events| && forall e | e in out :: e in events
    ensures multiset(out) == multiset(events)
  {
    forall e ensures multiset(out)[e] <= multiset(events)[e] {
      AtMostOnce(out, e);
      if e in out {
        assert e in multiset(events);
      }
    }
    assert multiset(out) <= multiset(events);
    assert |multiset(events) - multiset(out)| == 0;
  }

  lemma {:induction false} AtMostOnce(out: seq<Item>, e: Item)
    requires DistinctIds(out)
    ensures multiset(out)[e] == if e in out then 1 else 0
    decreases |out|
  {
    if out != [] {
      var init := out[..|out| - 1];
      assert out == init + [out[|out| - 1]];
      AtMostOnce(init, e);
    }
  }

  // sortHistory returns a permutation of its input, whatever cycles, forks,
  // repeated ids or missing events it contains; and it is either sorted by
  // version or one chain in which every event names the one before it.
  lemma SortHistoryPermutes(events: seq<Item>)
    ensures multiset(SortHistory(events)) == multiset(events)
    ensures var r := SortHistory(events); Sorted(r) || (LinkedPairwise(r) && DistinctIds(r) && r != [] && NoPrev(r[0]))
  {
    var start := Start(events);
    if start.Some? && !HasFork(events) {
      WalkIsAChain(events, start, {});
      var chain := Walk(events, start, {});
      if |chain| == |events| {
        DistinctIsPermutation(chain, events);
      }
    }
  }

  // ----- what it returns on the histories a server produces -----

  // Event ids are different, and an event that names another is one version on.
  ghost predicate IsHistory(h: seq<Item>) {
    && DistinctIds(h)
    && forall a, b | a in h && b in h && Names(b, a.eventId) :: b.version == a.version + 1
  }

  // Every event comes after the one it names, also when events are missing or
  // the history forks.
  lemma EventsFollowPredecessors(h: seq<Item>, i: nat, j: nat)
    requires IsHistory(h) && i < |SortHistory(h)| && j < |SortHistory(h)|
    requires Names(SortHistory(h)[j], SortHistory(h)[i].eventId)
    ensures i < j
  {
    var r := SortHistory(h);
    SortHistoryPermutes(h);
    SameElements(r, h);
    assert r[i] in h && r[j] in h;
    if LinkedPairwise(r) && j > 0 {
      assert Names(r[j], r[j - 1].eventId);
    }
  }

  // The page presents the last event as the current version: no version is higher.
  lemma LastIsLatest(h: seq<Item>, e: Item)
    requires IsHistory(h) && e in h
    ensures SortHistory(h) != [] && e.version <= SortHistory(h)[|SortHistory(h)| - 1].version
  {
    var r := SortHistory(h);
    SortHistoryPermutes(h);
    SameElements(r, h);
    LastIsHighest(h, r, e);
  }

  lemma LastIsHighest(h: seq<Item>, r: seq<Item>, e: Item)
    requires IsHistory(h) && (forall x | x in r :: x in h) && (Sorted(r) || LinkedPairwise(r)) && e in r
    ensures e.version <= r[|r| - 1].version
  {
    var i :| 0 <= i < |r| && r[i] == e;
    if Sorted(r) {
      assert i < |r| - 1 ==> Before(r[i], r[|r| - 1]);
    } else {
      LinkedVersions(h, r, i, |r| - 1);
    }
  }

  lemma {:induction false} LinkedVersions(h: seq<Item>, r: seq<Item>, i: nat, j: nat)
    requires IsHistory(h) && LinkedPairwise(r) && forall e | e in r :: e in h
    requires i <= j < |r|
    ensures r[j].version == r[i].version + (j - i)
    decreases j
  {
    if i < j {
      LinkedVersions(h, r, i, j - 1);
      assert r[j] in h && r[j - 1] in h && Names(r[j], r[j - 1].eventId);
    }
  }

  lemma SameElements(r: seq<Item>, h: seq<Item>)
    requires multiset(r) == multiset(h)
    ensures |r| == |h| && forall e :: e in r <==> e in h
  {
    assert |multiset(r)| == |r| && |multiset(h)| == |h|;
    forall e ensures e in r <==> e in h {
      assert e in r <==> e in multiset(r);
      assert e in h <==> e in multiset(h);
    }
  }

  // ----- complete histories without forks -----

  // Events in log order where each event but a root names an earlier one.
  ghost predicate IsComplete(h: seq<Item>) {
    && IsHistory(h)
    && (forall i, j | 0 <= i < j < |h| :: h[i].index < h[j].index)
    && AllLinked(h)
  }

  predicate AllLinked(h: seq<Item>) {
    forall k | 0 <= k < |h| :: RootOrLinked(h, k)
  }

  predicate RootOrLinked(h: seq<Item>, k: nat)
    requires k < |h|
  {
    IsRoot(h[k]) || exists j | 0 <= j < k :: Names(h[k], h[j].eventId)
  }

  predicate OneRoot(h: seq<Item>) {
    forall k | 0 < k < |h| :: !IsRoot(h[k])
  }

  lemma TwoNamesFork(h: seq<Item>, i: nat, j: nat, eventId: string)
    requires i < j < |h| && Names(h[i], eventId) && Names(h[j], eventId)
    ensures HasFork(h)
  {
  }

  // Without a second root, each event names the one just before it, or there is
  // a fork.
  lemma {:induction false} ChainOrFork(h: seq<Item>, k: nat)
    requires AllLinked(h) && OneRoot(h) && 0 < k < |h|
    ensures Names(h[k], h[k - 1].eventId) || HasFork(h)
    decreases k
  {
    assert RootOrLinked(h, k);
    var j :| 0 <= j < k && Names(h[k], h[j].eventId);
    if j < k - 1 {
      ChainOrFork(h, j + 1);
      if Names(h[j + 1], h[j].eventId) {
        TwoNamesFork(h, j + 1, k, h[j].eventId);
      }
    }
  }

  lemma LinkedIsSorted(h: seq<Item>)
    requires IsHistory(h) && LinkedPairwise(h)
    ensures Sorted(h)
  {
    forall i, j | 0 <= i < j < |h| ensures Before(h[i], h[j]) {
      LinkedVersions(h, h, i, j);
    }
  }

  lemma NextInChain(h: seq<Item>, k: nat)
    requires LinkedPairwise(h) && DistinctIds(h) && !HasFork(h) && k < |h| && NoPrev(h[0])
    ensures Next(h, h[k].eventId) == if k + 1 < |h| then Some(h[k + 1]) else None
  {
    var next := Next(h, h[k].eventId);
    if k + 1 < |h| {
      assert Names(h[k + 1], h[k].eventId);
    }
    if next.Some? {
      var m :| 0 <= m < |h| && h[m] == next.value;
      assert m > 0 && Names(h[m], h[m - 1].eventId);
    }
  }

  lemma {:induction false} WalkOfChain(h: seq<Item>, k: nat, visited: set<string>)
    requires LinkedPairwise(h) && DistinctIds(h) && !HasFork(h) && k < |h| && NoPrev(h[0])
    requires forall i | k <= i < |h| :: h[i].eventId !in visited
    ensures Walk(h, Some(h[k]), visited) == h[k..]
    decreases |h| - k
  {
    NextInChain(h, k);
    if k + 1 < |h| {
      WalkOfChain(h, k + 1, visited + {h[k].eventId});
    }
  }

  // On a complete history without forks the chain walk and the fallback sort
  // agree, and both leave the events in log order.
  lemma ForkFreeKeepsLogOrder(h: seq<Item>)
    requires IsComplete(h) && OneRoot(h) && !HasFork(h)
    ensures SortHistory(h) == h && SortByVersion(h) == h
    ensures h != [] ==> Walk(h, Start(h), {}) == h
  {
    forall k | 0 < k < |h| ensures Names(h[k], h[k - 1].eventId) {
      ChainOrFork(h, k);
    }
    LinkedIsSorted(h);
    SortKeepsSorted(h);
    if h != [] {
      assert RootOrLinked(h, 0);
      WalkOfChain(h, 0, {});
    }
  }

  // sortHistory takes the result of the chain walk.
  ghost predicate TakesChain(h: seq<Item>) {
    Start(h).Some? && !HasFork(h) && |Walk(h, Start(h), {})| == |h|
  }

  // On a complete history it does so exactly when the history is one chain.
  lemma ChainIsTakenExactly(h: seq<Item>)
    requires IsComplete(h) && h != []
    ensures TakesChain(h) <==> OneRoot(h) && !HasFork(h)
  {
    if OneRoot(h) && !HasFork(h) {
      ForkFreeKeepsLogOrder(h);
    }
    assert RootOrLinked(h, 0);
    if TakesChain(h) {
      var r := Walk(h, Start(h), {});
      WalkIsAChain(h, Start(h), {});
      DistinctIsPermutation(r, h);
      SameElements(r, h);
      forall k | 0 < k < |h| ensures !IsRoot(h[k]) {
        if IsRoot(h[k]) {
          RootIsFirst(r, h[0]);
          RootIsFirst(r, h[k]);
        }
      }
    }
  }

  lemma RootIsFirst(r: seq<Item>, e: Item)
    requires LinkedPairwise(r) && e in r && IsRoot(e)
    ensures r[0] == e
  {
    var i :| 0 <= i < |r| && r[i] == e;
    assert i > 0 ==> Names(r[i], r[i - 1].eventId);
  }
}
