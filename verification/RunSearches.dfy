// What the search page of client/consult.html shows of a running server: GET /entries
// finds rows of the index, newest first, and reads each from the published part of
// the log.
module RunSearches {
  import opened Wrappers
  import opened NotaryEvent
  import opened NotaryServer
  import Q = IndexQueries
  import H = RunHistories

  // ReadRawByIndex; an entry that cannot be read is left out of the answer.
  function Reader(s: State): nat -> Option<Event> {
    (k: nat) => var entry := H.ReadEntry(s, k); if entry.Ok? then Some(entry.value) else None
  }

  lemma {:induction false} ReaderIsExact(s: State)
    requires s.published <= |s.log|
    ensures Q.ReadsBelow(Reader(s), s.published)
    ensures forall k: nat | k < s.published :: Reader(s)(k) == Some(s.log[k])
  {
    forall k: nat ensures Reader(s)(k) == if k < s.published then Some(s.log[k]) else None {
      H.ReadEntryIsExact(s, k);
    }
  }

  // A published row that the filters select.
  ghost predicate IsHit(s: State, q: Q.EntriesQuery, k: nat) {
    k in s.table && k < s.published && q.Asks(s.table[k])
  }

  lemma {:induction false} ReadableAreHits(s: State, q: Q.EntriesQuery)
    requires q.desc && s.published <= |s.log|
    ensures var rows := Q.Readable(Reader(s), Q.Matches(s.table, q));
      Q.Descending(rows) && forall k: nat :: k in rows <==> IsHit(s, q, k)
  {
    ReaderIsExact(s);
    Q.MatchesAreExact(s.table, q);
    PublishedPart(Reader(s), Q.Matches(s.table, q), s.published);
  }

  lemma {:induction false} PublishedPart<Raw>(read: nat -> Option<Raw>, indexes: seq<nat>, published: nat)
    requires Q.ReadsBelow(read, published) && Q.Descending(indexes)
    ensures Q.Descending(Q.Readable(read, indexes))
    ensures forall k: nat :: k in Q.Readable(read, indexes) <==> k in indexes && k < published
    decreases |indexes|
  {
    if indexes != [] {
      var init, last := indexes[..|indexes| - 1], indexes[|indexes| - 1];
      PublishedPart(read, init, published);
      assert indexes == init + [last];
      var rows := Q.Readable(read, init);
      forall i | 0 <= i < |rows| ensures rows[i] > last {
        assert rows[i] in rows;
      }
    }
  }

  // In every run, whatever the filters, going through the pages shows exactly the
  // published events that they select, newest first, with their log entries; unless
  // the ten newest rows they select are unpublished and another one is published.
  // Then it shows nothing at all.
  lemma {:induction false} EveryRunIsBrowsed(cfg: Config, actions: seq<Action>, q: Q.EntriesQuery)
    requires q.desc
    ensures var s := Run(cfg, actions);
      var shown := Q.BrowsePages(Q.Matches(s.table, q), Reader(s), 1);
      if Q.NewestHide(Q.Matches(s.table, q), s.published) then shown == [] && exists k: nat :: IsHit(s, q, k)
      else Q.Descending(shown) && forall k: nat :: k in shown <==> IsHit(s, q, k)
    ensures var s := Run(cfg, actions);
      forall k: nat | IsHit(s, q, k) :: k < |s.log| && Reader(s)(k) == Some(s.log[k])
        && s.table[k] == RowOf(cfg, s.log[k])
  {
    var s := Run(cfg, actions);
    RunKeepsInv(cfg, actions);
    ReaderIsExact(s);
    var matches := Q.Matches(s.table, q);
    Q.MatchesAreExact(s.table, q);
    Q.BrowsingNewestFirst(matches, Reader(s), s.published);
    ReadableAreHits(s, q);
    if Q.NewestHide(matches, s.published) {
      var last := matches[|matches| - 1];
      assert last in matches;
      assert IsHit(s, q, last);
    }
  }
}
