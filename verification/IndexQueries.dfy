// The queries on the index: server/internal/index/lookup.go and search.go, and
// the pages of GET /entries built on them (server/internal/api/query.go).
module IndexQueries {
  import opened Wrappers
  import opened Text
  import NotaryServer

  type Row = NotaryServer.Row
  type Table = map<nat, Row>

  // ----- SELECT log_index ... ORDER BY log_index -----

  // The keys below n of the rows that satisfy where, in ascending order.
  function Listing(table: Table, where: Row -> bool, n: nat): (keys: seq<nat>)
    ensures |keys| <= n
  {
    if n == 0 then []
    else Listing(table, where, n - 1) + if n - 1 in table && where(table[n - 1]) then [n - 1] else []
  }

  predicate Ascending(s: seq<nat>) {
    forall i, j | 0 <= i < j < |s| :: s[i] < s[j]
  }

  lemma {:induction false} ListingIsExact(table: Table, where: Row -> bool, n: nat)
    ensures Ascending(Listing(table, where, n))
    ensures forall k :: k in Listing(table, where, n) <==> k < n && k in table && where(table[k])
  {
    if n > 0 {
      ListingIsExact(table, where, n - 1);
      var s := Listing(table, where, n - 1);
      assert forall i | 0 <= i < |s| :: s[i] in s;
    }
  }

  // Above every key.
  ghost function Bound(keys: set<nat>): (n: nat)
    ensures forall k | k in keys :: k < n
  {
    if keys == {} then 0
    else
      var k :| k in keys;
      var n := Bound(keys - {k});
      assert keys == keys - {k} + {k};
      if k < n then n else k + 1
  }

  ghost function Select(table: Table, where: Row -> bool): seq<nat> {
    Listing(table, where, Bound(table.Keys))
  }

  lemma SelectIsExact(table: Table, where: Row -> bool)
    ensures Ascending(Select(table, where))
    ensures forall k :: k in Select(table, where) <==> k in table && where(table[k])
  {
    ListingIsExact(table, where, Bound(table.Keys));
  }

  lemma {:induction false} AscendingIsUnique(s: seq<nat>, t: seq<nat>)
    requires Ascending(s) && Ascending(t) && forall k :: k in s <==> k in t
    ensures s == t
    decreases |s|
  {
    assert s != [] ==> s[0] in s;
    assert t != [] ==> t[0] in t;
    if s != [] {
      var x, y := s[|s| - 1], t[|t| - 1];
      assert x in t && y in s;
      var s', t' := s[..|s| - 1], t[..|t| - 1];
      forall k ensures k in s' <==> k in t' {
        assert k in s' <==> k in s && k != x;
        assert k in t' <==> k in t && k != x;
      }
      AscendingIsUnique(s', t');
    }
  }

  // The database: rows in key order. These loops stand for the SQL engine.
  method SelectRows(table: Table, where: Row -> bool) returns (keys: seq<nat>)
    ensures keys == Select(table, where)
  {
    var todo, n := table.Keys, 0;
    while todo != {}
      invariant todo <= table.Keys
      invariant forall k | k in table :: k in todo || k < n
    {
      var k :| k in todo;
      n := if k < n then n else k + 1;
      todo := todo - {k};
    }
    keys := Listing(table, where, n);
    ListingIsExact(table, where, n);
    SelectIsExact(table, where);
    AscendingIsUnique(keys, Select(table, where));
  }

  // ----- lookup.go -----

  method GetIndexesByDocId(table: Table, docId: string) returns (indexes: Result<seq<nat>>)
    ensures indexes == if Trim(GoSpace, docId) == "" then Err else Ok(IndexesOf(table, Trim(GoSpace, docId)))
  {
    var id := Trim(GoSpace, docId);
    if id == "" {
      return Err;
    }
    var keys := SelectRows(table, IsFor(id));
    indexes := Ok(keys);
  }

  function IsFor(docId: string): Row -> bool {
    (row: Row) => row.docId == docId
  }

  ghost function IndexesOf(table: Table, docId: string): seq<nat> {
    Select(table, IsFor(docId))
  }

  // GetLatestIndexByDocID answers with the last of these.
  lemma LatestIsLastIndex(table: Table, docId: string, latest: Option<nat>)
    requires NotaryServer.IsLatest(table, docId, latest)
    ensures var s := IndexesOf(table, docId); latest == if s == [] then None else Some(s[|s| - 1])
  {
    var s := IndexesOf(table, docId);
    SelectIsExact(table, IsFor(docId));
    if s != [] {
      assert s[|s| - 1] in s;
      assert NotaryServer.Names(table, s[|s| - 1], docId);
    }
    if latest.Some? {
      assert NotaryServer.Names(table, latest.value, docId);
      assert latest.value in s;
    }
  }

  // GetByDocHash: leaf hash and index of the last row with this document hash.
  method GetByDocHash(table: Table, docHash: string) returns (found: Option<(string, nat)>)
    ensures found.None? ==> forall k | k in table :: table[k].docHash != docHash
    ensures found.Some? ==>
      var (leafHash, k) := found.value;
      && k in table && table[k].docHash == docHash && leafHash == table[k].leafHash
      && forall j | j in table && table[j].docHash == docHash :: j <= k
  {
    var where := (row: Row) => row.docHash == docHash;
    var keys := SelectRows(table, where);
    SelectIsExact(table, where);
    if keys == [] {
      return None;
    }
    assert keys[|keys| - 1] in keys;
    found := Some((table[keys[|keys| - 1]].leafHash, keys[|keys| - 1]));
  }

  // ----- search.go -----

  datatype SearchParams = SearchParams(
    docId: string, issuerEntityId: string, fromInclusive: Option<int>, toExclusive: Option<int>,
    limit: int, offset: int, order: string)

  // The SQL that SearchIndexes puts together, clause by clause.
  datatype Condition = DocIs(docId: string) | IssuerIs(issuer: string) | NotBefore(time: int) | Before(time: int)

  datatype Query = Query(conditions: seq<Condition>, desc: bool, limit: Option<int>, offset: Option<int>)

  predicate Holds(c: Condition, row: Row) {
    match c
    case DocIs(docId) => row.docId == docId
    case IssuerIs(issuer) => row.issuerEntityId == issuer
    case NotBefore(time) => row.recordedAt >= time
    case Before(time) => row.recordedAt < time
  }

  predicate AllHold(conditions: seq<Condition>, row: Row) {
    forall i | 0 <= i < |conditions| :: Holds(conditions[i], row)
  }

  function Where(conditions: seq<Condition>): Row -> bool {
    (row: Row) => AllHold(conditions, row)
  }

  // LIMIT and OFFSET; a negative limit is none, a negative offset is zero.
  function Cut(rows: seq<nat>, limit: Option<int>, offset: Option<int>): seq<nat> {
    var rest := if offset.None? || offset.value <= 0 then rows
                else if offset.value >= |rows| then [] else rows[offset.value..];
    if limit.None? || limit.value < 0 || limit.value >= |rest| then rest else rest[..limit.value]
  }

  // LIMIT 0 gives no rows, an OFFSET behind the end neither; what is left are
  // neighbouring rows.
  lemma {:induction false} CutIsExact(rows: seq<nat>, limit: Option<int>, offset: Option<int>)
    ensures var start := if offset.Some? && offset.value > 0 then offset.value else 0;
      var left := if start < |rows| then |rows| - start else 0;
      && |Cut(rows, limit, offset)| == (if limit.Some? && 0 <= limit.value < left then limit.value else left)
      && forall i | 0 <= i < |Cut(rows, limit, offset)| ::
           start + i < |rows| && Cut(rows, limit, offset)[i] == rows[start + i]
  {
  }

  function Reversed(s: seq<nat>): (r: seq<nat>)
    ensures |r| == |s| && forall i | 0 <= i < |s| :: r[i] == s[|s| - 1 - i]
  {
    if s == [] then [] else Reversed(s[1..]) + [s[0]]
  }

  // Running the query. OFFSET without LIMIT is a syntax error.
  ghost function Answer(table: Table, q: Query): Result<seq<nat>> {
    if q.limit.None? && q.offset.Some? then Err
    else
      var rows := Select(table, Where(q.conditions));
      Ok(Cut(if q.desc then Reversed(rows) else rows, q.limit, q.offset))
  }

  // What the parameters ask for.
  predicate Selects(p: SearchParams, row: Row) {
    && (Trim(GoSpace, p.docId) != "" ==> row.docId == Trim(GoSpace, p.docId))
    && (Trim(GoSpace, p.issuerEntityId) != "" ==> row.issuerEntityId == Trim(GoSpace, p.issuerEntityId))
    && (p.fromInclusive.Some? ==> p.fromInclusive.value <= row.recordedAt)
    && (p.toExclusive.Some? ==> row.recordedAt < p.toExclusive.value)
  }

  predicate IsDesc(order: string) { Lower(Trim(GoSpace, order)) == "desc" }

  // Whatever the case and the white space around it.
  lemma {:induction false} IsDescExactly(order: string)
    ensures IsDesc(order) <==> exists t | IsTrimOf(GoSpace, order, t) :: IsLowerOf(t, "desc")
  {
    hide Trim, IsTrimOf, IsLowerOf, Lower;
    var t := Trim(GoSpace, order);
    TrimIsExact(GoSpace, order, t);
    LowerIsExact(t, "desc");
    forall u | IsTrimOf(GoSpace, order, u) ensures u == t {
      TrimIsExact(GoSpace, order, u);
    }
  }

  // Filters that are blank select everything, the others the rows with that id; and
  // the time is within the bounds that are given.
  ghost predicate Picks(docId: string, issuerEntityId: string, from: Option<int>, to: Option<int>, row: Row) {
    && (AllSpace(GoSpace, docId) || (row.docId != "" && IsTrimOf(GoSpace, docId, row.docId)))
    && (AllSpace(GoSpace, issuerEntityId)
        || (row.issuerEntityId != "" && IsTrimOf(GoSpace, issuerEntityId, row.issuerEntityId)))
    && (from.Some? ==> row.recordedAt >= from.value) && (to.Some? ==> row.recordedAt < to.value)
  }

  lemma {:induction false} SelectsExactly(p: SearchParams, row: Row)
    ensures Selects(p, row) <==> Picks(p.docId, p.issuerEntityId, p.fromInclusive, p.toExclusive, row)
  {
    hide Trim, IsTrimOf, AllSpace;
    BlankIsAllSpace(GoSpace, p.docId);
    BlankIsAllSpace(GoSpace, p.issuerEntityId);
    TrimIsExact(GoSpace, p.docId, row.docId);
    TrimIsExact(GoSpace, p.issuerEntityId, row.issuerEntityId);
  }

  function Wanted(p: SearchParams): Row -> bool {
    (row: Row) => Selects(p, row)
  }

  method BuildConditions(p: SearchParams) returns (conditions: seq<Condition>)
    ensures forall row :: AllHold(conditions, row) <==> Selects(p, row)
  {
    conditions := [];
    var docId := Trim(GoSpace, p.docId);
    if docId != "" {
      conditions := And(conditions, DocIs(docId));
    }
    var issuer := Trim(GoSpace, p.issuerEntityId);
    if issuer != "" {
      conditions := And(conditions, IssuerIs(issuer));
    }
    if p.fromInclusive.Some? {
      conditions := And(conditions, NotBefore(p.fromInclusive.value));
    }
    if p.toExclusive.Some? {
      conditions := And(conditions, Before(p.toExclusive.value));
    }
  }

  function And(conditions: seq<Condition>, c: Condition): (r: seq<Condition>)
    ensures forall row :: AllHold(r, row) <==> AllHold(conditions, row) && Holds(c, row)
  {
    assert forall row :: AllHold(conditions + [c], row) ==> AllHold(conditions, row) && Holds(c, row) by {
      forall row | AllHold(conditions + [c], row) ensures AllHold(conditions, row) && Holds(c, row) {
        assert forall i | 0 <= i < |conditions| :: (conditions + [c])[i] == conditions[i];
        assert (conditions + [c])[|conditions|] == c;
      }
    }
    conditions + [c]
  }

  // The matches in the order asked for, and one page of them.
  ghost function Ordered(table: Table, p: SearchParams): seq<nat> {
    var rows := Select(table, Wanted(p));
    if IsDesc(p.order) then Reversed(rows) else rows
  }

  function Drop(rows: seq<nat>, offset: int): seq<nat> {
    if offset <= 0 then rows else if offset >= |rows| then [] else rows[offset..]
  }

  function Take(rows: seq<nat>, limit: int): seq<nat> {
    if limit <= 0 || limit >= |rows| then rows else rows[..limit]
  }

  // The indexes of a page and the number of all matches.
  method SearchIndexes(table: Table, p: SearchParams) returns (r: Result<(seq<nat>, nat)>)
    ensures r == Ok((Take(Drop(Ordered(table, p), p.offset), p.limit), |Ordered(table, p)|))
  {
    var conditions := BuildConditions(p);
    SelectSame(table, Where(conditions), Wanted(p));
    var count := SelectRows(table, Where(conditions));
    var q := Query(conditions, IsDesc(p.order), None, None);
    if p.limit > 0 {
      q := q.(limit := Some(p.limit));
    } else if p.offset > 0 {
      q := q.(limit := Some(-1));
    }
    if p.offset > 0 {
      q := q.(offset := Some(p.offset));
    }
    var rows := RunQuery(table, q);
    if rows.Err? {
      return Err;
    }
    r := Ok((rows.value, |count|));
  }

  // The engine again.
  method RunQuery(table: Table, q: Query) returns (rows: Result<seq<nat>>)
    ensures rows == Answer(table, q)
  {
    if q.limit.None? && q.offset.Some? {
      return Err;
    }
    var keys := SelectRows(table, Where(q.conditions));
    rows := Ok(Cut(if q.desc then Reversed(keys) else keys, q.limit, q.offset));
  }

  lemma SelectSame(table: Table, f: Row -> bool, g: Row -> bool)
    requires forall row :: f(row) <==> g(row)
    ensures Select(table, f) == Select(table, g)
  {
    SelectIsExact(table, f);
    SelectIsExact(table, g);
    AscendingIsUnique(Select(table, f), Select(table, g));
  }

  // ----- query.go -----

  // A checked query: limit 0 is none. Reading the parameters is not modelled.
  datatype EntriesQuery = EntriesQuery(
    docId: string, issuerEntityId: string, fromInclusive: Option<int>, toExclusive: Option<int>,
    limit: nat, offset: nat, desc: bool)
  {
    ghost predicate Asks(row: Row) {
      Picks(docId, issuerEntityId, fromInclusive, toExclusive, row)
    }

    function ToSearchParams(): SearchParams {
      SearchParams(docId, issuerEntityId, fromInclusive, toExclusive, limit, offset, if desc then "desc" else "asc")
    }
  }

  datatype EntriesResponse<Raw> = EntriesResponse(
    indexes: seq<nat>, entries: seq<Raw>, count: nat, totalCount: nat, offset: nat, limit: nat, hasMore: bool)

  // The entries that can be read, with their indexes.
  function Readable<Raw>(read: nat -> Option<Raw>, indexes: seq<nat>): seq<nat> {
    if indexes == [] then []
    else
      var rest, last := Readable(read, indexes[..|indexes| - 1]), indexes[|indexes| - 1];
      if read(last).Some? then rest + [last] else rest
  }

  function Entries<Raw>(read: nat -> Option<Raw>, indexes: seq<nat>): seq<Raw> {
    if indexes == [] then []
    else
      var rest, last := Entries(read, indexes[..|indexes| - 1]), indexes[|indexes| - 1];
      if read(last).Some? then rest + [read(last).value] else rest
  }

  // All matches, whatever the page.
  ghost function Matches(table: Table, q: EntriesQuery): seq<nat> {
    Ordered(table, q.(limit := 0, offset := 0).ToSearchParams())
  }

  function Page(matches: seq<nat>, limit: nat, offset: nat): seq<nat> {
    Take(Drop(matches, offset), limit)
  }

  // Limit and offset do not change what matches.
  lemma {:induction false} SameMatches(table: Table, q: EntriesQuery)
    ensures Ordered(table, q.ToSearchParams()) == Matches(table, q)
  {
    SelectSame(table, Wanted(q.ToSearchParams()), Wanted(q.(limit := 0, offset := 0).ToSearchParams()));
  }

  method SearchEntries<Raw>(table: Table, read: nat -> Option<Raw>, q: EntriesQuery) returns (r: EntriesResponse<Raw>)
    ensures var page := Page(Matches(table, q), q.limit, q.offset);
      r.indexes == Readable(read, page) && r.entries == Entries(read, page)
    ensures r.count == |r.entries| && r.totalCount == |Matches(table, q)|
    ensures r.hasMore <==> q.offset + |r.indexes| < r.totalCount
    ensures r.offset == q.offset && r.limit == if q.limit == 0 then |r.indexes| else q.limit
  {
    hide Selects, IsDesc, Trim;
    SameMatches(table, q);
    var found := SearchIndexes(table, q.ToSearchParams());
    var (page, total) := found.value;
    var entries: seq<Raw>, okIndexes: seq<nat> := [], [];
    for i := 0 to |page|
      invariant entries == Entries(read, page[..i]) && okIndexes == Readable(read, page[..i])
    {
      assert page[..i + 1][..i] == page[..i];
      var raw := read(page[i]);
      if raw.Some? {
        entries := entries + [raw.value];
        okIndexes := okIndexes + [page[i]];
      }
    }
    assert page[..|page|] == page;
    r := EntriesResponse(okIndexes, entries, |entries|, total, q.offset,
                         if q.limit == 0 then |okIndexes| else q.limit, q.offset + |okIndexes| < total);
  }

  // The matches are the rows the filters select, each once, in the order asked for.
  lemma MatchesAreExact(table: Table, q: EntriesQuery)
    ensures forall k :: k in Matches(table, q) <==> k in table && q.Asks(table[k])
    ensures var s := Matches(table, q);
      forall i, j | 0 <= i < j < |s| :: if q.desc then s[i] > s[j] else s[i] < s[j]
  {
    hide Selects, Picks;
    var p := q.(limit := 0, offset := 0).ToSearchParams();
    SelectIsExact(table, Wanted(p));
    OrderIsRead(p.order);
    ReversedHasSame(Select(table, Wanted(p)));
    forall row ensures Selects(p, row) <==> q.Asks(row) {
      SelectsExactly(p, row);
    }
  }

  lemma OrderIsRead(order: string)
    requires order == "desc" || order == "asc"
    ensures IsDesc(order) <==> order == "desc"
  {
  }

  lemma ReversedHasSame(s: seq<nat>)
    ensures forall k :: k in Reversed(s) <==> k in s
  {
  }

  // has_more is set exactly when a match lies beyond the page or a match on the
  // page could not be read.
  lemma HasMoreMeaning<Raw>(matches: seq<nat>, read: nat -> Option<Raw>, limit: nat, offset: nat)
    ensures var page := Page(matches, limit, offset);
      offset + |Readable(read, page)| < |matches| <==>
        offset + |page| < |matches| || exists k | k in page :: read(k).None?
  {
    ReadableIsAll(read, Page(matches, limit, offset));
  }

  lemma {:induction false} ReadableIsAll<Raw>(read: nat -> Option<Raw>, indexes: seq<nat>)
    ensures |Readable(read, indexes)| <= |indexes|
    ensures |Readable(read, indexes)| == |indexes| <==> forall k | k in indexes :: read(k).Some?
    decreases |indexes|
  {
    if indexes != [] {
      var init := indexes[..|indexes| - 1];
      ReadableIsAll(read, init);
      assert indexes == init + [indexes[|indexes| - 1]];
    }
  }

  // Entries and indexes of a response belong together.
  lemma {:induction false} EntriesFollowIndexes<Raw>(read: nat -> Option<Raw>, indexes: seq<nat>, i: nat)
    requires i < |Readable(read, indexes)|
    ensures |Entries(read, indexes)| == |Readable(read, indexes)|
    ensures read(Readable(read, indexes)[i]) == Some(Entries(read, indexes)[i])
    decreases |indexes|
  {
    var init, last := indexes[..|indexes| - 1], indexes[|indexes| - 1];
    EntriesAsMany(read, init);
    if i < |Readable(read, init)| {
      EntriesFollowIndexes(read, init, i);
    }
  }

  lemma {:induction false} EntriesAsMany<Raw>(read: nat -> Option<Raw>, indexes: seq<nat>)
    ensures |Entries(read, indexes)| == |Readable(read, indexes)|
    decreases |indexes|
  {
    if indexes != [] {
      EntriesAsMany(read, indexes[..|indexes| - 1]);
    }
  }

  lemma {:induction false} ReadableOfParts<Raw>(read: nat -> Option<Raw>, a: seq<nat>, b: seq<nat>)
    ensures Readable(read, a + b) == Readable(read, a) + Readable(read, b)
    decreases |b|
  {
    if b == [] {
      assert a + b == a;
    } else {
      ReadableOfParts(read, a, b[..|b| - 1]);
      assert (a + b)[..|a + b| - 1] == a + b[..|b| - 1];
    }
  }

  // What a client collects that asks for the next page as long as has_more is set.
  function FollowPages<Raw>(matches: seq<nat>, read: nat -> Option<Raw>, limit: nat, offset: nat): seq<nat>
    requires limit > 0
    decreases |matches| - offset
  {
    var page := Readable(read, Page(matches, limit, offset));
    if offset + |page| < |matches| then page + FollowPages(matches, read, limit, offset + limit) else page
  }

  // It gets every match from its offset on that can be read, each once and in
  // order, for every page size; from offset 0, all of them.
  lemma {:induction false} FollowPagesIsExact<Raw>(matches: seq<nat>, read: nat -> Option<Raw>, limit: nat, offset: nat)
    requires limit > 0
    ensures FollowPages(matches, read, limit, offset) == Readable(read, Drop(matches, offset))
    decreases |matches| - offset
  {
    var page := Page(matches, limit, offset);
    if offset + |Readable(read, page)| < |matches| {
      FollowPagesIsExact(matches, read, limit, offset + limit);
      SplitPage(matches, read, limit, offset);
    } else {
      ReadableIsAll(read, page);
      PageThenRest(matches, limit, offset);
    }
  }

  lemma SplitPage<Raw>(matches: seq<nat>, read: nat -> Option<Raw>, limit: nat, offset: nat)
    requires limit > 0
    ensures Readable(read, Drop(matches, offset)) ==
      Readable(read, Page(matches, limit, offset)) + Readable(read, Drop(matches, offset + limit))
  {
    PageThenRest(matches, limit, offset);
    ReadableOfParts(read, Page(matches, limit, offset), Drop(matches, offset + limit));
  }

  lemma PageThenRest(matches: seq<nat>, limit: nat, offset: nat)
    requires limit > 0
    ensures Drop(matches, offset) == Page(matches, limit, offset) + Drop(matches, offset + limit)
    ensures offset + |Page(matches, limit, offset)| >= |matches| ==>
      Page(matches, limit, offset) == Drop(matches, offset)
  {
  }

  // ----- the pages of client/consult.html -----

  const PAGE_SIZE: nat := 10

  function TotalPages(totalCount: nat): nat {
    if totalCount > 0 then (totalCount + PAGE_SIZE - 1) / PAGE_SIZE else 1
  }

  // As many pages of ten as the matches need.
  lemma {:induction false} PagesAreExact(totalCount: nat)
    requires totalCount > 0
    ensures 10 * (TotalPages(totalCount) - 1) < totalCount <= 10 * TotalPages(totalCount)
  {
  }

  function RowsOfPage<Raw>(matches: seq<nat>, read: nat -> Option<Raw>, page: nat): seq<nat>
    requires page > 0
  {
    Readable(read, Page(matches, PAGE_SIZE, (page - 1) * PAGE_SIZE))
  }

  function RowsFrom<Raw>(matches: seq<nat>, read: nat -> Option<Raw>, page: nat): seq<nat>
    requires page > 0
  {
    Readable(read, Drop(matches, (page - 1) * PAGE_SIZE))
  }

  // The rows that a user sees who goes on to the next page as long as the page
  // allows it. It remembers a total of zero after a page without rows.
  function BrowsePages<Raw>(matches: seq<nat>, read: nat -> Option<Raw>, page: nat): seq<nat>
    requires page > 0
    decreases |matches| + PAGE_SIZE - page * PAGE_SIZE
  {
    var rows := RowsOfPage(matches, read, page);
    var totalCount := if rows == [] then 0 else |matches|;
    if page + 1 <= TotalPages(totalCount) then rows + BrowsePages(matches, read, page + 1) else rows
  }

  // No page without rows stands before a row.
  ghost predicate NoGapBefore<Raw>(matches: seq<nat>, read: nat -> Option<Raw>, page: nat)
    requires page > 0
  {
    forall k: nat | k >= page && RowsOfPage(matches, read, k) == [] :: RowsFrom(matches, read, k) == []
  }

  lemma {:induction false} RowsSplit<Raw>(matches: seq<nat>, read: nat -> Option<Raw>, page: nat)
    requires page > 0
    ensures RowsFrom(matches, read, page) == RowsOfPage(matches, read, page) + RowsFrom(matches, read, page + 1)
  {
    SplitPage(matches, read, PAGE_SIZE, (page - 1) * PAGE_SIZE);
  }

  lemma {:induction false} NoRowsLater<Raw>(matches: seq<nat>, read: nat -> Option<Raw>, page: nat, k: nat)
    requires 0 < page <= k && RowsFrom(matches, read, page) == []
    ensures RowsFrom(matches, read, k) == []
    decreases k - page
  {
    if page < k {
      RowsSplit(matches, read, page);
      NoRowsLater(matches, read, page + 1, k);
    }
  }

  // So the user sees every readable match from a page on, in order and once, if and
  // only if no page without readable rows comes before one of them.
  lemma {:induction false} BrowsingIsExact<Raw>(matches: seq<nat>, read: nat -> Option<Raw>, page: nat)
    requires page > 0
    ensures BrowsePages(matches, read, page) == RowsFrom(matches, read, page) <==> NoGapBefore(matches, read, page)
    decreases |matches| + PAGE_SIZE - page * PAGE_SIZE
  {
    RowsSplit(matches, read, page);
    if RowsOfPage(matches, read, page) == [] {
      NothingSeen(matches, read, page);
    } else {
      BrowseOn(matches, read, page);
      if page * PAGE_SIZE < |matches| {
        BrowsingIsExact(matches, read, page + 1);
        GapsLater(matches, read, page);
        SameRest(RowsOfPage(matches, read, page), BrowsePages(matches, read, page + 1),
          RowsFrom(matches, read, page + 1));
      } else {
        LastPage(matches, read, page);
      }
    }
  }

  lemma {:induction false} BrowseOn<Raw>(matches: seq<nat>, read: nat -> Option<Raw>, page: nat)
    requires page > 0 && RowsOfPage(matches, read, page) != []
    ensures BrowsePages(matches, read, page) ==
      RowsOfPage(matches, read, page) +
      if page * PAGE_SIZE < |matches| then BrowsePages(matches, read, page + 1) else []
    ensures page * PAGE_SIZE >= |matches| ==> RowsFrom(matches, read, page + 1) == []
  {
  }

  lemma {:induction false} SameRest(a: seq<nat>, b: seq<nat>, c: seq<nat>)
    ensures a + b == a + c <==> b == c
  {
    assert (a + b)[|a|..] == b && (a + c)[|a|..] == c;
  }

  lemma {:induction false} NothingSeen<Raw>(matches: seq<nat>, read: nat -> Option<Raw>, page: nat)
    requires page > 0 && RowsOfPage(matches, read, page) == []
    ensures BrowsePages(matches, read, page) == []
    ensures NoGapBefore(matches, read, page) <==> RowsFrom(matches, read, page) == []
  {
    if RowsFrom(matches, read, page) == [] {
      forall k: nat | k >= page ensures RowsFrom(matches, read, k) == [] {
        NoRowsLater(matches, read, page, k);
      }
    }
  }

  lemma {:induction false} GapsLater<Raw>(matches: seq<nat>, read: nat -> Option<Raw>, page: nat)
    requires page > 0 && RowsOfPage(matches, read, page) != []
    ensures NoGapBefore(matches, read, page) <==> NoGapBefore(matches, read, page + 1)
  {
  }

  lemma {:induction false} LastPage<Raw>(matches: seq<nat>, read: nat -> Option<Raw>, page: nat)
    requires page > 0 && RowsOfPage(matches, read, page) != [] && RowsFrom(matches, read, page + 1) == []
    ensures NoGapBefore(matches, read, page)
  {
    forall k: nat | k > page ensures RowsFrom(matches, read, k) == [] {
      NoRowsLater(matches, read, page + 1, k);
    }
  }

  lemma {:induction false} AllReadableAllSeen<Raw>(matches: seq<nat>, read: nat -> Option<Raw>)
    requires forall k | k in matches :: read(k).Some?
    ensures BrowsePages(matches, read, 1) == matches
  {
    forall k: nat | k >= 1 && RowsOfPage(matches, read, k) == [] ensures RowsFrom(matches, read, k) == [] {
      ReadableIsAll(read, Page(matches, PAGE_SIZE, (k - 1) * PAGE_SIZE));
    }
    BrowsingIsExact(matches, read, 1);
    ReadsAll(read, matches);
  }

  lemma {:induction false} ReadsAll<Raw>(read: nat -> Option<Raw>, indexes: seq<nat>)
    requires forall k | k in indexes :: read(k).Some?
    ensures Readable(read, indexes) == indexes
    decreases |indexes|
  {
    if indexes != [] {
      ReadsAll(read, indexes[..|indexes| - 1]);
    }
  }

  // ----- browsing the newest first, below a published size -----

  // What the page asks for: order=desc.
  predicate Descending(s: seq<nat>) {
    forall i, j | 0 <= i < j < |s| :: s[i] > s[j]
  }

  // The entries that can be read are those of the published tree.
  ghost predicate ReadsBelow<Raw>(read: nat -> Option<Raw>, published: nat) {
    forall k: nat :: read(k).Some? <==> k < published
  }

  // The ten newest matches are unpublished, and some older one is published.
  predicate NewestHide(matches: seq<nat>, published: nat) {
    |matches| >= 10 && matches[9] >= published > matches[|matches| - 1]
  }

  lemma {:induction false} ReadsNothing<Raw>(read: nat -> Option<Raw>, indexes: seq<nat>)
    ensures Readable(read, indexes) == [] <==> forall k | k in indexes :: read(k).None?
    decreases |indexes|
  {
    if indexes != [] {
      var init := indexes[..|indexes| - 1];
      ReadsNothing(read, init);
      assert indexes == init + [indexes[|indexes| - 1]];
    }
  }

  // Nothing among descending indexes can be read exactly when the last cannot be.
  lemma {:induction false} LastDecides<Raw>(read: nat -> Option<Raw>, indexes: seq<nat>, published: nat)
    requires ReadsBelow(read, published) && Descending(indexes)
    ensures Readable(read, indexes) == [] <==> indexes == [] || indexes[|indexes| - 1] >= published
  {
    ReadsNothing(read, indexes);
    if indexes != [] {
      assert indexes[|indexes| - 1] in indexes;
    }
  }

  lemma {:induction false} FirstPageRows<Raw>(matches: seq<nat>, read: nat -> Option<Raw>, published: nat)
    requires ReadsBelow(read, published) && Descending(matches)
    ensures RowsFrom(matches, read, 1) == Readable(read, matches)
    ensures RowsOfPage(matches, read, 1) == [] <==> Readable(read, matches) == [] || NewestHide(matches, published)
  {
    LastDecides(read, matches, published);
    LastDecides(read, Page(matches, PAGE_SIZE, 0), published);
  }

  // Behind a match that can be read all can be.
  lemma {:induction false} RowsBelow<Raw>(matches: seq<nat>, read: nat -> Option<Raw>, published: nat, page: nat)
    requires ReadsBelow(read, published) && Descending(matches) && page > 0
    requires RowsOfPage(matches, read, 1) != [] && RowsOfPage(matches, read, page) == []
    ensures RowsFrom(matches, read, page) == []
  {
    if page > 1 {
      var offset := (page - 1) * PAGE_SIZE;
      LastDecides(read, Page(matches, PAGE_SIZE, 0), published);
      LastDecides(read, Page(matches, PAGE_SIZE, offset), published);
    }
  }

  // With the newest first, the user sees every published match, in order and once,
  // unless the ten newest matches are unpublished and some other is not: then the
  // user sees nothing.
  lemma {:induction false} BrowsingNewestFirst<Raw>(matches: seq<nat>, read: nat -> Option<Raw>, published: nat)
    requires ReadsBelow(read, published) && Descending(matches)
    ensures BrowsePages(matches, read, 1) == Readable(read, matches) <==> !NewestHide(matches, published)
    ensures NewestHide(matches, published) ==> BrowsePages(matches, read, 1) == []
  {
    FirstPageRows(matches, read, published);
    BrowsingIsExact(matches, read, 1);
    LastDecides(read, matches, published);
    if RowsOfPage(matches, read, 1) == [] {
      NothingSeen(matches, read, 1);
    } else {
      forall k: nat | k >= 1 && RowsOfPage(matches, read, k) == [] ensures RowsFrom(matches, read, k) == [] {
        RowsBelow(matches, read, published, k);
      }
    }
  }
}
