// The anchor worker: server/internal/anchor/worker.go. It publishes the current
// checkpoint of the log on every tick unless it is the one published last, and on
// demand in any case.
module AnchorWorker {
  import opened Wrappers
  import opened Text
  import opened HashTrees
  import opened ClientCrypto
  import opened AnchorRecord
  import opened Utf8Text
  import opened AnchorFile

  const PAYLOAD_PREFIX := "PNOT"
  const PAYLOAD_VERSION: uint8 := 1

  function CheckpointHash(cfg: Config, checkpoint: Bytes): string {
    BytesToHex(cfg.sha256(checkpoint))
  }

  function BuildRecord(cfg: Config, checkpoint: Bytes): Result<Record> {
    var parsed := cfg.unmarshal(checkpoint);
    if parsed.Err? || |parsed.value.1| != 32 then Err
    else Ok(Record(PAYLOAD_PREFIX, PAYLOAD_VERSION, parsed.value.0, BytesToHex(parsed.value.1),
                   CheckpointHash(cfg, checkpoint)))
  }

  // ----- as a state machine -----

  // lastHash is "" in a worker that has published nothing.
  datatype AnchorState = AnchorState(file: Option<string>, lastHash: string)

  // What the outside world supplies to one attempt: the checkpoint read from the
  // log, the clock, and how writing goes.
  datatype Attempt = Attempt(force: bool, checkpoint: Result<Bytes>, now: string, write: Write)

  // The record that an attempt tries to write, if any.
  function Offers(cfg: Config, lastHash: string, a: Attempt): Option<Record> {
    if a.checkpoint.Err? || (!a.force && CheckpointHash(cfg, a.checkpoint.value) == lastHash) then None
    else
      var rec := BuildRecord(cfg, a.checkpoint.value);
      if rec.Err? then None else Some(rec.value)
  }

  // The record that it publishes: all of the line is in the file.
  function Publishes(cfg: Config, lastHash: string, a: Attempt): Option<Record> {
    var rec := Offers(cfg, lastHash, a);
    if rec.Some? && IsComplete(a.write, FormatRecordLine(a.now, rec.value)) then rec else None
  }

  function AttemptStep(cfg: Config, s: AnchorState, a: Attempt): AnchorState {
    var rec := Offers(cfg, s.lastHash, a);
    if rec.None? || a.write.CannotOpen? then s
    else
      var line := FormatRecordLine(a.now, rec.value);
      AnchorState(Some(Content(s.file) + Written(a.write, line)),
                  if IsComplete(a.write, line) then rec.value.checkpointHash else s.lastHash)
  }

  // The checkpoint is not the one that was published last, or it is demanded.
  predicate IsDue(cfg: Config, lastHash: string, a: Attempt) {
    a.force || (a.checkpoint.Ok? && BytesToHex(cfg.sha256(a.checkpoint.value)) != lastHash)
  }

  // The note of the checkpoint can be read and has a root hash.
  predicate IsSound(cfg: Config, checkpoint: Bytes) {
    var note := cfg.unmarshal(checkpoint);
    note.Ok? && |note.value.1| == 32
  }

  // A record is built exactly of a sound checkpoint, and says what that one does.
  lemma {:induction false} BuildsExactly(cfg: Config, checkpoint: Bytes)
    ensures BuildRecord(cfg, checkpoint).Ok? <==> IsSound(cfg, checkpoint)
    ensures BuildRecord(cfg, checkpoint).Ok? ==>
      var rec, note := BuildRecord(cfg, checkpoint).value, cfg.unmarshal(checkpoint).value;
      && rec.domainSeparator == "PNOT" && rec.version == 1 && rec.treeSize == note.0
      && ParseHex(rec.rootHashHex) == Ok(note.1) && ParseHex(rec.checkpointHash) == Ok(cfg.sha256(checkpoint))
      && AllLowerHex(rec.rootHashHex) && AllLowerHex(rec.checkpointHash)
  {
    hide ParseHex;
    HexRoundTrip(cfg.sha256(checkpoint));
    if BuildRecord(cfg, checkpoint).Ok? {
      HexRoundTrip(cfg.unmarshal(checkpoint).value.1);
    }
  }

  // An attempt publishes exactly when its checkpoint can be read, is due and sound,
  // and all of the line and its newline reach the file.
  lemma {:induction false} PublishesExactly(cfg: Config, lastHash: string, a: Attempt)
    ensures var rec := Publishes(cfg, lastHash, a);
      && (rec.Some? <==>
          && a.checkpoint.Ok? && IsDue(cfg, lastHash, a) && IsSound(cfg, a.checkpoint.value) && a.write.Reaches?
          && a.write.count > |FormatRecordLine(a.now, BuildRecord(cfg, a.checkpoint.value).value)|)
      && (rec.Some? ==> Ok(rec.value) == BuildRecord(cfg, a.checkpoint.value))
  {
    hide FormatRecordLine, BytesToHex;
  }

  class Worker {
    const cfg: Config
    const publisher: FilePublisher
    var lastHash: string

    ghost predicate Valid()
      reads this
    {
      publisher.cfg == cfg
    }

    function State(): AnchorState
      reads this, publisher
    {
      AnchorState(publisher.file, lastHash)
    }

    // Also what a restart of the server does: the file stays, lastHash is lost.
    constructor (publisher: FilePublisher)
      ensures Valid() && this.publisher == publisher && this.cfg == publisher.cfg
      ensures State() == AnchorState(publisher.file, "")
    {
      this.publisher, this.cfg, lastHash := publisher, publisher.cfg, "";
    }

    // publishCheckpoint, which holds the lock throughout. Ok(None) when there is
    // nothing new, Err when the checkpoint or the file is not usable.
    method PublishCheckpoint(a: Attempt) returns (r: Result<Option<Record>>)
      requires Valid()
      modifies this, publisher
      ensures Valid() && State() == AttemptStep(cfg, old(State()), a)
      ensures r.Ok? ==> r.value == Publishes(cfg, old(lastHash), a)
      ensures r.Err? ==> Publishes(cfg, old(lastHash), a).None? && lastHash == old(lastHash)
      ensures r == Ok(None) <==> a.checkpoint.Ok? && !IsDue(cfg, old(lastHash), a)
    {
      if a.checkpoint.Err? {
        return Err;
      }
      var cpHash := CheckpointHash(cfg, a.checkpoint.value);
      if !a.force && cpHash == lastHash {
        return Ok(None);
      }
      var rec := BuildRecord(cfg, a.checkpoint.value);
      if rec.Err? {
        return Err;
      }
      var written := publisher.PublishCheckpoint(rec.value, a.now, a.write);
      if !written {
        return Err;
      }
      lastHash := cpHash;
      r := Ok(Some(rec.value));
    }
  }

  // ----- runs -----

  // Ticks and demands are attempts; a restart begins with a new worker.
  datatype Action = Try(attempt: Attempt) | Restart

  function Step(cfg: Config, s: AnchorState, a: Action): AnchorState {
    match a
    case Try(attempt) => AttemptStep(cfg, s, attempt)
    case Restart => s.(lastHash := "")
  }

  function Run(cfg: Config, actions: seq<Action>): AnchorState
    decreases |actions|
  {
    if actions == [] then AnchorState(None, "")
    else Step(cfg, Run(cfg, actions[..|actions| - 1]), actions[|actions| - 1])
  }

  // A published record: whether it was demanded, whether it is the first of its
  // worker, and what torn writes had left on its line before it.
  datatype Entry = Entry(junk: string, now: string, record: Record, forced: bool, first: bool)

  function EntryOf(s: AnchorState, a: Attempt, rec: Record): Entry {
    Entry(Tail(Content(s.file)), a.now, rec, a.force, s.lastHash == "")
  }

  // What a run has published.
  function Published(cfg: Config, actions: seq<Action>): seq<Entry>
    decreases |actions|
  {
    if actions == [] then []
    else
      var before, a := actions[..|actions| - 1], actions[|actions| - 1];
      var s := Run(cfg, before);
      Published(cfg, before) +
      if a.Restart? || Publishes(cfg, s.lastHash, a.attempt).None? then []
      else [EntryOf(s, a.attempt, Publishes(cfg, s.lastHash, a.attempt).value)]
  }

  // The clock prints a short text without white space.
  predicate IsTimestamp(now: string) { IsWord(now) && |now| <= 64 }

  predicate ClockWorks(actions: seq<Action>) {
    forall i | 0 <= i < |actions| && actions[i].Try? :: IsTimestamp(actions[i].attempt.now)
  }

  predicate GoodRecord(rec: Record) {
    && rec.domainSeparator == PAYLOAD_PREFIX && rec.version == PAYLOAD_VERSION
    && |rec.rootHashHex| == 64 && AllLowerHex(rec.rootHashHex)
    && |rec.checkpointHash| == 64 && AllLowerHex(rec.checkpointHash)
  }

  // The beginning of a line, or several of them.
  predicate IsJunk(junk: string) {
    IsLine(junk) && (junk != "" ==> !GoSpace(junk[0]))
  }

  predicate GoodEntry(e: Entry) {
    IsTimestamp(e.now) && GoodRecord(e.record) && IsJunk(e.junk)
  }

  function LineOf(e: Entry): string { e.junk + FormatRecordLine(e.now, e.record) }

  predicate AllGood(entries: seq<Entry>) {
    forall i | 0 <= i < |entries| :: GoodEntry(entries[i])
  }

  function LinesOf(entries: seq<Entry>): (lines: seq<string>)
    ensures |lines| == |entries|
  {
    if entries == [] then [] else LinesOf(entries[..|entries| - 1]) + [LineOf(entries[|entries| - 1])]
  }

  // A checkpoint is published twice in a row only on demand or after a restart.
  predicate NoNeedlessRepeat(entries: seq<Entry>) {
    forall i | 0 < i < |entries| ::
      entries[i].record.checkpointHash == entries[i - 1].record.checkpointHash ==> entries[i].forced || entries[i].first
  }

  // The file holds these lines, and behind them at most torn text.
  ghost predicate Holds(text: string, lines: seq<string>) {
    Lines(Body(text)) == lines && IsJunk(Tail(text))
  }

  ghost predicate Inv(s: AnchorState, entries: seq<Entry>) {
    && AllGood(entries) && Holds(Content(s.file), LinesOf(entries)) && NoNeedlessRepeat(entries)
    && (s.lastHash != "" ==> entries != [] && s.lastHash == entries[|entries| - 1].record.checkpointHash)
  }

  // ----- the line of a record -----

  lemma {:induction false} HexIsWord(h: string)
    requires h != "" && AllLowerHex(h)
    ensures IsWord(h)
  {
  }

  lemma {:induction false} LineIsShort(now: string, rec: Record)
    requires IsTimestamp(now) && GoodRecord(rec)
    ensures |FormatRecordLine(now, rec)| < LINE_LIMIT
  {
    DecimalLength(rec.version, 3);
    assert Pow10(5) == 100_000;
    assert Pow10(10) == 10_000_000_000;
    assert Pow10(15) == 1_000_000_000_000_000;
    assert Pow10(20) == 100_000_000_000_000_000_000;
    DecimalLength(rec.treeSize, 20);
  }

  lemma {:induction false} LineIsJunk(now: string, rec: Record)
    requires IsTimestamp(now) && GoodRecord(rec)
    ensures IsLine(FormatRecordLine(now, rec)) && FormatRecordLine(now, rec) != ""
      && !GoSpace(FormatRecordLine(now, rec)[0])
  {
    var line := FormatRecordLine(now, rec);
    forall c | c in Decimal(rec.version) || c in Decimal(rec.treeSize) ensures c != '\n' {
      assert IsDigit(c);
    }
    assert forall i | 0 <= i < |line| :: line[i] in line;
    assert forall i | 0 <= i < 64 :: IsLowerHex(rec.rootHashHex[i]) && IsLowerHex(rec.checkpointHash[i]);
    assert line[0] == now[0] && now[0] in now;
  }

  lemma {:induction false} LineIsTrimmed(e: Entry)
    requires GoodEntry(e)
    ensures LineOf(e) != "" && Trim(GoSpace, LineOf(e)) == LineOf(e)
  {
    assert e.now[0] in e.now;
    assert LineOf(e)[|LineOf(e)| - 1] == e.record.checkpointHash[63] && IsLowerHex(e.record.checkpointHash[63]);
    assert LineOf(e)[0] == if e.junk == "" then e.now[0] else e.junk[0];
    TrimFixes(GoSpace, LineOf(e));
  }

  predicate HasSpace(s: string) {
    exists c | c in s :: GoSpace(c)
  }

  lemma {:induction false} RecordHasWords(rec: Record)
    requires GoodRecord(rec)
    ensures HasWords(rec)
  {
    HexIsWord(rec.rootHashHex);
    HexIsWord(rec.checkpointHash);
  }

  // A record is read back unless white space stands in the junk before it.
  lemma {:induction false} LineParses(e: Entry)
    requires GoodEntry(e)
    ensures ParseRecordLine(LineOf(e)) == if HasSpace(e.junk) then Err else Ok(e.record)
  {
    RecordHasWords(e.record);
    JunkBeforeWord(e.junk, e.now);
    LineIsOneMore(e.junk, e.now, e.record);
    ParseWithClock(LineOf(e), e.junk + e.now, e.record);
  }

  lemma {:induction false} LineIsOneMore(junk: string, now: string, rec: Record)
    ensures junk + FormatRecordLine(now, rec) == FormatRecordLine(junk + now, rec)
  {
  }

  lemma {:induction false} ParseWithClock(line: string, now: string, rec: Record)
    requires line == FormatRecordLine(now, rec) && HasWords(rec) && |Fields(now)| >= 1
    ensures ParseRecordLine(line) == if |Fields(now)| == 1 then Ok(rec) else Err
  {
    FieldsOfWords(now, rec);
    if |Fields(now)| == 1 {
      ParseOfFields(line, rec);
    }
  }

  // ----- what every run keeps -----

  lemma {:induction false} OfferedIsGood(cfg: Config, lastHash: string, a: Attempt)
    requires Offers(cfg, lastHash, a).Some?
    ensures GoodRecord(Offers(cfg, lastHash, a).value)
  {
  }

  lemma {:induction false} WriteHolds(text: string, lines: seq<string>, write: Write, line: string)
    requires Holds(text, lines) && IsLine(line) && line != "" && !GoSpace(line[0])
    ensures Holds(text + Written(write, line), if IsComplete(write, line) then lines + [Tail(text) + line] else lines)
    ensures IsComplete(write, line) ==> Tail(text + Written(write, line)) == ""
  {
    if IsComplete(write, line) {
      WholeLine(text, line);
      assert text + (line + "\n") == text + line + "\n";
    } else if write.Reaches? {
      TornLine(text, line[..write.count]);
    } else {
      assert text + "" == text;
    }
  }

  lemma {:induction false} OfferHolds(text: string, lines: seq<string>, now: string, rec: Record, write: Write)
    requires Holds(text, lines) && IsTimestamp(now) && GoodRecord(rec)
    ensures var line := FormatRecordLine(now, rec);
      && Holds(text + Written(write, line), if IsComplete(write, line) then lines + [Tail(text) + line] else lines)
      && (IsComplete(write, line) ==> Tail(text + Written(write, line)) == "")
  {
    hide FormatRecordLine;
    LineIsJunk(now, rec);
    WriteHolds(text, lines, write, FormatRecordLine(now, rec));
  }

  // What an attempt does to the file.
  lemma {:induction false} AttemptHolds(cfg: Config, s: AnchorState, lines: seq<string>, a: Attempt)
    requires Holds(Content(s.file), lines) && IsTimestamp(a.now)
    ensures var rec := Publishes(cfg, s.lastHash, a);
      && Holds(Content(AttemptStep(cfg, s, a).file),
               if rec.Some? then lines + [LineOf(EntryOf(s, a, rec.value))] else lines)
      && (rec.Some? ==> Tail(Content(AttemptStep(cfg, s, a).file)) == "")
  {
    hide FormatRecordLine, BuildRecord, CheckpointHash, Tail, Lines, IsJunk, GoodRecord, IsTimestamp;
    var rec := Offers(cfg, s.lastHash, a);
    if rec.Some? {
      OfferedIsGood(cfg, s.lastHash, a);
      OfferHolds(Content(s.file), lines, a.now, rec.value, a.write);
    }
  }

  lemma {:induction false} AttemptKeepsInv(cfg: Config, s: AnchorState, entries: seq<Entry>, a: Attempt)
    requires Inv(s, entries) && IsTimestamp(a.now)
    ensures var rec := Publishes(cfg, s.lastHash, a);
      Inv(AttemptStep(cfg, s, a), if rec.Some? then entries + [EntryOf(s, a, rec.value)] else entries)
  {
    hide FormatRecordLine, BuildRecord, CheckpointHash, Tail, Lines, IsJunk, GoodRecord, IsTimestamp;
    AttemptHolds(cfg, s, LinesOf(entries), a);
    var rec := Publishes(cfg, s.lastHash, a);
    if rec.Some? {
      var e := EntryOf(s, a, rec.value);
      OfferedIsGood(cfg, s.lastHash, a);
      OfferedIsNew(cfg, s.lastHash, a);
      assert (entries + [e])[..|entries|] == entries;
    } else {
      FailedKeepsHash(cfg, s, a);
    }
  }

  lemma {:induction false} OfferedIsNew(cfg: Config, lastHash: string, a: Attempt)
    requires Offers(cfg, lastHash, a).Some?
    ensures a.force || Offers(cfg, lastHash, a).value.checkpointHash != lastHash
  {
  }

  lemma {:induction false} FailedKeepsHash(cfg: Config, s: AnchorState, a: Attempt)
    requires Publishes(cfg, s.lastHash, a).None?
    ensures AttemptStep(cfg, s, a).lastHash == s.lastHash
  {
  }

  lemma {:induction false} StartsWithInv()
    ensures Inv(AnchorState(None, ""), [])
  {
    assert Lines(Body("")) == [];
  }

  lemma {:induction false} RestartKeepsInv(s: AnchorState, entries: seq<Entry>)
    requires Inv(s, entries)
    ensures Inv(s.(lastHash := ""), entries)
  {
  }

  lemma {:induction false} RunKeepsInv(cfg: Config, actions: seq<Action>)
    requires ClockWorks(actions)
    ensures Inv(Run(cfg, actions), Published(cfg, actions))
    decreases |actions|
  {
    hide AttemptStep, Publishes, IsTimestamp, Inv;
    if actions == [] {
      StartsWithInv();
    } else {
      var before, a := actions[..|actions| - 1], actions[|actions| - 1];
      RunKeepsInv(cfg, before);
      if a.Try? {
        AttemptKeepsInv(cfg, Run(cfg, before), Published(cfg, before), a.attempt);
      } else {
        RestartKeepsInv(Run(cfg, before), Published(cfg, before));
      }
      assert Published(cfg, before) + [] == Published(cfg, before);
    }
  }

  // ----- reading back -----

  lemma {:induction false} EveryLineIsARecord(entries: seq<Entry>)
    requires AllGood(entries)
    ensures CountRecords(LinesOf(entries)) == |entries|
    ensures LastRecord(LinesOf(entries)) == if entries == [] then "" else LineOf(entries[|entries| - 1])
    decreases |entries|
  {
    hide FormatRecordLine;
    if entries != [] {
      EveryLineIsARecord(entries[..|entries| - 1]);
      LineIsTrimmed(entries[|entries| - 1]);
      assert LinesOf(entries)[..|entries| - 1] == LinesOf(entries[..|entries| - 1]);
    }
  }

  // A torn line at the end counts as one more.
  lemma {:induction false} TornLineCounts(lines: seq<string>, tail: string)
    requires IsJunk(tail) && tail != "" && CountRecords(lines) == |lines|
    ensures CountRecords(lines + [tail]) == |lines| + 1 && LastRecord(lines + [tail]) != ""
  {
    assert (lines + [tail])[..|lines|] == lines;
    TrimKeepsFirst(tail);
  }

  lemma {:induction false} TrimKeepsFirst(s: string)
    requires s != "" && !GoSpace(s[0])
    ensures Trim(GoSpace, s) != ""
  {
    FirstSurvives(s);
  }

  lemma {:induction false} FirstSurvives(s: string)
    requires s != "" && !GoSpace(s[0])
    ensures TrimRight(GoSpace, s) != ""
    decreases |s|
  {
    if |s| > 1 && GoSpace(s[|s| - 1]) {
      FirstSurvives(s[..|s| - 1]);
    }
  }

  // The file reads back: no torn text at its end, none with white space before the
  // last record, and no line too long for the scanner.
  ghost predicate ReadsBack(file: Option<string>, published: seq<Entry>)
    requires published != []
  {
    Tail(Content(file)) == "" && !HasSpace(published[|published| - 1].junk) && !TooLong(Lines(Content(file)))
  }

  predicate IsLatest(latest: Latest, rec: Record, blockNumber: nat) {
    latest.Found? && latest.checkpoint.record == rec && latest.checkpoint.blockNumber == blockNumber
  }

  // Over any run of ticks, demands, torn writes and restarts, the latest checkpoint
  // is the last published record, with as many blocks as there were publications,
  // if and only if the file reads back.
  lemma {:induction false} LatestIsLastPublished(cfg: Config, actions: seq<Action>)
    requires ClockWorks(actions) && Published(cfg, actions) != []
    ensures var published := Published(cfg, actions);
      IsLatest(LatestOf(cfg, Run(cfg, actions).file), published[|published| - 1].record, |published|)
      <==> ReadsBack(Run(cfg, actions).file, published)
  {
    hide FormatRecordLine;
    RunKeepsInv(cfg, actions);
    LatestOfRecords(cfg, Run(cfg, actions).file, Published(cfg, actions));
  }

  lemma {:induction false} LatestOfRecords(cfg: Config, file: Option<string>, entries: seq<Entry>)
    requires Holds(Content(file), LinesOf(entries)) && AllGood(entries) && entries != []
    ensures IsLatest(LatestOf(cfg, file), entries[|entries| - 1].record, |entries|) <==> ReadsBack(file, entries)
  {
    var body, tail := Body(Content(file)), Tail(Content(file));
    BodyEndsLine(Content(file));
    LinesWithTail(body, tail);
    EveryLineIsARecord(entries);
    if tail == "" {
      CleanLatest(cfg, file, entries);
    } else {
      TornLineCounts(Lines(body), tail);
    }
  }

  lemma {:induction false} CleanLatest(cfg: Config, file: Option<string>, entries: seq<Entry>)
    requires file.Some? && Lines(file.value) == LinesOf(entries) && AllGood(entries) && entries != []
    ensures IsLatest(LatestOf(cfg, file), entries[|entries| - 1].record, |entries|) <==>
      !HasSpace(entries[|entries| - 1].junk) && !TooLong(Lines(file.value))
  {
    EveryLineIsARecord(entries);
    LineIsTrimmed(entries[|entries| - 1]);
    LineParses(entries[|entries| - 1]);
  }

  // ----- runs without torn writes -----

  // No line of a record is that long.
  const LINE_LIMIT: nat := 300

  // Every write puts the whole line into the file or nothing at all.
  predicate WritesAreWhole(actions: seq<Action>) {
    forall i | 0 <= i < |actions| && actions[i].Try? ::
      actions[i].attempt.write.CannotOpen? || actions[i].attempt.write.count >= LINE_LIMIT
  }

  predicate NoJunk(entries: seq<Entry>) {
    forall i | 0 <= i < |entries| :: entries[i].junk == ""
  }

  lemma {:induction false} WholeWritesLeaveNoJunk(cfg: Config, actions: seq<Action>)
    requires ClockWorks(actions) && WritesAreWhole(actions)
    ensures Tail(Content(Run(cfg, actions).file)) == "" && NoJunk(Published(cfg, actions))
    decreases |actions|
  {
    if actions != [] {
      var before, a := actions[..|actions| - 1], actions[|actions| - 1];
      WholeWritesLeaveNoJunk(cfg, before);
      if a.Try? {
        WholeAttempt(cfg, Run(cfg, before), a.attempt);
      }
    }
  }

  lemma {:induction false} WholeAttempt(cfg: Config, s: AnchorState, a: Attempt)
    requires IsTimestamp(a.now) && Tail(Content(s.file)) == "" && (a.write.CannotOpen? || a.write.count >= LINE_LIMIT)
    ensures Tail(Content(AttemptStep(cfg, s, a).file)) == ""
  {
    hide FormatRecordLine, BuildRecord, CheckpointHash;
    var rec := Offers(cfg, s.lastHash, a);
    if rec.Some? && a.write.Reaches? {
      OfferedIsGood(cfg, s.lastHash, a);
      LineIsShort(a.now, rec.value);
      AttemptHolds(cfg, s, Lines(Body(Content(s.file))), a);
    }
  }

  lemma {:induction false} NoLineIsTooLong(entries: seq<Entry>)
    requires AllGood(entries) && NoJunk(entries)
    ensures !TooLong(LinesOf(entries))
    decreases |entries|
  {
    hide Utf8;
    if entries != [] {
      var init, e := entries[..|entries| - 1], entries[|entries| - 1];
      NoLineIsTooLong(init);
      LineIsShort(e.now, e.record);
      assert LineOf(e) == FormatRecordLine(e.now, e.record);
      forall i | 0 <= i < |entries| ensures |Utf8(LinesOf(entries)[i])| < MAX_TOKEN {
        assert i < |init| ==> LinesOf(entries)[i] == LinesOf(init)[i];
      }
    }
  }

  // Then the file always reads back.
  lemma {:induction false} WholeWritesReadBack(cfg: Config, actions: seq<Action>)
    requires ClockWorks(actions) && WritesAreWhole(actions)
    ensures var published, latest := Published(cfg, actions), LatestOf(cfg, Run(cfg, actions).file);
      if published == [] then latest == NoPublishedCheckpoint
      else IsLatest(latest, published[|published| - 1].record, |published|)
  {
    RunKeepsInv(cfg, actions);
    WholeWritesLeaveNoJunk(cfg, actions);
    CleanReadsBack(cfg, Run(cfg, actions).file, Published(cfg, actions));
  }

  lemma {:induction false} CleanReadsBack(cfg: Config, file: Option<string>, entries: seq<Entry>)
    requires Tail(Content(file)) == "" && Holds(Content(file), LinesOf(entries)) && AllGood(entries) && NoJunk(entries)
    ensures if entries == [] then LatestOf(cfg, file) == NoPublishedCheckpoint
            else IsLatest(LatestOf(cfg, file), entries[|entries| - 1].record, |entries|)
  {
    assert Body(Content(file)) == Content(file);
    NoLineIsTooLong(entries);
    EveryLineIsARecord(entries);
    if entries != [] {
      CleanLatest(cfg, file, entries);
    }
  }

  // ----- when records are published -----

  // A checkpoint hash stands on two lines in a row only when the second was
  // demanded or was the first of a new worker; and the hash a worker remembers is
  // that of the last record.
  lemma {:induction false} RepeatsAreDemanded(cfg: Config, actions: seq<Action>)
    requires ClockWorks(actions)
    ensures NoNeedlessRepeat(Published(cfg, actions))
    ensures var s, published := Run(cfg, actions), Published(cfg, actions);
      s.lastHash != "" ==> published != [] && s.lastHash == published[|published| - 1].record.checkpointHash
  {
    RunKeepsInv(cfg, actions);
  }

  // After an attempt with a sound checkpoint and a whole write, on demand or not,
  // the last published record holds the digest of the current checkpoint; after a
  // demand also its size and root hash.
  lemma {:induction false} AttemptPublishesCurrent(cfg: Config, actions: seq<Action>, a: Attempt)
    requires ClockWorks(actions) && a.checkpoint.Ok? && BuildRecord(cfg, a.checkpoint.value).Ok?
    requires IsComplete(a.write, FormatRecordLine(a.now, BuildRecord(cfg, a.checkpoint.value).value))
    ensures var published := Published(cfg, actions + [Try(a)]);
      && published != []
      && Tells(cfg, published[|published| - 1].record, a.checkpoint.value, a.force)
  {
    LastAfterAttempt(cfg, actions, a);
    BuiltRecordTells(cfg, a.checkpoint.value);
  }

  // What a record says about a checkpoint.
  predicate Tells(cfg: Config, rec: Record, checkpoint: Bytes, all: bool)
    requires cfg.unmarshal(checkpoint).Ok?
  {
    && ParseHex(rec.checkpointHash) == Ok(cfg.sha256(checkpoint))
    && (all ==> rec.treeSize == cfg.unmarshal(checkpoint).value.0
                && ParseHex(rec.rootHashHex) == Ok(cfg.unmarshal(checkpoint).value.1))
  }

  lemma {:induction false} BuiltRecordTells(cfg: Config, checkpoint: Bytes)
    requires BuildRecord(cfg, checkpoint).Ok?
    ensures Tells(cfg, BuildRecord(cfg, checkpoint).value, checkpoint, true)
  {
    HexRoundTrip(cfg.sha256(checkpoint));
    HexRoundTrip(cfg.unmarshal(checkpoint).value.1);
  }

  // With a sound checkpoint and a whole write, an attempt publishes unless the
  // checkpoint is the one remembered.
  lemma {:induction false} PublishesOrKnows(cfg: Config, lastHash: string, a: Attempt)
    requires a.checkpoint.Ok? && BuildRecord(cfg, a.checkpoint.value).Ok?
    requires IsComplete(a.write, FormatRecordLine(a.now, BuildRecord(cfg, a.checkpoint.value).value))
    ensures Publishes(cfg, lastHash, a) ==
      if a.force || CheckpointHash(cfg, a.checkpoint.value) != lastHash then
        Some(BuildRecord(cfg, a.checkpoint.value).value)
      else None
    ensures CheckpointHash(cfg, a.checkpoint.value) != ""
    ensures BuildRecord(cfg, a.checkpoint.value).value.checkpointHash == CheckpointHash(cfg, a.checkpoint.value)
  {
    hide FormatRecordLine;
  }

  lemma {:induction false} PublishedThen(cfg: Config, actions: seq<Action>, a: Attempt)
    ensures var s := Run(cfg, actions);
      var rec := Publishes(cfg, s.lastHash, a);
      Published(cfg, actions + [Try(a)]) ==
      Published(cfg, actions) + if rec.None? then [] else [EntryOf(s, a, rec.value)]
  {
    hide Publishes, EntryOf;
    assert (actions + [Try(a)])[..|actions|] == actions;
  }

  lemma {:induction false} LastAfterAttempt(cfg: Config, actions: seq<Action>, a: Attempt)
    requires ClockWorks(actions) && a.checkpoint.Ok? && BuildRecord(cfg, a.checkpoint.value).Ok?
    requires IsComplete(a.write, FormatRecordLine(a.now, BuildRecord(cfg, a.checkpoint.value).value))
    ensures var published := Published(cfg, actions + [Try(a)]);
      && published != []
      && published[|published| - 1].record.checkpointHash == CheckpointHash(cfg, a.checkpoint.value)
      && (a.force ==> published[|published| - 1].record == BuildRecord(cfg, a.checkpoint.value).value)
  {
    hide FormatRecordLine, BuildRecord, CheckpointHash, Publishes, Tail, Run, Published;
    PublishedThen(cfg, actions, a);
    PublishesOrKnows(cfg, Run(cfg, actions).lastHash, a);
    RepeatsAreDemanded(cfg, actions);
  }
}
