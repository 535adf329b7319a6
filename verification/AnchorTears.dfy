// Writes to the anchor file that stop within a line: what the reader makes of the
// torn text, and of the record that the worker writes behind it.
module AnchorTears {
  import opened Wrappers
  import opened Text
  import opened AnchorRecord
  import opened Utf8Text
  import opened AnchorFile
  import opened AnchorWorker

  // ----- a part of the line of a record -----

  // It has white space in it exactly when it reaches beyond the timestamp.
  lemma {:induction false} PartHasSpace(now: string, rec: Record, count: nat)
    requires IsTimestamp(now) && count <= |FormatRecordLine(now, rec)|
    ensures HasSpace(FormatRecordLine(now, rec)[..count]) <==> count > |now|
  {
    var line := FormatRecordLine(now, rec);
    assert line[..|now|] == now && line[|now|] == ' ';
    if count > |now| {
      var c := line[..count][|now|];
      assert c in line[..count] && GoSpace(c);
    } else {
      assert line[..count] == now[..count];
      assert forall c | c in now[..count] :: c in now;
    }
  }

  // Everything before the checkpoint hash.
  function HeadOf(now: string, rec: Record): string {
    now + " " + rec.domainSeparator + " " + Decimal(rec.version) + " " + Decimal(rec.treeSize) + " " + rec.rootHashHex
  }

  lemma {:induction false} LineOfHead(now: string, rec: Record)
    ensures FormatRecordLine(now, rec) == HeadOf(now, rec) + " " + rec.checkpointHash
  {
  }

  // A prefix has no more fields.
  lemma {:induction false} FieldsOfPrefix(s: string, k: nat)
    requires k <= |s|
    ensures |Fields(s[..k])| <= |Fields(s)|
    decreases |s|
  {
    if 0 < k {
      if GoSpace(s[0]) {
        FieldsOfPrefix(s[1..], k - 1);
        assert s[..k][1..] == s[1..][..k - 1];
      } else {
        FieldsOfPrefixOfWord(s, k);
      }
    }
  }

  lemma {:induction false} FieldsOfPrefixOfWord(s: string, k: nat)
    requires 0 < k <= |s| && !GoSpace(s[0])
    ensures |Fields(s[..k])| <= |Fields(s)|
    decreases |s|, 0
  {
    var n := WordLength(s);
    if k <= n {
      FieldsOfWord(s[..k]);
    } else {
      FieldsOfPrefix(s[n..], k - n);
      FieldsAfterWord(s[..k], s[..n], s[n..][..k - n]);
    }
  }

  lemma {:induction false} HeadHasFiveFields(now: string, rec: Record)
    requires IsTimestamp(now) && GoodRecord(rec)
    ensures |Fields(HeadOf(now, rec) + " ")| == 5
  {
    hide FormatRecordLine, HeadOf;
    var head := HeadOf(now, rec);
    RecordHasWords(rec);
    FieldsOfWords(now, rec);
    FieldsOfWord(now);
    FieldsOfWord(rec.checkpointHash);
    LineOfHead(now, rec);
    FieldsOfParts(FormatRecordLine(now, rec), head, rec.checkpointHash);
    FieldsOfParts(head + " ", head, "");
  }

  // Torn within or before the checkpoint hash: then there are too few fields.
  lemma {:induction false} ShortPartFails(now: string, rec: Record, part: string)
    requires IsTimestamp(now) && GoodRecord(rec) && part <= HeadOf(now, rec) + " "
    ensures ParseRecordLine(part).Err?
  {
    hide HeadOf;
    HeadHasFiveFields(now, rec);
    FieldsOfPrefix(HeadOf(now, rec) + " ", |part|);
    assert (HeadOf(now, rec) + " ")[..|part|] == part;
  }

  // Torn behind the first digit of the checkpoint hash: a record with what is there.
  lemma {:induction false} LongPartParses(now: string, rec: Record, hash: string)
    requires IsTimestamp(now) && GoodRecord(rec) && hash != "" && AllLowerHex(hash)
    ensures ParseRecordLine(HeadOf(now, rec) + " " + hash) == Ok(rec.(checkpointHash := hash))
  {
    hide FormatRecordLine, HeadOf;
    var torn := rec.(checkpointHash := hash);
    RecordHasWords(rec);
    HexIsWord(hash);
    SameHead(now, rec, hash);
    LineOfHead(now, torn);
    FieldsOfWord(now);
    ParseWithClock(HeadOf(now, rec) + " " + hash, now, torn);
  }

  lemma {:induction false} SameHead(now: string, rec: Record, hash: string)
    ensures HeadOf(now, rec.(checkpointHash := hash)) == HeadOf(now, rec)
  {
  }

  // ----- torn text at the end of the file -----

  // The record that the reader takes the first count characters of a line for.
  function TornRecord(now: string, rec: Record, count: nat): Option<Record>
    requires count <= |FormatRecordLine(now, rec)|
  {
    LineOfHead(now, rec);
    var from := |HeadOf(now, rec)| + 1;
    if count > from then Some(rec.(checkpointHash := rec.checkpointHash[..count - from])) else None
  }

  lemma {:induction false} TrimOfPart(s: string)
    requires s != "" && !GoSpace(s[0])
    ensures var t := Trim(GoSpace, s); t != "" && t <= s && (!GoSpace(s[|s| - 1]) ==> t == s)
  {
    TrimKeepsFirst(s);
    TrimRightKeepsFirst(GoSpace, s);
  }

  lemma {:induction false} PartParses(now: string, rec: Record, count: nat)
    requires IsTimestamp(now) && GoodRecord(rec) && 0 < count <= |FormatRecordLine(now, rec)|
    ensures var part := Trim(GoSpace, FormatRecordLine(now, rec)[..count]);
      part != "" && ParseRecordLine(part) ==
      match TornRecord(now, rec, count) case Some(torn) => Ok(torn) case None => Err
  {
    hide FormatRecordLine, HeadOf, Trim, ParseRecordLine;
    var line, head := FormatRecordLine(now, rec), HeadOf(now, rec);
    LineOfHead(now, rec);
    LineIsJunk(now, rec);
    TrimOfPart(line[..count]);
    if count > |head| + 1 {
      var hash := rec.checkpointHash[..count - |head| - 1];
      assert line[..count] == head + " " + hash;
      assert IsLowerHex(hash[|hash| - 1]);
      LongPartParses(now, rec, hash);
    } else {
      ShortPartFails(now, rec, Trim(GoSpace, line[..count]));
    }
  }

  lemma {:induction false} PartIsNotTooLong(entries: seq<Entry>, part: string)
    requires AllGood(entries) && NoJunk(entries) && |part| <= 2 * LINE_LIMIT
    ensures !TooLong(LinesOf(entries) + [part])
  {
    hide Utf8, LinesOf, AllGood, NoJunk;
    NoLineIsTooLong(entries);
    var lines := LinesOf(entries) + [part];
    forall i | 0 <= i < |lines| ensures |Utf8(lines[i])| < MAX_TOKEN {
      assert i < |entries| ==> lines[i] == LinesOf(entries)[i];
    }
  }

  lemma {:induction false} PartIsLast(entries: seq<Entry>, part: string)
    requires AllGood(entries) && Trim(GoSpace, part) != ""
    ensures LastRecord(LinesOf(entries) + [part]) == Trim(GoSpace, part)
    ensures CountRecords(LinesOf(entries) + [part]) == |entries| + 1
  {
    hide Trim, AllGood;
    assert (LinesOf(entries) + [part])[..|entries|] == LinesOf(entries);
    EveryLineIsARecord(entries);
  }

  // What the reader answers when one more line, or a part of one, follows sound
  // lines.
  lemma {:induction false} LatestWithPart(cfg: Config, file: Option<string>, entries: seq<Entry>, part: string)
    requires file.Some? && Lines(file.value) == LinesOf(entries) + [part] && |part| <= 2 * LINE_LIMIT
    requires AllGood(entries) && NoJunk(entries) && Trim(GoSpace, part) != ""
    ensures match ParseRecordLine(Trim(GoSpace, part))
            case Err => LatestOf(cfg, file) == Failed
            case Ok(rec) => IsLatest(LatestOf(cfg, file), rec, |entries| + 1)
  {
    hide Utf8, Trim, ParseRecordLine, Lines, TooLong, LinesOf, LastRecord, CountRecords, AllGood, NoJunk;
    PartIsNotTooLong(entries, part);
    PartIsLast(entries, part);
  }

  // ----- runs -----

  // The attempt has something to write and its write stops within the line.
  predicate IsTorn(cfg: Config, lastHash: string, a: Attempt) {
    var rec := Offers(cfg, lastHash, a);
    rec.Some? && a.write.Reaches? && a.write.count <= |FormatRecordLine(a.now, rec.value)|
  }

  function TornPart(cfg: Config, lastHash: string, a: Attempt): string
    requires IsTorn(cfg, lastHash, a)
  {
    FormatRecordLine(a.now, Offers(cfg, lastHash, a).value)[..a.write.count]
  }

  // The state after whole writes: the lines of the records and nothing else.
  ghost predicate IsClean(s: AnchorState, entries: seq<Entry>) {
    && AllGood(entries) && NoJunk(entries)
    && Tail(Content(s.file)) == "" && Lines(Content(s.file)) == LinesOf(entries)
  }

  lemma {:induction false} WholeWritesAreClean(cfg: Config, actions: seq<Action>)
    requires ClockWorks(actions) && WritesAreWhole(actions)
    ensures IsClean(Run(cfg, actions), Published(cfg, actions))
  {
    hide FormatRecordLine;
    RunKeepsInv(cfg, actions);
    WholeWritesLeaveNoJunk(cfg, actions);
    var text := Content(Run(cfg, actions).file);
    assert Body(text) == text;
  }

  lemma {:induction false} TornStep(cfg: Config, s: AnchorState, a: Attempt)
    requires IsTorn(cfg, s.lastHash, a)
    ensures AttemptStep(cfg, s, a) == AnchorState(Some(Content(s.file) + TornPart(cfg, s.lastHash, a)), s.lastHash)
    ensures Publishes(cfg, s.lastHash, a).None?
  {
    hide FormatRecordLine, BuildRecord, CheckpointHash;
  }

  lemma {:induction false} TornLines(text: string, part: string)
    requires Tail(text) == "" && IsLine(part)
    ensures Lines(text + part) == Lines(text) + if part == "" then [] else [part]
    ensures Tail(text + part) == part && Body(text + part) == text
  {
    hide Lines;
    assert Body(text) == text;
    BodyEndsLine(text);
    LinesWithTail(text, part);
    TornLine(text, part);
  }

  // What the reader answers between a torn write and the next: the record before
  // if nothing was written, an error while the checkpoint hash is missing, and
  // then a record with as much of that hash as there is, although the attempt has
  // failed and the worker remembers nothing.
  lemma {:induction false} AfterTornWrite(cfg: Config, actions: seq<Action>, a: Attempt)
    requires ClockWorks(actions) && WritesAreWhole(actions) && IsTimestamp(a.now)
    requires IsTorn(cfg, Run(cfg, actions).lastHash, a) && a.write.count > 0
    ensures var s, rec := Run(cfg, actions + [Try(a)]), Offers(cfg, Run(cfg, actions).lastHash, a).value;
      && s.lastHash == Run(cfg, actions).lastHash && Published(cfg, actions + [Try(a)]) == Published(cfg, actions)
      && match TornRecord(a.now, rec, a.write.count)
         case None => LatestOf(cfg, s.file) == Failed
         case Some(torn) => IsLatest(LatestOf(cfg, s.file), torn, |Published(cfg, actions)| + 1)
  {
    hide FormatRecordLine, BuildRecord, CheckpointHash, Offers, TornRecord, Run, Published, Lines, Tail, LatestOf;
    var s := Run(cfg, actions);
    RunOneMore(cfg, actions, Try(a));
    PublishedThen(cfg, actions, a);
    WholeWritesAreClean(cfg, actions);
    TornStep(cfg, s, a);
    OfferedIsGood(cfg, s.lastHash, a);
    TornIsRead(cfg, s, Published(cfg, actions), a.now, Offers(cfg, s.lastHash, a).value, a.write.count);
    assert Published(cfg, actions) + [] == Published(cfg, actions);
  }

  lemma {:induction false} RunOneMore(cfg: Config, actions: seq<Action>, a: Action)
    ensures Run(cfg, actions + [a]) == Step(cfg, Run(cfg, actions), a)
  {
    assert (actions + [a])[..|actions|] == actions;
  }

  lemma {:induction false} TornIsRead(cfg: Config, s: AnchorState, entries: seq<Entry>, now: string, rec: Record,
                                      count: nat)
    requires IsClean(s, entries) && IsTimestamp(now) && GoodRecord(rec)
    requires 0 < count <= |FormatRecordLine(now, rec)|
    ensures var latest := LatestOf(cfg, Some(Content(s.file) + FormatRecordLine(now, rec)[..count]));
      match TornRecord(now, rec, count)
      case None => latest == Failed
      case Some(torn) => IsLatest(latest, torn, |entries| + 1)
  {
    hide FormatRecordLine, TornRecord, Lines, Tail, LatestOf, LinesOf, Trim, ParseRecordLine;
    var part := FormatRecordLine(now, rec)[..count];
    LineIsJunk(now, rec);
    LineIsShort(now, rec);
    TornLines(Content(s.file), part);
    PartParses(now, rec, count);
    LatestWithPart(cfg, Some(Content(s.file) + part), entries, part);
  }

  // And after the next publication, whole this time: its record, or an error for
  // as long as it is the last, exactly when the torn write reached beyond the
  // timestamp.
  lemma {:induction false} AfterTornAndWhole(cfg: Config, actions: seq<Action>, a: Attempt, b: Attempt)
    requires ClockWorks(actions) && WritesAreWhole(actions) && IsTimestamp(a.now) && IsTimestamp(b.now)
    requires IsTorn(cfg, Run(cfg, actions).lastHash, a) && Publishes(cfg, Run(cfg, actions).lastHash, b).Some?
    ensures var latest := LatestOf(cfg, Run(cfg, actions + [Try(a)] + [Try(b)]).file);
      if a.write.count <= |a.now| then
        IsLatest(latest, Publishes(cfg, Run(cfg, actions).lastHash, b).value, |Published(cfg, actions)| + 1)
      else latest == Failed
  {
    hide FormatRecordLine, BuildRecord, CheckpointHash, Offers, Publishes, Run, Published, Lines, Tail, LatestOf,
         AttemptStep;
    hide HasSpace, IsClean;
    var s := Run(cfg, actions);
    RunOneMore(cfg, actions, Try(a));
    RunOneMore(cfg, actions + [Try(a)], Try(b));
    WholeWritesAreClean(cfg, actions);
    TornStep(cfg, s, a);
    OfferedIsGood(cfg, s.lastHash, a);
    PartHasSpace(a.now, Offers(cfg, s.lastHash, a).value, a.write.count);
    WholeStep(cfg, AttemptStep(cfg, s, a), b);
    var recA, recB := Offers(cfg, s.lastHash, a).value, Publishes(cfg, s.lastHash, b).value;
    TornAndWholeIsRead(cfg, s, Published(cfg, actions), a.now, recA, a.write.count, b.now, recB);
  }

  lemma {:induction false} WholeStep(cfg: Config, s: AnchorState, b: Attempt)
    requires Publishes(cfg, s.lastHash, b).Some?
    ensures var rec := Publishes(cfg, s.lastHash, b).value;
      && AttemptStep(cfg, s, b).file == Some(Content(s.file) + (FormatRecordLine(b.now, rec) + "\n")) && GoodRecord(rec)
  {
    hide FormatRecordLine;
    OfferedIsGood(cfg, s.lastHash, b);
  }

  lemma {:induction false} TornAndWholeLines(text: string, part: string, line: string)
    requires Tail(text) == "" && IsLine(part) && IsLine(line)
    ensures Lines(text + part + (line + "\n")) == Lines(text) + [part + line]
  {
    hide Lines, Tail;
    TornLines(text, part);
    WholeLine(text + part, line);
    assert text + part + (line + "\n") == text + part + line + "\n";
  }

  lemma {:induction false} TornThenParses(part: string, now: string, rec: Record)
    requires IsJunk(part) && IsTimestamp(now) && GoodRecord(rec)
    ensures var line := part + FormatRecordLine(now, rec);
      Trim(GoSpace, line) == line != "" && ParseRecordLine(line) == if HasSpace(part) then Err else Ok(rec)
  {
    hide FormatRecordLine, Trim, ParseRecordLine, HasSpace;
    var e := Entry(part, now, rec, false, false);
    LineIsTrimmed(e);
    LineParses(e);
  }

  lemma {:induction false} PartIsJunk(now: string, rec: Record, count: nat)
    requires IsTimestamp(now) && GoodRecord(rec) && count <= |FormatRecordLine(now, rec)|
    ensures IsJunk(FormatRecordLine(now, rec)[..count]) && count <= LINE_LIMIT
  {
    hide FormatRecordLine;
    LineIsJunk(now, rec);
    LineIsShort(now, rec);
  }

  lemma {:induction false} TornAndWholeIsRead(cfg: Config, s: AnchorState, entries: seq<Entry>, now: string,
                                              torn: Record, count: nat, later: string, rec: Record)
    requires IsClean(s, entries) && IsTimestamp(now) && GoodRecord(torn) && IsTimestamp(later) && GoodRecord(rec)
    requires count <= |FormatRecordLine(now, torn)|
    ensures var part := FormatRecordLine(now, torn)[..count];
      var latest := LatestOf(cfg, Some(Content(s.file) + part + (FormatRecordLine(later, rec) + "\n")));
      if HasSpace(part) then latest == Failed else IsLatest(latest, rec, |entries| + 1)
  {
    hide FormatRecordLine, Lines, Tail, LatestOf, LinesOf, Trim, ParseRecordLine, HasSpace, GoodRecord, IsTimestamp;
    var part, line := FormatRecordLine(now, torn)[..count], FormatRecordLine(later, rec);
    PartIsJunk(now, torn, count);
    LineIsJunk(later, rec);
    LineIsShort(later, rec);
    TornAndWholeLines(Content(s.file), part, line);
    TornThenParses(part, later, rec);
    LatestWithPart(cfg, Some(Content(s.file) + part + (line + "\n")), entries, part + line);
  }
}
