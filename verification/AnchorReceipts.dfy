// What LatestCheckpoint reports besides the record: which line of the file it is,
// the number of that line, and the digest of its bytes as transaction id.
module AnchorReceipts {
  import opened Wrappers
  import opened Text
  import opened HashTrees
  import opened ClientCrypto
  import opened Utf8Text
  import opened AnchorRecord
  import opened AnchorFile
  import opened AnchorWorker

  // ----- the last line that is not blank -----

  // line is what is left of line k without the white space around it, and every line
  // behind it is blank.
  ghost predicate IsLastAt(lines: seq<string>, k: nat, line: string) {
    && k < |lines| && IsTrimOf(GoSpace, lines[k], line) && line != ""
    && forall j | k < j < |lines| :: AllSpace(GoSpace, lines[j])
  }

  lemma {:induction false} LastRecordIsThere(lines: seq<string>) returns (k: nat)
    requires LastRecord(lines) != ""
    ensures IsLastAt(lines, k, LastRecord(lines))
    decreases |lines|
  {
    hide Trim, AllSpace, IsTrimOf;
    var n := |lines| - 1;
    var line := Trim(GoSpace, lines[n]);
    TrimIsExact(GoSpace, lines[n], line);
    BlankIsAllSpace(GoSpace, lines[n]);
    if line == "" {
      k := LastRecordIsThere(lines[..n]);
    } else {
      k := n;
    }
  }

  // The line that is read is the last one that is not blank.
  lemma {:induction false} LastRecordIsExact(lines: seq<string>, line: string)
    requires line != ""
    ensures LastRecord(lines) == line <==> exists k: nat :: IsLastAt(lines, k, line)
    decreases |lines|
  {
    hide Trim, AllSpace, IsTrimOf;
    if LastRecord(lines) == line {
      var k := LastRecordIsThere(lines);
    } else if k: nat :| IsLastAt(lines, k, line) {
      var n := |lines| - 1;
      TrimIsExact(GoSpace, lines[n], line);
      BlankIsAllSpace(GoSpace, lines[n]);
      if k < n {
        assert IsLastAt(lines[..n], k, line);
        LastRecordIsExact(lines[..n], line);
      }
    }
  }

  function NotBlank(lines: seq<string>): set<nat> {
    set k: nat | k < |lines| && !AllSpace(GoSpace, lines[k]) :: k
  }

  // The block number is the number of lines that are not blank.
  lemma {:induction false} CountIsExact(lines: seq<string>)
    ensures CountRecords(lines) == |NotBlank(lines)|
    decreases |lines|
  {
    hide Trim, AllSpace;
    if lines != [] {
      var n := |lines| - 1;
      CountIsExact(lines[..n]);
      BlankIsAllSpace(GoSpace, lines[n]);
      assert NotBlank(lines) == NotBlank(lines[..n]) + if AllSpace(GoSpace, lines[n]) then {} else {n};
    } else {
      assert NotBlank(lines) == {};
    }
  }

  // ----- its digest -----

  lemma {:induction false} LinesKeepChars(text: string, i: nat, c: char)
    requires i < |Lines(text)| && c in Lines(text)[i]
    ensures c in text
    decreases |text|
  {
    if text[0] == '\n' {
      if i > 0 {
        LinesKeepChars(text[1..], i - 1, c);
      }
    } else if |text| > 1 {
      if i > 0 || c != text[0] {
        LinesKeepChars(text[1..], i, c);
      }
    }
  }

  lemma {:induction false} TrimKeepsChars(s: string, t: string, c: char)
    requires IsTrimOf(GoSpace, s, t) && c in t
    ensures c in s
  {
    var i: nat :| CoreAt(GoSpace, s, t, i);
    var k :| 0 <= k < |t| && t[k] == c;
    assert s[i..i + |t|][k] == s[i + k];
  }

  lemma {:induction false} RecordOfAscii(text: string)
    requires IsAscii(text)
    ensures IsAscii(LastRecord(Lines(text)))
  {
    hide Lines, LastRecord, IsTrimOf;
    var lines := Lines(text);
    if LastRecord(lines) != "" {
      var k := LastRecordIsThere(lines);
      forall c | c in LastRecord(lines) ensures c < '\U{80}' {
        TrimKeepsChars(lines[k], LastRecord(lines), c);
        LinesKeepChars(text, k, c);
      }
    }
  }

  // txId is the digest of the bytes of the line, which for a text in ASCII are its
  // character codes.
  ghost predicate IsDigestOf(cfg: Config, txId: string, line: string) {
    && ParseHex(txId) == Ok(cfg.sha256(Utf8(line)))
    && (IsAscii(line) ==> exists bytes | AreCodes(line, bytes) :: ParseHex(txId) == Ok(cfg.sha256(bytes)))
  }

  lemma {:induction false} DigestOfLine(cfg: Config, line: string)
    ensures IsDigestOf(cfg, BytesToHex(cfg.sha256(Utf8(line))), line)
  {
    hide Utf8;
    HexRoundTrip(cfg.sha256(Utf8(line)));
    if IsAscii(line) {
      AsciiBytes(line);
    }
  }

  // Whatever the file holds: what is found is the record of its last line that is
  // not blank, with the number of such lines, and the digest of that line.
  lemma {:induction false} FoundIsExact(cfg: Config, file: Option<string>)
    requires LatestOf(cfg, file).Found?
    ensures var latest, lines := LatestOf(cfg, file).checkpoint, Lines(Content(file));
      && file.Some? && latest.blockNumber == |NotBlank(lines)|
      && exists k: nat, line :: IsLastAt(lines, k, line) && ParseRecordLine(line) == Ok(latest.record)
                                && IsDigestOf(cfg, latest.txId, line)
  {
    hide Utf8, Trim, Lines, LastRecord, CountRecords, IsDigestOf, IsLastAt, ParseRecordLine, NotBlank;
    var lines := Lines(Content(file));
    CountIsExact(lines);
    var k := LastRecordIsThere(lines);
    DigestOfLine(cfg, LastRecord(lines));
  }

  // No record is published when there is no line but blank ones; and the reader fails
  // exactly on lines of 65536 bytes and more and on a last line that is no record.
  lemma {:induction false} NotFoundExactly(cfg: Config, file: Option<string>)
    ensures var lines := Lines(Content(file));
      var tooLong := exists i | 0 <= i < |lines| :: |Utf8(lines[i])| >= 65536;
      && (LatestOf(cfg, file) == NoPublishedCheckpoint <==> file.None? || (!tooLong && NotBlank(lines) == {}))
      && (LatestOf(cfg, file) == Failed <==>
          file.Some? && (tooLong || (NotBlank(lines) != {} && ParseRecordLine(LastRecord(lines)).Err?)))
  {
    hide Utf8, Lines, ParseRecordLine, NotBlank;
    BlankLines(Lines(Content(file)));
  }

  lemma {:induction false} BlankLines(lines: seq<string>)
    ensures LastRecord(lines) == "" <==> NotBlank(lines) == {}
  {
    hide Trim, AllSpace, IsTrimOf;
    if LastRecord(lines) != "" {
      var k := LastRecordIsThere(lines);
      TrimIsExact(GoSpace, lines[k], LastRecord(lines));
      BlankIsAllSpace(GoSpace, lines[k]);
      assert k in NotBlank(lines);
    } else {
      NothingThere(lines);
    }
  }

  lemma {:induction false} NothingThere(lines: seq<string>)
    requires LastRecord(lines) == ""
    ensures forall k | 0 <= k < |lines| :: AllSpace(GoSpace, lines[k])
    decreases |lines|
  {
    hide Trim, AllSpace;
    if lines != [] {
      var n := |lines| - 1;
      BlankIsAllSpace(GoSpace, lines[n]);
      NothingThere(lines[..n]);
      assert forall k | 0 <= k < n :: lines[..n][k] == lines[k];
    }
  }

  // Two files with the same transaction id end in the same record, or the lines of
  // their records collide.
  lemma {:induction false} TxIdBinds(cfg: Config, file: Option<string>, other: Option<string>)
    requires LatestOf(cfg, file).Found? && LatestOf(cfg, other).Found?
    requires LatestOf(cfg, file).checkpoint.txId == LatestOf(cfg, other).checkpoint.txId
    ensures var line, line' := LastRecord(Lines(Content(file))), LastRecord(Lines(Content(other)));
      || (line == line' && LatestOf(cfg, file).checkpoint.record == LatestOf(cfg, other).checkpoint.record)
      || IsCollision(cfg.sha256, Collision(Utf8(line), Utf8(line')))
  {
    hide Utf8, Lines, LastRecord, CountRecords, ParseRecordLine;
    var line, line' := LastRecord(Lines(Content(file))), LastRecord(Lines(Content(other)));
    HexInjective(cfg.sha256(Utf8(line)), cfg.sha256(Utf8(line')));
    if Utf8(line) == Utf8(line') {
      Utf8Injective(line, line');
    }
  }

  // ----- in runs -----

  predicate ClockIsAscii(actions: seq<Action>) {
    forall i | 0 <= i < |actions| && actions[i].Try? :: IsAscii(actions[i].attempt.now)
  }

  lemma {:induction false} LineIsAscii(now: string, rec: Record)
    requires IsAscii(now) && GoodRecord(rec)
    ensures IsAscii(FormatRecordLine(now, rec))
  {
    forall c | c in Decimal(rec.version) || c in Decimal(rec.treeSize) ensures c < '\U{80}' {
      assert IsDigit(c);
    }
    assert forall i | 0 <= i < 64 :: IsLowerHex(rec.rootHashHex[i]) && IsLowerHex(rec.checkpointHash[i]);
  }

  lemma {:induction false} RunIsAscii(cfg: Config, actions: seq<Action>)
    requires ClockIsAscii(actions)
    ensures IsAscii(Content(Run(cfg, actions).file))
    decreases |actions|
  {
    hide FormatRecordLine, BuildRecord, CheckpointHash, Offers;
    if actions != [] {
      var before, a := actions[..|actions| - 1], actions[|actions| - 1];
      RunIsAscii(cfg, before);
      if a.Try? {
        AttemptIsAscii(cfg, Run(cfg, before), a.attempt);
      }
    }
  }

  lemma {:induction false} AttemptIsAscii(cfg: Config, s: AnchorState, a: Attempt)
    requires IsAscii(Content(s.file)) && IsAscii(a.now)
    ensures IsAscii(Content(AttemptStep(cfg, s, a).file))
  {
    hide FormatRecordLine, BuildRecord, CheckpointHash, Offers;
    var rec := Offers(cfg, s.lastHash, a);
    if rec.Some? {
      OfferedIsGood(cfg, s.lastHash, a);
      LineIsAscii(a.now, rec.value);
      WrittenIsAscii(a.write, FormatRecordLine(a.now, rec.value));
    }
  }

  lemma {:induction false} WrittenIsAscii(write: Write, line: string)
    requires IsAscii(line)
    ensures IsAscii(Written(write, line))
  {
    assert write.Reaches? && write.count <= |line| ==> forall c | c in line[..write.count] :: c in line;
  }

  // In every run whose file reads back, the transaction id of the latest checkpoint is
  // the digest of the line of the last published record, whose bytes are its
  // character codes if the clock prints ASCII.
  lemma {:induction false} LatestTxId(cfg: Config, actions: seq<Action>)
    requires ClockWorks(actions) && ClockIsAscii(actions) && Published(cfg, actions) != []
    requires ReadsBack(Run(cfg, actions).file, Published(cfg, actions))
    ensures var latest, published := LatestOf(cfg, Run(cfg, actions).file), Published(cfg, actions);
      var line := LineOf(published[|published| - 1]);
      && latest.Found? && IsAscii(line) && IsDigestOf(cfg, latest.checkpoint.txId, line)
  {
    hide FormatRecordLine, Run, Published, Lines, Tail, LastRecord, CountRecords, Utf8, ParseRecordLine, IsDigestOf,
         ReadsBack;
    var file, published := Run(cfg, actions).file, Published(cfg, actions);
    LatestIsLastPublished(cfg, actions);
    LastLine(cfg, actions);
    RunIsAscii(cfg, actions);
    RecordOfAscii(Content(file));
    DigestOfLine(cfg, LastRecord(Lines(Content(file))));
  }

  lemma {:induction false} LastLine(cfg: Config, actions: seq<Action>)
    requires ClockWorks(actions) && Published(cfg, actions) != []
    requires ReadsBack(Run(cfg, actions).file, Published(cfg, actions))
    ensures var published := Published(cfg, actions);
      LastRecord(Lines(Content(Run(cfg, actions).file))) == LineOf(published[|published| - 1])
  {
    hide FormatRecordLine, Run, Published;
    RunKeepsInv(cfg, actions);
    assert Body(Content(Run(cfg, actions).file)) == Content(Run(cfg, actions).file);
    EveryLineIsARecord(Published(cfg, actions));
  }
}
