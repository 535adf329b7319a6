// The file of published checkpoints, one record per line:
// server/internal/anchor/file_publisher.go.
module AnchorFile {
  import opened Wrappers
  import opened Text
  import opened HashTrees
  import opened ClientCrypto
  import opened AnchorRecord
  import opened Utf8Text

  // What comes from the libraries: SHA-256, and the parser of checkpoint notes,
  // which gives size and root hash.
  datatype Config = Config(sha256: HashFn, unmarshal: Bytes -> Result<(uint64, Bytes)>)

  // ----- the scanner -----

  // The longest line, in bytes, that bufio.Scanner accepts is one less.
  const MAX_TOKEN: nat := 65536

  // The stretches between newlines, the last one only when it is not empty.
  function Lines(text: string): (lines: seq<string>)
    ensures text != "" ==> lines != []
  {
    if text == "" then []
    else if text[0] == '\n' then [""] + Lines(text[1..])
    else if |text| == 1 then [text]
    else
      var rest := Lines(text[1..]);
      [[text[0]] + rest[0]] + rest[1..]
  }

  predicate TooLong(lines: seq<string>) {
    exists i | 0 <= i < |lines| :: |Utf8(lines[i])| >= MAX_TOKEN
  }

  // Trimming also removes the carriage return that bufio.ScanLines drops.
  function LastRecord(lines: seq<string>): (last: string)
  {
    if lines == [] then ""
    else
      var line := Trim(GoSpace, lines[|lines| - 1]);
      if line == "" then LastRecord(lines[..|lines| - 1]) else line
  }

  function CountRecords(lines: seq<string>): nat {
    if lines == [] then 0
    else CountRecords(lines[..|lines| - 1]) + if Trim(GoSpace, lines[|lines| - 1]) == "" then 0 else 1
  }

  datatype AnchoredCheckpoint = AnchoredCheckpoint(record: Record, txId: string, blockNumber: nat)

  datatype Latest = Found(checkpoint: AnchoredCheckpoint) | NoPublishedCheckpoint | Failed

  function LatestOf(cfg: Config, file: Option<string>): Latest {
    if file.None? then NoPublishedCheckpoint
    else
      var lines := Lines(file.value);
      if TooLong(lines) then Failed
      else if LastRecord(lines) == "" then NoPublishedCheckpoint
      else
        var last := LastRecord(lines);
        var rec := ParseRecordLine(last);
        if rec.Err? then Failed
        else Found(AnchoredCheckpoint(rec.value, BytesToHex(cfg.sha256(Utf8(last))), CountRecords(lines)))
  }

  // How the attempt to append a line goes: the file cannot be opened, or so many
  // characters of the line and its newline reach the file.
  datatype Write = CannotOpen | Reaches(count: nat)

  predicate IsComplete(write: Write, line: string) {
    write.Reaches? && write.count > |line|
  }

  function Written(write: Write, line: string): string {
    if write.CannotOpen? then ""
    else if write.count > |line| then line + "\n"
    else line[..write.count]
  }

  function Content(file: Option<string>): string {
    if file.None? then "" else file.value
  }

  class FilePublisher {
    const cfg: Config
    var file: Option<string>

    constructor (cfg: Config, file: Option<string>)
      ensures this.cfg == cfg && this.file == file
    {
      this.cfg := cfg;
      this.file := file;
    }

    // Appends a line; the file is created if need be.
    method PublishCheckpoint(rec: Record, now: string, write: Write) returns (ok: bool)
      modifies this`file
      ensures ok <==> IsComplete(write, FormatRecordLine(now, rec))
      ensures file ==
        if write.CannotOpen? then old(file) else Some(Content(old(file)) + Written(write, FormatRecordLine(now, rec)))
    {
      if write.CannotOpen? {
        return false;
      }
      if file.None? {
        file := Some("");
      }
      var line := FormatRecordLine(now, rec);
      file := Some(file.value + Written(write, line));
      ok := IsComplete(write, line);
    }

    method LatestCheckpoint() returns (latest: Latest)
      ensures latest == LatestOf(cfg, file)
    {
      if file.None? {
        return NoPublishedCheckpoint;
      }
      var tooLong, lastLine, blockNumber := Scan(Lines(file.value));
      if tooLong {
        return Failed;
      }
      if lastLine == "" {
        return NoPublishedCheckpoint;
      }
      var rec := ParseRecordLine(lastLine);
      if rec.Err? {
        return Failed;
      }
      latest := Found(AnchoredCheckpoint(rec.value, BytesToHex(cfg.sha256(Utf8(lastLine))), blockNumber));
    }
  }

  // The scanning loop.
  method Scan(lines: seq<string>) returns (tooLong: bool, lastLine: string, blockNumber: nat)
    ensures tooLong <==> TooLong(lines)
    ensures !tooLong ==> lastLine == LastRecord(lines) && blockNumber == CountRecords(lines)
  {
    hide Utf8, Trim;
    lastLine, blockNumber := "", 0;
    for i := 0 to |lines|
      invariant lastLine == LastRecord(lines[..i]) && blockNumber == CountRecords(lines[..i])
      invariant forall j | 0 <= j < i :: |Utf8(lines[j])| < MAX_TOKEN
    {
      if |Utf8(lines[i])| >= MAX_TOKEN {
        return true, lastLine, blockNumber;
      }
      assert lines[..i + 1][..i] == lines[..i];
      var line := Trim(GoSpace, lines[i]);
      if line != "" {
        blockNumber := blockNumber + 1;
        lastLine := line;
      }
    }
    assert lines[..|lines|] == lines;
    tooLong := false;
  }

  // ----- appending a line -----

  predicate IsLine(s: string) { forall i | 0 <= i < |s| :: s[i] != '\n' }

  predicate EndsLine(text: string) { text == "" || text[|text| - 1] == '\n' }

  lemma {:induction false} OneLine(line: string)
    requires IsLine(line)
    ensures Lines(line + "\n") == [line]
    decreases |line|
  {
    if line != "" {
      OneLine(line[1..]);
      assert (line + "\n")[1..] == line[1..] + "\n";
      assert [line[0]] + line[1..] == line;
    }
  }

  // Appending a line to a file that ends one leaves the lines before it alone.
  lemma {:induction false} LinesAfterAppend(text: string, line: string)
    requires EndsLine(text) && IsLine(line)
    ensures Lines(text + line + "\n") == Lines(text) + [line]
    decreases |text|
  {
    if text == "" {
      OneLine(line);
      assert text + line + "\n" == line + "\n";
    } else {
      LinesAfterAppend(text[1..], line);
      assert (text + line + "\n")[1..] == text[1..] + line + "\n";
    }
  }

  // ----- torn lines -----

  // What stands after the last newline.
  function Tail(text: string): (tail: string)
    ensures |tail| <= |text| && IsLine(tail) && tail == text[|text| - |tail|..]
  {
    if EndsLine(text) then "" else Tail(text[..|text| - 1]) + [text[|text| - 1]]
  }

  function Body(text: string): string {
    text[..|text| - |Tail(text)|]
  }

  lemma {:induction false} BodyEndsLine(text: string)
    ensures EndsLine(Body(text)) && text == Body(text) + Tail(text)
    decreases |text|
  {
    if !EndsLine(text) {
      BodyEndsLine(text[..|text| - 1]);
    }
  }

  // A text that ends a line, and a part of a line behind it.
  lemma {:induction false} TailIs(body: string, tail: string)
    requires EndsLine(body) && IsLine(tail)
    ensures Tail(body + tail) == tail && Body(body + tail) == body
    decreases |tail|
  {
    if tail == "" {
      assert body + tail == body;
    } else {
      TailIs(body, tail[..|tail| - 1]);
      assert (body + tail)[..|body + tail| - 1] == body + tail[..|tail| - 1];
    }
  }

  lemma {:induction false} LinesWithTail(body: string, tail: string)
    requires EndsLine(body) && IsLine(tail)
    ensures Lines(body + tail) == Lines(body) + if tail == "" then [] else [tail]
    decreases |body|
  {
    if body == "" {
      OneOpenLine(tail);
      assert body + tail == tail;
    } else {
      LinesWithTail(body[1..], tail);
      assert (body + tail)[1..] == body[1..] + tail;
    }
  }

  lemma {:induction false} OneOpenLine(line: string)
    requires IsLine(line)
    ensures Lines(line) == if line == "" then [] else [line]
    decreases |line|
  {
    if |line| > 1 {
      OneOpenLine(line[1..]);
      assert [line[0]] + line[1..] == line;
    }
  }

  // A whole line goes behind the lines that are there, with the torn text in front.
  lemma {:induction false} WholeLine(text: string, line: string)
    requires IsLine(line)
    ensures var text' := text + line + "\n";
      Tail(text') == "" && Body(text') == text' && Lines(text') == Lines(Body(text)) + [Tail(text) + line]
  {
    hide Lines, Tail;
    var body, tail := Body(text), Tail(text);
    var text' := text + line + "\n";
    BodyEndsLine(text);
    assert text' == body + (tail + line) + "\n";
    LinesAfterAppend(body, tail + line);
    TailIs(text', "");
    assert text' + "" == text';
  }

  // A part of a line is more torn text.
  lemma {:induction false} TornLine(text: string, part: string)
    requires IsLine(part)
    ensures Tail(text + part) == Tail(text) + part && Body(text + part) == Body(text)
  {
    hide Lines, Tail;
    var body, tail := Body(text), Tail(text);
    BodyEndsLine(text);
    assert text + part == body + (tail + part);
    TailIs(body, tail + part);
  }
}
