// Records of published checkpoints as lines of text: formatRecordLine and
// parseRecordLine of server/internal/anchor/file_publisher.go.
module AnchorRecord {
  import opened Wrappers
  import opened Text

  const UINT8_LIMIT := 0x100
  const UINT64_LIMIT := 0x1_0000_0000_0000_0000

  type uint8 = n: int | 0 <= n < UINT8_LIMIT
  type uint64 = n: int | 0 <= n < UINT64_LIMIT

  datatype Record = Record(
    domainSeparator: string, version: uint8, treeSize: uint64, rootHashHex: string, checkpointHash: string)

  // ----- decimal numbers -----

  predicate IsDigit(c: char) { '0' <= c <= '9' }

  function Decimal(n: nat): (s: string)
    ensures s != [] && forall c | c in s :: IsDigit(c)
  {
    if n < 10 then [('0' as int + n) as char] else Decimal(n / 10) + [('0' as int + n % 10) as char]
  }

  function DecimalValue(s: string): nat
    requires forall c | c in s :: IsDigit(c)
  {
    if s == [] then 0
    else
      assert IsDigit(s[|s| - 1]);
      DecimalValue(s[..|s| - 1]) * 10 + (s[|s| - 1] as int - '0' as int)
  }

  // strconv.ParseUint in base 10.
  function ParseUint(s: string, limit: nat): (r: Result<nat>)
    ensures r.Ok? ==> r.value < limit
  {
    if s == [] || exists c | c in s :: !IsDigit(c) then Err
    else if DecimalValue(s) < limit then Ok(DecimalValue(s))
    else Err
  }

  lemma {:induction false} ValueOfDecimal(n: nat)
    ensures DecimalValue(Decimal(n)) == n
  {
    if n >= 10 {
      ValueOfDecimal(n / 10);
      assert Decimal(n)[..|Decimal(n)| - 1] == Decimal(n / 10);
    }
  }

  function Pow10(k: nat): nat { if k == 0 then 1 else 10 * Pow10(k - 1) }

  lemma {:induction false} DecimalLength(n: nat, k: nat)
    requires k > 0 && n < Pow10(k)
    ensures |Decimal(n)| <= k
    decreases k
  {
    if n >= 10 {
      DecimalLength(n / 10, k - 1);
    }
  }

  // ----- fields -----

  // Neither empty nor with white space in it.
  predicate IsWord(s: string) {
    s != [] && forall c | c in s :: !GoSpace(c)
  }

  function WordLength(s: string): (n: nat)
    ensures n <= |s| && (forall i | 0 <= i < n :: !GoSpace(s[i])) && (n < |s| ==> GoSpace(s[n]))
  {
    if s == [] || GoSpace(s[0]) then 0 else 1 + WordLength(s[1..])
  }

  // strings.Fields.
  function Fields(s: string): (fields: seq<string>)
    ensures forall f | f in fields :: IsWord(f)
    decreases |s|
  {
    if s == [] then []
    else if GoSpace(s[0]) then Fields(s[1..])
    else [s[..WordLength(s)]] + Fields(s[WordLength(s)..])
  }

  // s is a word, and after it nothing or white space.
  lemma {:induction false} FieldsAfterWord(s: string, w: string, rest: string)
    requires s == w + rest && IsWord(w) && (rest != "" ==> GoSpace(rest[0]))
    ensures Fields(s) == [w] + Fields(rest)
  {
    WordLengthIs(s, |w|);
    assert s[..|w|] == w && s[|w|..] == rest;
  }

  lemma {:induction false} WordLengthIs(s: string, n: nat)
    requires n <= |s| && (forall i | 0 <= i < n :: !GoSpace(s[i])) && (n < |s| ==> GoSpace(s[n]))
    ensures WordLength(s) == n
  {
  }

  // s is a and b with a space between them.
  lemma {:induction false} FieldsOfParts(s: string, a: string, b: string)
    requires s == a + " " + b
    ensures Fields(s) == Fields(a) + Fields(b)
    decreases |a|
  {
    if a == "" {
      assert s[1..] == b;
    } else if GoSpace(a[0]) {
      assert s[1..] == a[1..] + " " + b;
      FieldsOfParts(s[1..], a[1..], b);
    } else {
      var n := WordLength(a);
      FieldsOfParts(s[n..], a[n..], b);
      FieldsAfterWord(a, a[..n], a[n..]);
      FieldsAfterWord(s, a[..n], s[n..]);
    }
  }

  lemma {:induction false} FieldsOfWord(w: string)
    requires IsWord(w)
    ensures Fields(w) == [w]
  {
    FieldsAfterWord(w, w, "");
  }

  lemma {:induction false} SomeField(s: string, i: nat)
    requires i < |s| && !GoSpace(s[i])
    ensures Fields(s) != []
    decreases |s|
  {
    if GoSpace(s[0]) {
      SomeField(s[1..], i - 1);
    }
  }

  // Text without leading white space in front of a word makes one word of the two
  // exactly when there is no white space in it.
  lemma {:induction false} JunkBeforeWord(junk: string, w: string)
    requires IsWord(w) && (junk != "" ==> !GoSpace(junk[0]))
    ensures |Fields(junk + w)| >= 1
    ensures |Fields(junk + w)| == 1 <==> forall c | c in junk :: !GoSpace(c)
  {
    if forall c | c in junk :: !GoSpace(c) {
      FieldsOfWord(junk + w);
    } else {
      var n := WordLength(junk);
      var rest := junk[n..] + w;
      FieldsAfterWord(junk + w, junk[..n], rest);
      assert rest[|rest| - 1] == w[|w| - 1] && w[|w| - 1] in w;
      SomeField(rest, |rest| - 1);
    }
  }

  // ----- lines -----

  // The %s %s %d %d %s %s of formatRecordLine; now is the clock as text.
  function FormatRecordLine(now: string, rec: Record): string {
    now + " " + rec.domainSeparator + " " + Decimal(rec.version) + " " + Decimal(rec.treeSize)
    + " " + rec.rootHashHex + " " + rec.checkpointHash
  }

  function ParseRecordLine(line: string): Result<Record> {
    var fields := Fields(line);
    if |fields| != 6 then Err
    else
      var version := ParseUint(fields[2], UINT8_LIMIT);
      var treeSize := ParseUint(fields[3], UINT64_LIMIT);
      if version.Err? || treeSize.Err? then Err
      else Ok(Record(fields[1], version.value, treeSize.value, fields[4], fields[5]))
  }

  // A number in decimal digits below a limit.
  predicate IsNumber(s: string, limit: nat) {
    s != [] && (forall c | c in s :: IsDigit(c)) && DecimalValue(s) < limit
  }

  // A line is a record exactly when it has six fields, the third of them a uint8 and
  // the fourth a uint64.
  lemma {:induction false} ParsesExactly(line: string)
    ensures var f := Fields(line);
      ParseRecordLine(line).Ok? <==> |f| == 6 && IsNumber(f[2], 256) && IsNumber(f[3], 0x1_0000_0000_0000_0000)
    ensures ParseRecordLine(line).Ok? ==>
      var f, rec := Fields(line), ParseRecordLine(line).value;
      && rec.domainSeparator == f[1] && rec.version == DecimalValue(f[2]) && rec.treeSize == DecimalValue(f[3])
      && rec.rootHashHex == f[4] && rec.checkpointHash == f[5]
  {
  }

  lemma {:induction false} FieldsOfRecordLine(now: string, rec: Record)
    ensures Fields(FormatRecordLine(now, rec)) ==
      Fields(now) + Fields(rec.domainSeparator) + [Decimal(rec.version)] + [Decimal(rec.treeSize)]
        + Fields(rec.rootHashHex) + Fields(rec.checkpointHash)
  {
    var a := now + " " + rec.domainSeparator;
    var b := a + " " + Decimal(rec.version);
    var c := b + " " + Decimal(rec.treeSize);
    var d := c + " " + rec.rootHashHex;
    FieldsOfParts(FormatRecordLine(now, rec), d, rec.checkpointHash);
    FieldsOfParts(d, c, rec.rootHashHex);
    FieldsOfParts(c, b, Decimal(rec.treeSize));
    FieldsOfParts(b, a, Decimal(rec.version));
    FieldsOfParts(a, now, rec.domainSeparator);
    FieldsOfWord(Decimal(rec.version));
    FieldsOfWord(Decimal(rec.treeSize));
  }

  predicate HasWords(rec: Record) {
    IsWord(rec.domainSeparator) && IsWord(rec.rootHashHex) && IsWord(rec.checkpointHash)
  }

  lemma {:induction false} FieldsOfWords(now: string, rec: Record)
    requires HasWords(rec)
    ensures Fields(FormatRecordLine(now, rec)) ==
      Fields(now) + [rec.domainSeparator, Decimal(rec.version), Decimal(rec.treeSize), rec.rootHashHex,
        rec.checkpointHash]
  {
    FieldsOfRecordLine(now, rec);
    FieldsOfWord(rec.domainSeparator);
    FieldsOfWord(rec.rootHashHex);
    FieldsOfWord(rec.checkpointHash);
  }

  lemma {:induction false} ParseOfFields(line: string, rec: Record)
    requires |Fields(line)| == 6
    requires Fields(line)[1..] ==
      [rec.domainSeparator, Decimal(rec.version), Decimal(rec.treeSize), rec.rootHashHex, rec.checkpointHash]
    ensures ParseRecordLine(line) == Ok(rec)
  {
    var fields := Fields(line);
    ValueOfDecimal(rec.version);
    ValueOfDecimal(rec.treeSize);
    assert fields[1..][0] == fields[1] && fields[1..][1] == fields[2] && fields[1..][2] == fields[3];
    assert fields[1..][3] == fields[4] && fields[1..][4] == fields[5];
  }

  // Reading back a printed record gives that record exactly when the clock text
  // is one field and none of the three texts is empty or contains white space;
  // the numbers always come back, up to the largest uint8 and uint64.
  lemma {:induction false} RecordRoundTrip(now: string, rec: Record)
    ensures ParseRecordLine(FormatRecordLine(now, rec)) == Ok(rec) <==> |Fields(now)| == 1 && HasWords(rec)
  {
    var line := FormatRecordLine(now, rec);
    if ParseRecordLine(line) == Ok(rec) {
      assert Fields(line)[1] in Fields(line) && Fields(line)[4] in Fields(line) && Fields(line)[5] in Fields(line);
    }
    if HasWords(rec) {
      FieldsOfWords(now, rec);
      if |Fields(now)| == 1 {
        ParseOfFields(line, rec);
      }
    }
  }
}
