// client/crypto.js: hashing of leaves and nodes, hexadecimal text, comparison.
module ClientCrypto {
  import opened Wrappers
  import opened HashTrees
  import opened Text

  // ----- hashing -----

  method HashLeaf(H: HashFn, leafBytes: Bytes) returns (d: Digest)
    ensures d == H(LeafInput(leafBytes))
  {
    var input := new byte[1 + |leafBytes|];
    input[0] := 0x00;
    forall i | 0 <= i < |leafBytes| {
      input[1 + i] := leafBytes[i];
    }
    assert input[..] == LeafInput(leafBytes);
    d := H(input[..]);
  }

  // Throws unless both inputs are 32 bytes long.
  method HashNode(H: HashFn, left32: Bytes, right32: Bytes) returns (d: Result<Digest>)
    ensures d == if |left32| == 32 && |right32| == 32 then Ok(H(NodeInput(left32, right32))) else Err
  {
    if |left32| != 32 || |right32| != 32 {
      return Err;
    }
    var input := new byte[1 + 32 + 32];
    input[0] := 0x01;
    forall i | 0 <= i < 32 {
      input[1 + i] := left32[i];
    }
    forall i | 0 <= i < 32 {
      input[33 + i] := right32[i];
    }
    assert input[..] == NodeInput(left32, right32);
    d := Ok(H(input[..]));
  }

  method EqualBytes(a: Bytes, b: Bytes) returns (equal: bool)
    ensures equal <==> a == b
  {
    if |a| != |b| {
      return false;
    }
    for i := 0 to |a|
      invariant a[..i] == b[..i]
    {
      if a[i] != b[i] {
        return false;
      }
    }
    equal := true;
  }

  // ----- hexadecimal text -----

  // The bytes that an even number of hex digits stands for.
  function DecodeHex(h: string): (b: Bytes)
    requires |h| % 2 == 0 && AllHex(h)
    ensures |b| == |h| / 2
  {
    if h == [] then [] else [BytePair(h[0], h[1])] + DecodeHex(h[2..])
  }

  function BytePair(high: char, low: char): byte
    requires IsHex(high) && IsHex(low)
  {
    16 * HexValue(high) + HexValue(low)
  }

  lemma {:induction false} DecodeHexAt(h: string, i: nat)
    requires |h| % 2 == 0 && AllHex(h) && 2 * i < |h|
    ensures DecodeHex(h)[i] == BytePair(h[2 * i], h[2 * i + 1])
    decreases i
  {
    if i > 0 {
      DecodeHexAt(h[2..], i - 1);
    }
  }

  function HexPart(hex: string): string {
    var t := Trim(JsSpace, hex);
    if "0x" <= t then t[2..] else t
  }

  function ParseHex(hex: string): Result<Bytes> {
    var h := HexPart(hex);
    if AllHex(h) && |h| % 2 == 0 then Ok(DecodeHex(h)) else Err
  }

  method HexToBytes(hex: string) returns (r: Result<Bytes>)
    ensures r == ParseHex(hex)
  {
    var h := HexPart(hex);
    if !AllHex(h) || |h| % 2 != 0 {
      return Err;
    }
    var out := new byte[|h| / 2];
    for i := 0 to out.Length
      invariant out[..i] == DecodeHex(h)[..i]
    {
      out[i] := BytePair(h[2 * i], h[2 * i + 1]);
      DecodeHexAt(h, i);
    }
    assert out[..] == DecodeHex(h);
    r := Ok(out[..]);
  }

  function BytesToHex(b: Bytes): (h: string)
    ensures |h| == 2 * |b| && AllLowerHex(h)
  {
    if b == [] then [] else [HexDigit(b[0] / 16), HexDigit(b[0] % 16)] + BytesToHex(b[1..])
  }

  lemma {:induction false} DecodeOfEncode(b: Bytes)
    ensures DecodeHex(BytesToHex(b)) == b
  {
    if b != [] {
      var h, rest := BytesToHex(b), BytesToHex(b[1..]);
      assert h == [HexDigit(b[0] / 16), HexDigit(b[0] % 16)] + rest;
      assert h[2..] == rest && BytePair(h[0], h[1]) == b[0];
      DecodeOfEncode(b[1..]);
    }
  }

  lemma PairDigits(high: char, low: char)
    requires IsLowerHex(high) && IsLowerHex(low)
    ensures var v := BytePair(high, low); HexDigit(v / 16) == high && HexDigit(v % 16) == low
  {
  }

  lemma BytesToHexCons(v: byte, rest: Bytes)
    ensures BytesToHex([v] + rest) == [HexDigit(v / 16), HexDigit(v % 16)] + BytesToHex(rest)
  {
  }

  // bytesToHex undoes hexToBytes on lower-case digits.
  lemma {:induction false} EncodeOfDecode(h: string)
    requires |h| % 2 == 0 && AllLowerHex(h)
    ensures BytesToHex(DecodeHex(h)) == h
  {
    if h != [] {
      var rest := DecodeHex(h[2..]);
      PairDigits(h[0], h[1]);
      EncodeOfDecode(h[2..]);
      BytesToHexCons(BytePair(h[0], h[1]), rest);
      assert h == [h[0], h[1]] + h[2..];
    }
  }

  // The text of b[i] is the digit of its upper half and that of its lower half.
  lemma {:induction false} BytesToHexAt(b: Bytes, i: nat)
    requires i < |b|
    ensures BytesToHex(b)[2 * i] == HexDigits()[b[i] / 16] && BytesToHex(b)[2 * i + 1] == HexDigits()[b[i] % 16]
    decreases |b|
  {
    hide HexDigits;
    HexDigitIsExact(b[0] / 16);
    HexDigitIsExact(b[0] % 16);
    if i > 0 {
      BytesToHexAt(b[1..], i - 1);
    }
  }

  lemma {:induction false} SameDigitInLower(c: char)
    requires IsHex(c)
    ensures IsLowerHex(LowerChar(c)) && HexValue(LowerChar(c)) == HexValue(c)
  {
  }

  lemma {:induction false} DecodeOfLower(h: string)
    requires |h| % 2 == 0 && AllHex(h)
    ensures AllLowerHex(Lower(h)) && DecodeHex(Lower(h)) == DecodeHex(h)
    decreases |h|
  {
    hide HexValue, LowerChar;
    if h != [] {
      SameDigitInLower(h[0]);
      SameDigitInLower(h[1]);
      DecodeOfLower(h[2..]);
      assert Lower(h) == [LowerChar(h[0]), LowerChar(h[1])] + Lower(h[2..]);
      assert Lower(h)[2..] == Lower(h[2..]);
    }
  }

  // Upper-case digits are read as the same digits in lower case.
  lemma {:induction false} PrintsLower(h: string)
    requires |h| % 2 == 0 && AllHex(h)
    ensures BytesToHex(DecodeHex(h)) == Lower(h)
  {
    DecodeOfLower(h);
    EncodeOfDecode(Lower(h));
  }

  // hex stands for b: without white space around it and the optional 0x, it is the
  // printed form of b in either case.
  ghost predicate StandsFor(hex: string, b: Bytes) {
    exists t | IsTrimOf(JsSpace, hex, t) :: IsLowerOf(if "0x" <= t then t[2..] else t, BytesToHex(b))
  }

  lemma {:induction false} StandsForPart(hex: string, b: Bytes)
    ensures StandsFor(hex, b) <==> IsLowerOf(HexPart(hex), BytesToHex(b))
  {
    hide Trim, IsLowerOf, IsTrimOf, BytesToHex;
    var t := Trim(JsSpace, hex);
    TrimIsExact(JsSpace, hex, t);
    forall u | IsTrimOf(JsSpace, hex, u) ensures u == t {
      TrimIsExact(JsSpace, hex, u);
    }
  }

  lemma {:induction false} PartFolds(h: string, b: Bytes)
    ensures AllHex(h) && |h| % 2 == 0 && DecodeHex(h) == b <==> Lower(h) == BytesToHex(b)
  {
    hide AllHex, BytesToHex, DecodeHex;
    if AllHex(h) && |h| % 2 == 0 {
      PrintsLower(h);
      if Lower(h) == BytesToHex(b) {
        HexInjective(DecodeHex(h), b);
      }
    } else if Lower(h) == BytesToHex(b) {
      HexFromLower(h);
    }
  }

  lemma {:induction false} ParseHexIsExact(hex: string, b: Bytes)
    ensures ParseHex(hex) == Ok(b) <==> StandsFor(hex, b)
  {
    hide HexPart, IsLowerOf, StandsFor, AllHex, DecodeHex, BytesToHex, Lower;
    StandsForPart(hex, b);
    LowerIsExact(HexPart(hex), BytesToHex(b));
    PartFolds(HexPart(hex), b);
  }

  lemma {:induction false} HexFromLower(h: string)
    requires AllLowerHex(Lower(h))
    ensures AllHex(h)
  {
    forall i | 0 <= i < |h| ensures IsHex(h[i]) {
      assert IsLowerHex(Lower(h)[i]);
    }
  }

  // hexToBytes reads plain hex digits as they are.
  lemma HexPartOfDigits(h: string)
    requires AllHex(h)
    ensures HexPart(h) == h
  {
    TrimFixes(JsSpace, h);
    assert |h| > 1 ==> IsHex(h[1]);
  }

  // hexToBytes undoes bytesToHex, so the text determines the bytes.
  lemma {:induction false} HexRoundTrip(b: Bytes)
    ensures ParseHex(BytesToHex(b)) == Ok(b)
  {
    HexPartOfDigits(BytesToHex(b));
    DecodeOfEncode(b);
  }

  lemma HexInjective(a: Bytes, b: Bytes)
    requires BytesToHex(a) == BytesToHex(b)
    ensures a == b
  {
    HexRoundTrip(a);
    HexRoundTrip(b);
  }

  // ----- lists of hashes -----

  // How the server writes the hashes of a proof (server/internal/proofsvc).
  function EncodeHashes(p: seq<Digest>): seq<string> {
    seq(|p|, i requires 0 <= i < |p| => BytesToHex(p[i]))
  }

  // How a verifier reads them; Err when one of them is not hex.
  function DecodeHashes(proofHex: seq<string>): Result<seq<Bytes>> {
    if forall i | 0 <= i < |proofHex| :: ParseHex(proofHex[i]).Ok? then
      Ok(seq(|proofHex|, i requires 0 <= i < |proofHex| && ParseHex(proofHex[i]).Ok? => ParseHex(proofHex[i]).value))
    else Err
  }

  predicate AllDigests(p: seq<Bytes>) {
    forall i | 0 <= i < |p| :: |p[i]| == 32
  }

  lemma HashesRoundTrip(p: seq<Digest>)
    ensures DecodeHashes(EncodeHashes(p)) == Ok(p)
  {
    forall i | 0 <= i < |p| ensures ParseHex(EncodeHashes(p)[i]) == Ok(p[i]) {
      HexRoundTrip(p[i]);
    }
    assert DecodeHashes(EncodeHashes(p)).value == p;
  }
}
