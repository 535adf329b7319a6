// server/internal/hashutil/hash.go, and how the client reads the payload hash
// back from a stored event (client/verify.js).
module PayloadHash {
  import opened Wrappers
  import opened Text
  import opened ClientCrypto

  // ParsePayloadHashValue: the 64 hex digits after "hex:", in lower case. ASCII
  // case folding is enough: no other letter folds to a hex digit or to h, e or x.
  function ParsePayloadHashValue(v: string): (r: Result<string>)
    ensures r.Ok? ==> |r.value| == 64 && AllLowerHex(r.value)
  {
    var lower := Lower(Trim(GoSpace, v));
    if !("hex:" <= lower) then Err
    else
      var hexPart := lower[4..];
      if |hexPart| == 64 && AllHex(hexPart) then
        LowerHexDigits(Trim(GoSpace, v)[4..], hexPart);
        Ok(hexPart)
      else Err
  }

  lemma LowerHexDigits(s: string, t: string)
    requires |s| == |t| && AllHex(t) && forall i | 0 <= i < |s| :: t[i] == LowerChar(s[i])
    ensures AllLowerHex(t)
  {
  }

  // The text the server stores for a digest.
  function Stored(digest: string): string { "hex:" + digest }

  // extractEventPayloadHash on the value field of an event; None when the field
  // is missing or not a string.
  function ExtractEventPayloadHash(value: Option<string>): Result<string> {
    if value.None? || !("hex:" <= value.value) then Err
    else
      var hex := Lower(value.value[4..]);
      if hex != [] && AllLowerHex(hex) then Ok(hex) else Err
  }

  // The page extracts exactly the text behind hex: in lower case, when that is
  // hexadecimal and there is some.
  lemma {:induction false} ExtractsExactly(value: Option<string>, h: string)
    ensures ExtractEventPayloadHash(value) == Ok(h) <==>
      && value.Some? && "hex:" <= value.value && IsLowerOf(value.value[4..], h)
      && h != "" && forall i | 0 <= i < |h| :: h[i] in HexDigits()
  {
    hide IsLowerOf, HexDigits;
    if value.Some? && "hex:" <= value.value {
      LowerIsExact(value.value[4..], h);
    }
    forall i | 0 <= i < |h| ensures h[i] in HexDigits() <==> IsLowerHex(h[i]) {
      HexIsExact(h[i]);
    }
  }

  lemma LowerOfLower(s: string)
    requires AllLowerHex(s)
    ensures Lower(s) == s
  {
  }

  // A value is accepted with a digest exactly when it is that digest with the
  // prefix in front, up to case and surrounding white space.
  lemma {:induction false} ParseIsExact(v: string, digest: string)
    requires |digest| == 64 && AllLowerHex(digest)
    ensures ParsePayloadHashValue(v) == Ok(digest) <==> Lower(Trim(GoSpace, v)) == Stored(digest)
  {
    var lower := Lower(Trim(GoSpace, v));
    if lower == Stored(digest) {
      assert lower[4..] == digest;
    }
    if "hex:" <= lower {
      assert lower == "hex:" + lower[4..];
    }
  }

  // The same without the operations that bring it to that form: v is, but for white
  // space around it and case, hex: with these 64 digits.
  ghost predicate IsValueOf(v: string, digest: string) {
    |digest| == 64 && AllLowerHex(digest) && exists t | IsTrimOf(GoSpace, v, t) :: IsLowerOf(t, "hex:" + digest)
  }

  lemma {:induction false} ParsesExactly(v: string, digest: string)
    ensures ParsePayloadHashValue(v) == Ok(digest) <==> IsValueOf(v, digest)
  {
    hide Trim, IsLowerOf, Lower;
    var t := Trim(GoSpace, v);
    TrimIsExact(GoSpace, v, t);
    LowerIsExact(t, "hex:" + digest);
    forall u | IsTrimOf(GoSpace, v, u) ensures u == t {
      TrimIsExact(GoSpace, v, u);
    }
    if |digest| == 64 && AllLowerHex(digest) {
      ParseIsExact(v, digest);
    }
  }

  // A stored value is a fixed point: parsing it again gives the same digest.
  lemma StoredParses(digest: string)
    requires |digest| == 64 && AllLowerHex(digest)
    ensures ParsePayloadHashValue(Stored(digest)) == Ok(digest)
  {
    var s := Stored(digest);
    assert s[|s| - 1] == digest[63] && !GoSpace(s[0]) && IsLowerHex(digest[63]);
    TrimFixes(GoSpace, s);
    var lower := Lower(s);
    assert lower[..4] == "hex:" && lower[4..] == digest by {
      forall i | 0 <= i < 64 ensures lower[4 + i] == digest[i] {
        assert s[4 + i] == digest[i] && IsLowerHex(digest[i]);
      }
    }
  }

  // The digest the server accepts survives storage: the server reads the same
  // digest back, the client extracts it, and both agree on its 32 bytes.
  lemma DigestSurvives(v: string)
    requires ParsePayloadHashValue(v).Ok?
    ensures var digest := ParsePayloadHashValue(v).value;
      && ParsePayloadHashValue(Stored(digest)) == Ok(digest)
      && ExtractEventPayloadHash(Some(Stored(digest))) == Ok(digest)
      && ParseHex(digest).Ok? && |ParseHex(digest).value| == 32
      && BytesToHex(ParseHex(digest).value) == digest
  {
    var digest := ParsePayloadHashValue(v).value;
    StoredParses(digest);
    assert Stored(digest)[4..] == digest;
    LowerOfLower(digest);
    HexPartOfDigits(digest);
    EncodeOfDecode(digest);
  }
}
