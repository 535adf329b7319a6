// The string operations the client and the server rely on: trimming white
// space, ASCII case folding, and hexadecimal digits.
module Text {
  import opened Wrappers

  // A text that is missing or empty.
  predicate IsAbsent(s: Option<string>) { s.None? || s.value == "" }

  // White space as strings.TrimSpace and strings.Fields of Go see it.
  predicate GoSpace(c: char) {
    || '\t' <= c <= '\r' || c == ' ' || c == '\U{85}' || c == '\U{A0}' || c == '\U{1680}'
    || '\U{2000}' <= c <= '\U{200A}' || '\U{2028}' <= c <= '\U{2029}'
    || c == '\U{202F}' || c == '\U{205F}' || c == '\U{3000}'
  }

  // White space as String.prototype.trim of JavaScript sees it.
  predicate JsSpace(c: char) {
    c == '\U{FEFF}' || (GoSpace(c) && c != '\U{85}')
  }

  // The code points of the property White_Space of Unicode, and those that sections
  // 12.2 and 12.3 of ECMA-262 name.
  const WHITE_SPACE: seq<int> := [
    0x9, 0xA, 0xB, 0xC, 0xD, 0x20, 0x85, 0xA0, 0x1680, 0x2000, 0x2001, 0x2002, 0x2003, 0x2004, 0x2005, 0x2006,
    0x2007, 0x2008, 0x2009, 0x200A, 0x2028, 0x2029, 0x202F, 0x205F, 0x3000]

  const JS_WHITE_SPACE: seq<int> := [
    0x9, 0xA, 0xB, 0xC, 0xD, 0x20, 0xA0, 0x1680, 0x2000, 0x2001, 0x2002, 0x2003, 0x2004, 0x2005, 0x2006,
    0x2007, 0x2008, 0x2009, 0x200A, 0x2028, 0x2029, 0x202F, 0x205F, 0x3000, 0xFEFF]

  lemma {:induction false} SpacesAreExact(c: char)
    ensures GoSpace(c) <==> c as int in WHITE_SPACE
    ensures JsSpace(c) <==> c as int in JS_WHITE_SPACE
  {
  }

  function TrimLeft(space: char -> bool, s: string): string {
    if s != [] && space(s[0]) then TrimLeft(space, s[1..]) else s
  }

  function TrimRight(space: char -> bool, s: string): string {
    if s != [] && space(s[|s| - 1]) then TrimRight(space, s[..|s| - 1]) else s
  }

  function Trim(space: char -> bool, s: string): string {
    TrimRight(space, TrimLeft(space, s))
  }

  // No white space at either end.
  predicate IsTrimmed(space: char -> bool, s: string) {
    s == [] || (!space(s[0]) && !space(s[|s| - 1]))
  }

  lemma {:induction false} TrimRightKeepsFirst(space: char -> bool, s: string)
    ensures var t := TrimRight(space, s);
      t <= s && (t == [] || (t[0] == s[0] && !space(t[|t| - 1])))
    decreases |s|
  {
    if s != [] && space(s[|s| - 1]) {
      TrimRightKeepsFirst(space, s[..|s| - 1]);
    }
  }

  lemma {:induction false} TrimLeftStops(space: char -> bool, s: string)
    ensures var t := TrimLeft(space, s); t == [] || !space(t[0])
    decreases |s|
  {
    if s != [] && space(s[0]) {
      TrimLeftStops(space, s[1..]);
    }
  }

  // Trimming leaves trimmed strings alone and returns only those.
  lemma TrimFixes(space: char -> bool, s: string)
    ensures IsTrimmed(space, Trim(space, s))
    ensures IsTrimmed(space, s) ==> Trim(space, s) == s
  {
    TrimLeftStops(space, s);
    TrimRightKeepsFirst(space, TrimLeft(space, s));
  }

  predicate AllSpace(space: char -> bool, s: string) {
    forall i | 0 <= i < |s| :: space(s[i])
  }

  // t stands in s from position i on, with nothing but white space around it.
  predicate CoreAt(space: char -> bool, s: string, t: string, i: nat) {
    i + |t| <= |s| && s[i..i + |t|] == t && AllSpace(space, s[..i]) && AllSpace(space, s[i + |t|..])
  }

  // t is what is left of s without the white space at its ends.
  ghost predicate IsTrimOf(space: char -> bool, s: string, t: string) {
    IsTrimmed(space, t) && exists i: nat :: CoreAt(space, s, t, i)
  }

  lemma {:induction false} TrimLeftCuts(space: char -> bool, s: string)
    ensures var t := TrimLeft(space, s); |t| <= |s| && s[|s| - |t|..] == t && AllSpace(space, s[..|s| - |t|])
    decreases |s|
  {
    if s != [] && space(s[0]) {
      TrimLeftCuts(space, s[1..]);
      var k := |s| - |TrimLeft(space, s)|;
      assert s[..k] == [s[0]] + s[1..][..k - 1];
    }
  }

  lemma {:induction false} TrimRightCuts(space: char -> bool, s: string)
    ensures var t := TrimRight(space, s); |t| <= |s| && s[..|t|] == t && AllSpace(space, s[|t|..])
    decreases |s|
  {
    if s != [] && space(s[|s| - 1]) {
      var init := s[..|s| - 1];
      TrimRightCuts(space, init);
      var n := |TrimRight(space, s)|;
      assert s[n..] == init[n..] + [s[|s| - 1]];
    }
  }

  lemma {:induction false} TrimIsThere(space: char -> bool, s: string) returns (i: nat)
    ensures CoreAt(space, s, Trim(space, s), i)
  {
    var rest := TrimLeft(space, s);
    var t := TrimRight(space, rest);
    TrimLeftCuts(space, s);
    i := |s| - |rest|;
    TrimRightCuts(space, rest);
    assert s[i..][..|t|] == s[i..i + |t|] && s[i..][|t|..] == s[i + |t|..];
  }

  lemma {:induction false} CoreIsUnique(space: char -> bool, s: string, t: string, i: nat, u: string, j: nat)
    requires CoreAt(space, s, t, i) && CoreAt(space, s, u, j) && IsTrimmed(space, t) && IsTrimmed(space, u)
    ensures t == u
  {
    if t != [] {
      StandsWithin(space, s, t, i, u, j);
    }
    if u != [] {
      StandsWithin(space, s, u, j, t, i);
    }
  }

  lemma {:induction false} AroundIsSpace(space: char -> bool, s: string, t: string, i: nat, k: nat)
    requires CoreAt(space, s, t, i) && k < |s| && !(i <= k < i + |t|)
    ensures space(s[k])
  {
    if k < i {
      assert s[..i][k] == s[k];
    } else {
      assert s[i + |t|..][k - (i + |t|)] == s[k];
    }
  }

  // A trimmed text stands within any other core.
  lemma {:induction false} StandsWithin(space: char -> bool, s: string, t: string, i: nat, u: string, j: nat)
    requires CoreAt(space, s, t, i) && CoreAt(space, s, u, j) && t != [] && IsTrimmed(space, t)
    ensures j <= i && i + |t| <= j + |u|
  {
    var k := i + |t| - 1;
    assert s[i] == t[0] && s[k] == t[|t| - 1];
    if !(j <= i < j + |u|) {
      AroundIsSpace(space, s, u, j, i);
    }
    if !(j <= k < j + |u|) {
      AroundIsSpace(space, s, u, j, k);
    }
  }

  // Trimming takes away the white space at both ends and nothing else.
  lemma {:induction false} TrimIsExact(space: char -> bool, s: string, t: string)
    ensures Trim(space, s) == t <==> IsTrimOf(space, s, t)
  {
    hide Trim, TrimLeft;
    TrimFixes(space, s);
    var at := TrimIsThere(space, s);
    if IsTrimOf(space, s, t) {
      var i: nat :| CoreAt(space, s, t, i);
      CoreIsUnique(space, s, t, i, Trim(space, s), at);
    }
  }

  // In particular nothing is left of a text of white space only.
  lemma {:induction false} BlankIsAllSpace(space: char -> bool, s: string)
    ensures Trim(space, s) == "" <==> AllSpace(space, s)
  {
    hide Trim, TrimLeft;
    var at := TrimIsThere(space, s);
    if Trim(space, s) == "" {
      forall k | 0 <= k < |s| ensures space(s[k]) {
        AroundIsSpace(space, s, "", at, k);
      }
    } else {
      TrimFixes(space, s);
      assert s[at] == Trim(space, s)[0];
    }
  }

  // ----- hexadecimal digits -----

  predicate IsHex(c: char) {
    '0' <= c <= '9' || 'a' <= c <= 'f' || 'A' <= c <= 'F'
  }

  predicate AllHex(s: string) {
    forall i | 0 <= i < |s| :: IsHex(s[i])
  }

  predicate IsLowerHex(c: char) {
    '0' <= c <= '9' || 'a' <= c <= 'f'
  }

  predicate AllLowerHex(s: string) {
    forall i | 0 <= i < |s| :: IsLowerHex(s[i])
  }

  function HexValue(c: char): (v: int)
    requires IsHex(c)
    ensures 0 <= v < 16
  {
    if c <= '9' then c as int - '0' as int
    else if c <= 'F' then c as int - 'A' as int + 10
    else c as int - 'a' as int + 10
  }

  function HexDigit(v: int): (c: char)
    requires 0 <= v < 16
    ensures IsLowerHex(c) && HexValue(c) == v
  {
    if v < 10 then ('0' as int + v) as char else ('a' as int + v - 10) as char
  }

  // ----- ASCII case folding -----

  function LowerLetters(): string { "abcdefghijklmnopqrstuvwxyz" }

  function UpperLetters(): string { "ABCDEFGHIJKLMNOPQRSTUVWXYZ" }

  // The same letter of the other alphabet, or c itself when it is no letter of the
  // first.
  predicate IsRecased(source: string, target: string, c: char, d: char) {
    if c in source then exists i | 0 <= i < |source| :: source[i] == c && i < |target| && target[i] == d else d == c
  }

  predicate IsLowerOf(s: string, r: string) {
    |r| == |s| && forall i | 0 <= i < |s| :: IsRecased(UpperLetters(), LowerLetters(), s[i], r[i])
  }

  predicate IsUpperOf(s: string, r: string) {
    |r| == |s| && forall i | 0 <= i < |s| :: IsRecased(LowerLetters(), UpperLetters(), s[i], r[i])
  }

  lemma {:induction false} LettersInOrder()
    ensures |UpperLetters()| == |LowerLetters()| == 26
    ensures forall i | 0 <= i < 26 :: UpperLetters()[i] == ('A' as int + i) as char
    ensures forall i | 0 <= i < 26 :: LowerLetters()[i] == ('a' as int + i) as char
  {
  }

  lemma {:induction false} RecasedByOffset(source: string, first: char, target: string, c: char, d: char, e: char)
    requires |source| == |target| == 26 && first as int + 25 < 0x80 && e as int + 25 < 0x80
    requires forall i | 0 <= i < 26 :: source[i] == (first as int + i) as char
    requires forall i | 0 <= i < 26 :: target[i] == (e as int + i) as char
    ensures IsRecased(source, target, c, d) <==>
      d == if first as int <= c as int <= first as int + 25 then (c as int - first as int + e as int) as char else c
  {
    if first as int <= c as int <= first as int + 25 {
      assert source[c as int - first as int] == c;
    }
  }

  lemma {:induction false} LowerCharIsExact(c: char, d: char)
    ensures LowerChar(c) == d <==> IsRecased(UpperLetters(), LowerLetters(), c, d)
  {
    hide UpperLetters, LowerLetters, IsRecased;
    LettersInOrder();
    RecasedByOffset(UpperLetters(), 'A', LowerLetters(), c, d, 'a');
  }

  lemma {:induction false} UpperCharIsExact(c: char, d: char)
    ensures UpperChar(c) == d <==> IsRecased(LowerLetters(), UpperLetters(), c, d)
  {
    hide UpperLetters, LowerLetters, IsRecased;
    LettersInOrder();
    RecasedByOffset(LowerLetters(), 'a', UpperLetters(), c, d, 'A');
  }

  // Folding takes each letter to the same letter of the other alphabet.
  lemma {:induction false} LowerIsExact(s: string, r: string)
    ensures Lower(s) == r <==> IsLowerOf(s, r)
  {
    hide UpperLetters, LowerLetters, IsRecased;
    forall i | 0 <= i < |s| && |r| == |s|
      ensures Lower(s)[i] == r[i] <==> IsRecased(UpperLetters(), LowerLetters(), s[i], r[i])
    {
      LowerCharIsExact(s[i], r[i]);
    }
  }

  lemma {:induction false} UpperIsExact(s: string, r: string)
    ensures Upper(s) == r <==> IsUpperOf(s, r)
  {
    hide UpperLetters, LowerLetters, IsRecased;
    forall i | 0 <= i < |s| && |r| == |s|
      ensures Upper(s)[i] == r[i] <==> IsRecased(LowerLetters(), UpperLetters(), s[i], r[i])
    {
      UpperCharIsExact(s[i], r[i]);
    }
  }

  function UpperChar(c: char): char {
    if 'a' <= c <= 'z' then (c as int - 32) as char else c
  }

  function Upper(s: string): (r: string)
    ensures |r| == |s| && forall i | 0 <= i < |s| :: r[i] == UpperChar(s[i])
  {
    if s == [] then [] else [UpperChar(s[0])] + Upper(s[1..])
  }

  function LowerChar(c: char): char {
    if 'A' <= c <= 'Z' then (c as int + 32) as char else c
  }

  function Lower(s: string): (r: string)
    ensures |r| == |s| && forall i | 0 <= i < |s| :: r[i] == LowerChar(s[i])
  {
    if s == [] then [] else [LowerChar(s[0])] + Lower(s[1..])
  }

  function HexDigits(): string { "0123456789abcdef" }

  lemma {:induction false} HexDigitsInOrder()
    ensures |HexDigits()| == 16
    ensures forall i | 0 <= i < 10 :: HexDigits()[i] == ('0' as int + i) as char
    ensures forall i | 10 <= i < 16 :: HexDigits()[i] == ('a' as int + i - 10) as char
  {
  }

  // A character is a hex digit when it is one of the sixteen in lower case, and its
  // value is its place among them.
  lemma {:induction false} HexIsExact(c: char)
    ensures IsHex(c) <==> LowerChar(c) in HexDigits()
    ensures IsHex(c) ==> HexDigits()[HexValue(c)] == LowerChar(c)
    ensures IsLowerHex(c) <==> c in HexDigits()
  {
    hide HexDigits;
    HexDigitsInOrder();
    if IsHex(c) {
      assert HexDigits()[HexValue(c)] == LowerChar(c);
    }
    if IsLowerHex(c) {
      assert HexDigits()[HexValue(c)] == c;
    }
  }

  lemma {:induction false} HexDigitIsExact(v: int)
    requires 0 <= v < 16
    ensures HexDigit(v) == HexDigits()[v]
  {
    hide HexDigits;
    HexDigitsInOrder();
  }
}
