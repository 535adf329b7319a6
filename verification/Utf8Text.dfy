// The bytes of a text in UTF-8 (RFC 3629), as the server writes and hashes it.
module Utf8Text {
  import opened HashTrees

  function Utf8Char(c: char): (b: Bytes)
    ensures 1 <= |b| <= 4
  {
    var n := c as int;
    if n < 0x80 then [n]
    else if n < 0x800 then [0xC0 + n / 0x40, 0x80 + n % 0x40]
    else if n < 0x1_0000 then [0xE0 + n / 0x1000, 0x80 + n / 0x40 % 0x40, 0x80 + n % 0x40]
    else [0xF0 + n / 0x4_0000, 0x80 + n / 0x1000 % 0x40, 0x80 + n / 0x40 % 0x40, 0x80 + n % 0x40]
  }

  function Utf8(s: string): (b: Bytes)
    ensures |b| <= 4 * |s|
  {
    if s == "" then [] else Utf8(s[..|s| - 1]) + Utf8Char(s[|s| - 1])
  }

  // A byte behind the first of a character holds six bits.
  predicate IsTail(b: byte) { 0x80 <= b < 0xC0 }

  // The number of n and, behind it, the six bits of a further byte.
  function Append(n: int, b: byte): int { n * 0x40 + (b as int - 0x80) }

  // The table of section 3 of RFC 3629: what a sequence of bytes stands for, no
  // longer than needed.
  predicate IsRfc3629(b: Bytes, n: int) {
    || (|b| == 1 && n < 0x80 && b[0] as int == n)
    || (|b| == 2 && 0x80 <= n && 0xC0 <= b[0] < 0xE0 && IsTail(b[1]) && n == Append(b[0] as int - 0xC0, b[1]))
    || (|b| == 3 && 0x800 <= n && 0xE0 <= b[0] < 0xF0 && IsTail(b[1]) && IsTail(b[2])
        && n == Append(Append(b[0] as int - 0xE0, b[1]), b[2]))
    || (|b| == 4 && 0x1_0000 <= n && 0xF0 <= b[0] < 0xF8 && IsTail(b[1]) && IsTail(b[2]) && IsTail(b[3])
        && n == Append(Append(Append(b[0] as int - 0xF0, b[1]), b[2]), b[3]))
  }

  lemma {:induction false} SixBits(n: nat)
    ensures n == Append(n / 0x40, 0x80 + n % 0x40)
    ensures n / 0x1000 == n / 0x40 / 0x40 && n / 0x4_0000 == n / 0x1000 / 0x40
  {
  }

  lemma {:induction false} Utf8CharIsRfc3629(c: char)
    ensures IsRfc3629(Utf8Char(c), c as int)
  {
    hide Append;
    var n := c as int;
    SixBits(n);
    SixBits(n / 0x40);
    SixBits(n / 0x1000);
  }

  // As many bytes as the number needs.
  lemma {:induction false} SequenceLength(b: Bytes, n: int)
    requires IsRfc3629(b, n)
    ensures |b| == if n < 0x80 then 1 else if n < 0x800 then 2 else if n < 0x1_0000 then 3 else 4
  {
  }

  lemma {:induction false} SameAppend(m: int, b: byte, n: int, d: byte)
    requires IsTail(b) && IsTail(d) && Append(m, b) == Append(n, d)
    ensures m == n && b == d
  {
  }

  lemma {:induction false} OneSequence(b: Bytes, d: Bytes, n: int)
    requires IsRfc3629(b, n) && IsRfc3629(d, n)
    ensures b == d
  {
    hide Append;
    SequenceLength(b, n);
    SequenceLength(d, n);
    if |b| == 2 {
      SameAppend(b[0] as int - 0xC0, b[1], d[0] as int - 0xC0, d[1]);
    } else if |b| == 3 {
      var x, y := b[0] as int - 0xE0, d[0] as int - 0xE0;
      SameAppend(Append(x, b[1]), b[2], Append(y, d[1]), d[2]);
      SameAppend(x, b[1], y, d[1]);
    } else if |b| == 4 {
      var x, y := b[0] as int - 0xF0, d[0] as int - 0xF0;
      SameAppend(Append(Append(x, b[1]), b[2]), b[3], Append(Append(y, d[1]), d[2]), d[3]);
      SameAppend(Append(x, b[1]), b[2], Append(y, d[1]), d[2]);
      SameAppend(x, b[1], y, d[1]);
    }
  }

  // The encoding of a character is the one of that table.
  lemma {:induction false} Utf8CharIsExact(c: char, b: Bytes)
    ensures Utf8Char(c) == b <==> IsRfc3629(b, c as int)
  {
    Utf8CharIsRfc3629(c);
    if IsRfc3629(b, c as int) {
      OneSequence(Utf8Char(c), b, c as int);
    }
  }

  // Only the first byte of a character is none of those that follow one.
  lemma {:induction false} Heads(c: char, i: nat)
    requires i < |Utf8Char(c)|
    ensures IsTail(Utf8Char(c)[i]) <==> i > 0
  {
    hide Utf8Char;
    Utf8CharIsRfc3629(c);
  }

  lemma {:induction false} SameLast(p: Bytes, c: char, q: Bytes, d: char)
    requires p + Utf8Char(c) == q + Utf8Char(d)
    ensures p == q && c == d
  {
    hide Utf8Char, IsRfc3629;
    var b, e := Utf8Char(c), Utf8Char(d);
    var all := p + b;
    Heads(c, 0);
    Heads(d, 0);
    assert all[|p|] == b[0] && all[|q|] == e[0];
    if |p| < |q| {
      assert all[|q|] == b[|q| - |p|];
      Heads(c, |q| - |p|);
    } else if |q| < |p| {
      assert all[|p|] == e[|p| - |q|];
      Heads(d, |p| - |q|);
    }
    assert p == all[..|p|] == q && b == all[|p|..] == e;
    Utf8CharIsRfc3629(c);
    Utf8CharIsRfc3629(d);
    SameCode(b, c as int, d as int);
  }

  lemma {:induction false} SameCode(b: Bytes, m: int, n: int)
    requires IsRfc3629(b, m) && IsRfc3629(b, n)
    ensures m == n
  {
  }

  // Different texts have different bytes.
  lemma {:induction false} Utf8Injective(s: string, t: string)
    requires Utf8(s) == Utf8(t)
    ensures s == t
    decreases |s|
  {
    hide Utf8Char;
    if s != "" && t != "" {
      var m, n := |s| - 1, |t| - 1;
      SameLast(Utf8(s[..m]), s[m], Utf8(t[..n]), t[n]);
      Utf8Injective(s[..m], t[..n]);
      assert s == s[..m] + [s[m]] && t == t[..n] + [t[n]];
    }
  }

  predicate IsAscii(s: string) {
    forall c | c in s :: c < '\U{80}'
  }

  // The bytes of a text in ASCII are its character codes.
  predicate AreCodes(s: string, b: Bytes) {
    |b| == |s| && forall i | 0 <= i < |s| :: b[i] == s[i] as int
  }

  lemma {:induction false} AsciiBytes(s: string)
    requires IsAscii(s)
    ensures AreCodes(s, Utf8(s))
    decreases |s|
  {
    hide Utf8Char;
    if s != "" {
      var init, c := s[..|s| - 1], s[|s| - 1];
      assert forall d | d in init :: d in s;
      AsciiBytes(init);
      assert c in s;
      AsciiByte(c);
    }
  }

  lemma {:induction false} AsciiByte(c: char)
    requires c < '\U{80}'
    ensures Utf8Char(c) == [c as int]
  {
  }
}
