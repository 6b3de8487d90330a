/** What may stand between the quotes of a string, and what each piece of it stands for (section 7 of RFC 7159). */
module Escapes {
  import opened Bytes
  import opened Json
  import opened Lexical
  import opened Decode
  import opened Parser
  import opened Spelling

  // ----- the pieces -----

  /** Bytes that stand for themselves; of the control characters the scanner refuses only those below 0x10. */
  predicate IsRaw(c: byte) {
    c >= 0x10 && c != 0x22 && c != 0x5C
  }

  /** The letters behind a backslash, and the bytes they stand for. */
  function LetterMeaning(l: byte): Option<byte> {
    if l == 0x22 then Some(0x22)       // "
    else if l == 0x5C then Some(0x5C)  // \
    else if l == 0x2F then Some(0x2F)  // /
    else if l == 0x62 then Some(0x08)  // b
    else if l == 0x66 then Some(0x0C)  // f
    else if l == 0x6E then Some(0x0A)  // n
    else if l == 0x72 then Some(0x0D)  // r
    else if l == 0x74 then Some(0x09)  // t
    else None
  }

  /** A hexadecimal digit of either case with this value. */
  predicate IsDigitOf(d: byte, v: int) {
    || (0 <= v <= 9 && d as int == 0x30 + v)
    || (10 <= v <= 15 && (d as int == 0x41 + v - 10 || d as int == 0x61 + v - 10))
  }

  /** Four digits that denote a number, the most significant one first. */
  predicate AreDigitsOf(ds: Str, n: int) {
    && |ds| == 4
    && IsDigitOf(ds[0], n / 4096 % 16) && IsDigitOf(ds[1], n / 256 % 16)
    && IsDigitOf(ds[2], n / 16 % 16) && IsDigitOf(ds[3], n % 16)
  }

  /** \u and four digits. */
  function CodeEscape(ds: Str): Str {
    [0x5C, 0x75] + ds
  }

  lemma DigitIsHex(d: byte, v: int)
    requires IsDigitOf(d, v)
    ensures IsHex(d) && HexDigit(d) == v
  {
  }

  lemma CodeIsRead(ds: Str, n: int, rest: Str)
    requires 0 <= n <= 0xFFFF && AreDigitsOf(ds, n)
    ensures var s := CodeEscape(ds) + rest;
      UnitLength(s) == 6 && IsUnicodeEscape(s) && EscapeCode(s) == n && s[6..] == rest && s[0] == BACKSLASH
      && !IsEscapeLetter(s[1])
  {
    var s := CodeEscape(ds) + rest;
    DigitIsHex(ds[0], n / 4096 % 16);
    DigitIsHex(ds[1], n / 256 % 16);
    DigitIsHex(ds[2], n / 16 % 16);
    DigitIsHex(ds[3], n % 16);
    assert s[2] == ds[0] && s[3] == ds[1] && s[4] == ds[2] && s[5] == ds[3];
    Positional(n);
  }

  lemma Positional(n: int)
    requires 0 <= n <= 0xFFFF
    ensures n / 4096 % 16 * 0x1000 + n / 256 % 16 * 0x100 + n / 16 % 16 * 0x10 + n % 16 == n
  {
    var a, b, c := n / 16, n / 256, n / 4096;
    assert a / 16 == b && b / 16 == c && c < 16;
  }

  // ----- what each piece stands for, in front of any body -----

  lemma RawPiece(c: byte, rest: Str)
    requires IsRaw(c)
    ensures IsBody([c] + rest) <==> IsBody(rest)
    ensures IsBody(rest) ==> BodyValue([c] + rest) == Prepend([c], BodyValue(rest))
  {
    assert ([c] + rest)[1..] == rest;
  }

  lemma LetterPiece(l: byte, rest: Str)
    requires LetterMeaning(l).Some?
    ensures IsBody([0x5C, l] + rest) <==> IsBody(rest)
    ensures IsBody(rest) ==> BodyValue([0x5C, l] + rest) == Prepend([LetterMeaning(l).value], BodyValue(rest))
  {
    var s := [0x5C, l] + rest;
    assert s[1] == l && s[2..] == rest;
    assert UnitLength(s) == 2;
  }

  /** A code point below 0x10000 that is no surrogate: its UTF-8 form. */
  lemma CodePiece(c: int, ds: Str, rest: Str) returns (t: Str)
    requires IsScalar(c) && c <= 0xFFFF && AreDigitsOf(ds, c)
    ensures DecodeUtf8(t) == Some(c)
    ensures IsBody(CodeEscape(ds) + rest) <==> IsBody(rest)
    ensures IsBody(rest) ==> BodyValue(CodeEscape(ds) + rest) == Prepend(t, BodyValue(rest))
  {
    hide DecodeUtf8, Encoded, UnitLength, IsEscapeLetter, IsUnicodeEscape, AreDigitsOf;
    CodeIsRead(ds, c, rest);
    UnicodeRoundTrip(c);
    t := ToUnicode(c, 0).value;
    FirstUnit(CodeEscape(ds) + rest);
  }

  lemma FirstUnit(s: Str)
    ensures s != [] ==> (IsBody(s) <==> UnitLength(s) > 0 && IsBody(s[UnitLength(s)..]))
  {
  }

  /** A code point from 0x10000 on: the escapes of its two surrogates. */
  lemma PairPiece(c: int, hi: Str, lo: Str, rest: Str) returns (t: Str)
    requires 0x10000 <= c <= 0x10FFFF
    requires AreDigitsOf(hi, 0xD800 + (c - 0x10000) / 0x400) && AreDigitsOf(lo, 0xDC00 + (c - 0x10000) % 0x400)
    ensures DecodeUtf8(t) == Some(c)
    ensures IsBody(CodeEscape(hi) + (CodeEscape(lo) + rest)) <==> IsBody(rest)
    ensures IsBody(rest) ==> BodyValue(CodeEscape(hi) + (CodeEscape(lo) + rest)) == Prepend(t, BodyValue(rest))
  {
    hide DecodeUtf8, Encoded, UnitLength, IsEscapeLetter, IsUnicodeEscape, AreDigitsOf, EscapeCode;
    var h, l := 0xD800 + (c - 0x10000) / 0x400, 0xDC00 + (c - 0x10000) % 0x400;
    var inner := CodeEscape(lo) + rest;
    var s := CodeEscape(hi) + inner;
    CodeIsRead(hi, h, inner);
    CodeIsRead(lo, l, rest);
    SurrogatePairs(h, l);
    assert 0x10000 + (h - HIGH_FIRST) * 0x400 + (l - LOW_FIRST) == c;
    UnicodeRoundTrip(c);
    t := ToUnicode(c, 0).value;
    FirstUnit(s);
    FirstUnit(inner);
    assert s[12..] == rest;
  }

  /** A high surrogate that is not followed by the escape of a low one is an error. */
  lemma LoneHighSurrogate(h: int, ds: Str, rest: Str)
    requires 0xD800 <= h <= 0xDBFF && AreDigitsOf(ds, h) && IsBody(rest)
    requires forall l, lo, more | 0xDC00 <= l <= 0xDFFF && AreDigitsOf(lo, l) :: rest != CodeEscape(lo) + more
    ensures IsBody(CodeEscape(ds) + rest) && BodyValue(CodeEscape(ds) + rest) == Err(InvalidArgument)
  {
    hide Encoded, UnitLength, IsEscapeLetter, AreDigitsOf;
    var s := CodeEscape(ds) + rest;
    CodeIsRead(ds, h, rest);
    FirstUnit(s);
    if IsUnicodeEscape(rest) {
      CodeIsWritten(rest);
      assert rest == CodeEscape(rest[2..6]) + rest[6..];
    }
  }

  /** A low surrogate that no high one precedes is taken like any code point, and gives three bytes that are
      not UTF-8. */
  lemma LoneLowSurrogate(l: int, ds: Str, rest: Str)
    requires 0xDC00 <= l <= 0xDFFF && AreDigitsOf(ds, l) && IsBody(rest)
    ensures IsBody(CodeEscape(ds) + rest)
    ensures BodyValue(CodeEscape(ds) + rest) ==
            Prepend([0xED, (0xB0 + (l - 0xDC00) / 0x40) as byte, (0x80 + (l - 0xDC00) % 0x40) as byte], BodyValue(rest))
  {
    hide UnitLength, IsEscapeLetter, AreDigitsOf, Encoded, IsUnicodeEscape, EscapeCode;
    CodeIsRead(ds, l, rest);
    FirstUnit(CodeEscape(ds) + rest);
    LowBytes(l);
  }

  lemma LowBytes(l: int)
    requires 0xDC00 <= l <= 0xDFFF
    ensures Encoded(l) == Ok([0xED, (0xB0 + (l - 0xDC00) / 0x40) as byte, (0x80 + (l - 0xDC00) % 0x40) as byte])
  {
    var low := l - 0xDC00;
    assert l / 0x40 == 0x370 + low / 0x40 && l % 0x40 == low % 0x40;
    assert l / 0x1000 == 13;
  }

  lemma CodeIsWritten(s: Str)
    requires IsUnicodeEscape(s)
    ensures AreDigitsOf(s[2..6], EscapeCode(s))
  {
    HexIsDigit(s[2]);
    HexIsDigit(s[3]);
    HexIsDigit(s[4]);
    HexIsDigit(s[5]);
    Digits16(HexDigit(s[2]), HexDigit(s[3]), HexDigit(s[4]), HexDigit(s[5]));
  }

  lemma HexIsDigit(d: byte)
    requires IsHex(d)
    ensures IsDigitOf(d, HexDigit(d))
  {
  }

  lemma Digits16(a: nat, b: nat, c: nat, d: nat)
    requires a < 16 && b < 16 && c < 16 && d < 16
    ensures var n := a * 0x1000 + b * 0x100 + c * 0x10 + d;
      n / 4096 % 16 == a && n / 256 % 16 == b && n / 16 % 16 == c && n % 16 == d
  {
    var n := a * 0x1000 + b * 0x100 + c * 0x10 + d;
    DigitOut(n, a * 0x100 + b * 0x10 + c, d, 16);
    DigitOut(n, a * 0x10 + b, c * 0x10 + d, 256);
    DigitOut(n, a, b * 0x100 + c * 0x10 + d, 4096);
    DigitOut(a * 0x100 + b * 0x10 + c, a * 0x10 + b, c, 16);
    DigitOut(a * 0x10 + b, a, b, 16);
    DigitOut(a, 0, a, 16);
  }

  lemma DigitOut(n: nat, high: nat, low: nat, base: nat)
    requires base in {16, 256, 4096} && low < base && n == high * base + low
    ensures n / base == high && n % base == low
  {
  }

  /** Nothing else may stand in a string: a body is empty or starts with one of the pieces. */
  lemma BodyStarts(s: Str)
    requires IsBody(s) && s != []
    ensures IsRaw(s[0]) || (|s| >= 2 && s[0] == 0x5C && LetterMeaning(s[1]).Some?)
            || (|s| >= 6 && exists n :: 0 <= n <= 0xFFFF && AreDigitsOf(s[2..6], n) && s[..6] == CodeEscape(s[2..6]))
  {
    if s[0] == 0x5C && LetterMeaning(s[1]).None? {
      assert IsUnicodeEscape(s);
      CodeIsWritten(s);
      assert s[..6] == CodeEscape(s[2..6]);
    }
  }

  // ----- inside longer strings -----

  /** Pieces that were read do not depend on what follows. */
  lemma {:induction false} BodyConcat(a: Str, b: Str)
    requires IsBody(a) && BodyValue(a).Ok? && IsBody(b)
    ensures IsBody(a + b) && BodyValue(a + b) == Prepend(BodyValue(a).value, BodyValue(b))
    decreases |a|
  {
    hide IsBody, BodyValue, PieceLength, PieceValue;
    if a == [] {
      EmptyBody();
      assert a + b == b;
      PrependNothing(BodyValue(b));
    } else {
      BodyConcat(a[PieceLength(a)..], b);
      BodyConcatNext(a, b);
    }
  }

  lemma EmptyBody()
    ensures IsBody([]) && BodyValue([]) == Ok([])
  {
  }

  lemma BodyConcatNext(a: Str, b: Str)
    requires IsBody(a) && a != [] && BodyValue(a).Ok? && IsBody(b)
    requires var rest := a[PieceLength(a)..];
      IsBody(rest + b) && BodyValue(rest + b) == Prepend(BodyValue(rest).value, BodyValue(b))
    ensures IsBody(a + b) && BodyValue(a + b) == Prepend(BodyValue(a).value, BodyValue(b))
  {
    hide IsBody, BodyValue, PieceLength, PieceValue;
    var n := PieceLength(a);
    assert (a + b)[n..] == a[n..] + b;
    SamePiece(a, b);
    PrependTwice(PieceValue(a), BodyValue(a[n..]).value, BodyValue(b));
  }

  /** The length of the first piece, a surrogate pair counting as one. */
  function PieceLength(s: Str): (n: nat)
    requires IsBody(s) && s != [] && BodyValue(s).Ok?
    ensures 0 < n <= |s| && IsBody(s[n..]) && BodyValue(s[n..]).Ok?
    ensures BodyValue(s) == Prepend(PieceValue(s), BodyValue(s[n..]))
  {
    if s[0] != BACKSLASH then 1
    else if IsEscapeLetter(s[1]) then 2
    else if HIGH_FIRST <= EscapeCode(s) <= HIGH_LAST then BodyTwice(s); 12
    else 6
  }

  function PieceValue(s: Str): Str
    requires IsBody(s) && s != [] && BodyValue(s).Ok?
  {
    if s[0] != BACKSLASH then [s[0]]
    else if IsEscapeLetter(s[1]) then [Unescaped(s[1])]
    else if HIGH_FIRST <= EscapeCode(s) <= HIGH_LAST then ToUnicode(EscapeCode(s), EscapeCode(s[6..])).value
    else ToUnicode(EscapeCode(s), 0).value
  }

  lemma SamePiece(a: Str, b: Str)
    requires IsBody(a) && a != [] && BodyValue(a).Ok? && IsBody((a + b)[PieceLength(a)..])
    ensures IsBody(a + b)
    ensures BodyValue(a + b) == Prepend(PieceValue(a), BodyValue((a + b)[PieceLength(a)..]))
  {
    hide Encoded, ToUnicode, Unescaped;
    var s := a + b;
    UnitLocal(a, b);
    FirstUnit(s);
    assert forall i | 0 <= i < |a| :: s[i] == a[i];
    if a[0] == BACKSLASH && !IsEscapeLetter(a[1]) && HIGH_FIRST <= EscapeCode(a) <= HIGH_LAST {
      BodyTwice(a);
      assert forall i | 0 <= i < |a| - 6 :: s[6..][i] == a[6..][i];
      FirstUnit(s[6..]);
      assert s[6..][6..] == s[12..];
    }
  }

  /** Wherever it stands in a string, the escape of a scalar value below 0x10000 gives its UTF-8 form. */
  lemma CodeAnywhere(before: Str, c: int, ds: Str, behind: Str) returns (t: Str)
    requires IsBody(before) && BodyValue(before).Ok? && IsBody(behind) && BodyValue(behind).Ok?
    requires IsScalar(c) && c <= 0xFFFF && AreDigitsOf(ds, c)
    ensures DecodeUtf8(t) == Some(c)
    ensures var s := before + (CodeEscape(ds) + behind);
      IsBody(s) && BodyValue(s) == Ok(BodyValue(before).value + (t + BodyValue(behind).value))
  {
    hide IsBody, BodyValue, DecodeUtf8, AreDigitsOf, IsScalar;
    t := CodePiece(c, ds, behind);
    BodyConcat(before, CodeEscape(ds) + behind);
  }

  lemma PairAnywhere(before: Str, c: int, hi: Str, lo: Str, behind: Str) returns (t: Str)
    requires IsBody(before) && BodyValue(before).Ok? && IsBody(behind) && BodyValue(behind).Ok?
    requires 0x10000 <= c <= 0x10FFFF
    requires AreDigitsOf(hi, 0xD800 + (c - 0x10000) / 0x400) && AreDigitsOf(lo, 0xDC00 + (c - 0x10000) % 0x400)
    ensures DecodeUtf8(t) == Some(c)
    ensures var s := before + (CodeEscape(hi) + (CodeEscape(lo) + behind));
      IsBody(s) && BodyValue(s) == Ok(BodyValue(before).value + (t + BodyValue(behind).value))
  {
    hide IsBody, BodyValue, DecodeUtf8, AreDigitsOf;
    t := PairPiece(c, hi, lo, behind);
    BodyConcat(before, CodeEscape(hi) + (CodeEscape(lo) + behind));
  }

  // ----- as a text -----

  /** A quoted body, with white space around it, is parsed as the string that the body stands for. */
  lemma StringText(w: Str, body: Str, v: Str)
    requires Skippable(w) && Skippable(v) && IsBody(body)
    ensures var s := w + ([0x22] + body + [0x22]) + v;
      ParseText(s) == match BodyValue(body) case Ok(x) => Ok(Text(x)) case Err(e) => Err(e)
  {
    hide IsBody, BodyValue, Skippable, Tokens;
    var lexeme := [QUOTE] + body + [QUOTE];
    assert lexeme[1..|lexeme| - 1] == body;
    var t := StringToken(lexeme);
    assert [w][1..] == [] && [t][1..] == [];
    assert Spread([w], [t]) == w + lexeme + [] == w + lexeme;
    WhiteSpaceIsIgnored([w], [t], v);
    assert ([t] + [EndOfInput])[1..] == [EndOfInput];
    BodyValueError(body);
  }
}
