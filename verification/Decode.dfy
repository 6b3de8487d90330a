/** What string and number tokens stand for. */
module Decode {
  import opened Bytes
  import opened Printer
  import opened Lexical
  import opened Scanner

  // ----- to_unicode -----

  const HIGH_FIRST := 0xD800
  const HIGH_LAST := 0xDBFF
  const LOW_FIRST := 0xDC00
  const LOW_LAST := 0xDFFF

  /** The UTF-8 bytes of a code point; the second argument matters only behind a high surrogate. */
  function ToUnicode(codepoint1: nat, codepoint2: nat): Result<Str> {
    if HIGH_FIRST <= codepoint1 <= HIGH_LAST then
      if LOW_FIRST <= codepoint2 <= LOW_LAST then Encoded(codepoint1 * 0x400 + codepoint2 - 0x35FDC00)
      else Err(InvalidArgument)
    else Encoded(codepoint1)
  }

  function Encoded(c: nat): Result<Str> {
    if c < 0x80 then Ok([c as byte])
    else if c <= 0x7FF then Ok([(0xC0 + c / 0x40 % 0x20) as byte, Continuation(c)])
    else if c <= 0xFFFF then Ok([(0xE0 + c / 0x1000 % 0x10) as byte, Continuation(c / 0x40), Continuation(c)])
    else if c <= 0x10FFFF then
      Ok([(0xF0 + c / 0x40000 % 8) as byte, Continuation(c / 0x1000), Continuation(c / 0x40), Continuation(c)])
    else Err(OutOfRange)
  }

  /** A byte 10xxxxxx with the six low bits of `c`. */
  function Continuation(c: nat): byte {
    (0x80 + c % 0x40) as byte
  }

  predicate IsContinuation(b: byte) {
    0x80 <= b < 0xC0
  }

  /** A Unicode scalar value: any code point that is not a surrogate. */
  predicate IsScalar(c: int) {
    0 <= c <= 0x10FFFF && !(HIGH_FIRST <= c <= LOW_LAST)
  }

  /** The decoder of section 3 of RFC 3629: shortest forms only, no surrogates, nothing above 0x10FFFF. */
  function DecodeUtf8(s: Str): Option<int> {
    if |s| == 1 && s[0] < 0x80 then Some(s[0] as int)
    else if |s| == 2 && 0xC0 <= s[0] < 0xE0 && IsContinuation(s[1]) then
      var c := (s[0] as int - 0xC0) * 0x40 + (s[1] as int - 0x80);
      if c >= 0x80 then Some(c) else None
    else if |s| == 3 && 0xE0 <= s[0] < 0xF0 && IsContinuation(s[1]) && IsContinuation(s[2]) then
      var c := (s[0] as int - 0xE0) * 0x1000 + (s[1] as int - 0x80) * 0x40 + (s[2] as int - 0x80);
      if c >= 0x800 && IsScalar(c) then Some(c) else None
    else if |s| == 4 && 0xF0 <= s[0] < 0xF8 && IsContinuation(s[1]) && IsContinuation(s[2]) && IsContinuation(s[3]) then
      var c := (s[0] as int - 0xF0) * 0x40000 + (s[1] as int - 0x80) * 0x1000
               + (s[2] as int - 0x80) * 0x40 + (s[3] as int - 0x80);
      if c >= 0x10000 && IsScalar(c) then Some(c) else None
    else None
  }

  lemma TwoBytes(c: int)
    requires 0x80 <= c <= 0x7FF
    ensures Encoded(c).Ok? && DecodeUtf8(Encoded(c).value) == Some(c)
  {
    assert c / 0x40 % 0x20 == c / 0x40;
  }

  lemma ThreeBytes(c: int)
    requires 0x800 <= c <= 0xFFFF && IsScalar(c)
    ensures Encoded(c).Ok? && DecodeUtf8(Encoded(c).value) == Some(c)
  {
    assert c / 0x1000 % 0x10 == c / 0x1000;
    assert c / 0x40 / 0x40 == c / 0x1000;
  }

  lemma FourBytes(c: int)
    requires 0x10000 <= c <= 0x10FFFF
    ensures Encoded(c).Ok? && DecodeUtf8(Encoded(c).value) == Some(c)
  {
    assert c / 0x40000 % 8 == c / 0x40000;
    assert c / 0x1000 / 0x40 == c / 0x40000 && c / 0x40 / 0x40 == c / 0x1000;
  }

  /** Every scalar value is encoded so that it decodes to itself. */
  lemma UnicodeRoundTrip(c: int)
    requires IsScalar(c)
    ensures ToUnicode(c, 0).Ok? && DecodeUtf8(ToUnicode(c, 0).value) == Some(c)
  {
    if c < 0x80 {
    } else {
      hide Encoded, DecodeUtf8;
      if c <= 0x7FF { TwoBytes(c); } else if c <= 0xFFFF { ThreeBytes(c); } else { FourBytes(c); }
    }
  }

  /** A surrogate pair stands for the code point that UTF-16 assigns to it; nothing that fits into two
      \u escapes ever exceeds 0x10FFFF. */
  lemma SurrogatePairs(hi: nat, lo: nat)
    requires hi <= 0xFFFF && lo <= 0xFFFF
    ensures HIGH_FIRST <= hi <= HIGH_LAST && LOW_FIRST <= lo <= LOW_LAST ==>
      var c := 0x10000 + (hi - HIGH_FIRST) * 0x400 + (lo - LOW_FIRST);
      IsScalar(c) && ToUnicode(hi, lo) == ToUnicode(c, 0)
    ensures ToUnicode(hi, lo).Err? <==> HIGH_FIRST <= hi <= HIGH_LAST && !(LOW_FIRST <= lo <= LOW_LAST)
    ensures ToUnicode(hi, lo).Err? ==> ToUnicode(hi, lo).error == InvalidArgument
  {
  }

  // ----- get_string -----

  function HexDigit(c: byte): (v: nat)
    requires IsHex(c)
    ensures v < 16
  {
    if IsDigit(c) then c as int - 0x30 else if c <= 0x46 then c as int - 0x41 + 10 else c as int - 0x61 + 10
  }

  /** strtoul of four hexadecimal digits. */
  function Hex4(a: byte, b: byte, c: byte, d: byte): (v: nat)
    requires IsHex(a) && IsHex(b) && IsHex(c) && IsHex(d)
    ensures v <= 0xFFFF
  {
    HexDigit(a) * 0x1000 + HexDigit(b) * 0x100 + HexDigit(c) * 0x10 + HexDigit(d)
  }

  /** The byte that a backslash and a letter other than `u` stand for. */
  function Unescaped(letter: byte): byte {
    if letter == 0x74 then 0x09
    else if letter == 0x62 then 0x08
    else if letter == 0x66 then 0x0C
    else if letter == 0x6E then 0x0A
    else if letter == 0x72 then 0x0D
    else letter
  }

  function Prepend(s: Str, r: Result<Str>): Result<Str> {
    match r case Ok(t) => Ok(s + t) case Err(e) => Err(e)
  }

  function PrependResult(a: Result<Str>, r: Result<Str>): Result<Str> {
    match a case Ok(s) => Prepend(s, r) case Err(e) => Err(e)
  }

  predicate IsUnicodeEscape(s: Str) {
    |s| >= 6 && s[0] == BACKSLASH && s[1] == LETTER_U && IsHex(s[2]) && IsHex(s[3]) && IsHex(s[4]) && IsHex(s[5])
  }

  function EscapeCode(s: Str): (v: nat)
    requires IsUnicodeEscape(s)
    ensures v <= 0xFFFF
  {
    Hex4(s[2], s[3], s[4], s[5])
  }

  /** The text between the quotes, decoded. */
  function BodyValue(s: Str): Result<Str>
    requires IsBody(s)
  {
    if s == [] then Ok([])
    else if s[0] != BACKSLASH then Prepend([s[0]], BodyValue(s[1..]))
    else if IsEscapeLetter(s[1]) then Prepend([Unescaped(s[1])], BodyValue(s[2..]))
    else
      var code := EscapeCode(s);
      if HIGH_FIRST <= code <= HIGH_LAST then
        if IsUnicodeEscape(s[6..]) then
          BodyTwice(s);
          PrependResult(ToUnicode(code, EscapeCode(s[6..])), BodyValue(s[12..]))
        else Err(InvalidArgument)
      else PrependResult(ToUnicode(code, 0), BodyValue(s[6..]))
  }

  lemma BodyTwice(s: Str)
    requires IsBody(s) && IsUnicodeEscape(s) && IsUnicodeEscape(s[6..])
    ensures |s| >= 12 && IsBody(s[12..])
  {
    assert UnitLength(s) == 6 && IsBody(s[6..]) && UnitLength(s[6..]) == 6;
    assert s[6..][6..] == s[12..];
  }

  function StringValue(lexeme: Str): Result<Str>
    requires IsString(lexeme)
  {
    BodyValue(lexeme[1..|lexeme| - 1])
  }

  /** Decoding can only fail on a surrogate without its partner, never on a code point out of range. */
  lemma {:induction false} BodyValueError(s: Str)
    requires IsBody(s)
    ensures BodyValue(s).Err? ==> BodyValue(s).error == InvalidArgument
  {
    if s != [] {
      if s[0] != BACKSLASH {
        BodyValueError(s[1..]);
      } else if IsEscapeLetter(s[1]) {
        BodyValueError(s[2..]);
      } else {
        var code := EscapeCode(s);
        BodyValueError(s[6..]);
        SurrogatePairs(code, 0);
        if IsUnicodeEscape(s[6..]) {
          BodyTwice(s);
          SurrogatePairs(code, EscapeCode(s[6..]));
          BodyValueError(s[12..]);
        }
      }
    }
  }

  /** get_string on the last token. Every index read lies inside the token. */
  method GetString(lexer: Lexer) returns (r: Result<Str>)
    requires lexer.start < lexer.cursor <= |lexer.buffer| && IsString(lexer.Lexeme())
    ensures r == StringValue(lexer.Lexeme())
  {
    hide BodyValue, IsBody;
    var end := lexer.cursor - 1;
    assert |lexer.Lexeme()| == lexer.cursor - lexer.start;
    assert lexer.buffer[end] == lexer.Lexeme()[|lexer.Lexeme()| - 1];
    Inside(lexer.buffer, lexer.start, lexer.cursor);
    r := DecodeBody(lexer, lexer.start + 1, end);
  }

  /** The loop over the body of the token. */
  method DecodeBody(lexer: Lexer, first: nat, end: nat) returns (r: Result<Str>)
    requires first <= end < |lexer.buffer| && lexer.buffer[end] == QUOTE && IsBody(lexer.buffer[first..end])
    ensures r == BodyValue(lexer.buffer[first..end])
  {
    hide BodyValue, IsBody, Prepend;
    var result: Str := [];
    var i := first;
    PrependNothing(BodyValue(lexer.buffer[first..end]));
    while i < end
      invariant first <= i <= end && IsBody(lexer.buffer[i..end])
      invariant Prepend(result, BodyValue(lexer.buffer[i..end])) == BodyValue(lexer.buffer[first..end])
      decreases end - i
    {
      var piece, n := DecodeUnit(lexer, i, end);
      if piece.Err? {
        PrependError(result, piece.error);
        return Err(piece.error);
      }
      PrependTwice(result, piece.value, BodyValue(lexer.buffer[i + n..end]));
      result := result + piece.value;
      i := i + n;
    }
    assert lexer.buffer[i..end] == [];
    NothingDecoded(result);
    return Ok(result);
  }

  lemma Inside(s: Str, lo: nat, hi: nat)
    requires lo + 2 <= hi <= |s|
    ensures s[lo..hi][1..|s[lo..hi]| - 1] == s[lo + 1..hi - 1]
  {
    var a, b := s[lo..hi], s[lo + 1..hi - 1];
    forall i | 0 <= i < |b| ensures a[1..|a| - 1][i] == b[i] {
      assert a[1..|a| - 1][i] == a[i + 1] == s[lo + 1 + i];
    }
  }

  lemma NothingDecoded(s: Str)
    ensures IsBody([]) && Prepend(s, BodyValue([])) == Ok(s)
  {
    assert s + [] == s;
  }

  lemma PrependError(s: Str, e: Error)
    ensures Prepend(s, Err(e)) == Err(e)
  {
  }

  lemma PrependNothing(r: Result<Str>)
    ensures Prepend([], r) == r
  {
    if r.Ok? { assert [] + r.value == r.value; }
  }

  lemma PrependTwice(a: Str, b: Str, r: Result<Str>)
    ensures Prepend(a, Prepend(b, r)) == Prepend(a + b, r)
  {
    if r.Ok? { assert a + (b + r.value) == a + b + r.value; }
  }

  /** The body of the loop: what the unit at i adds, and how many bytes it takes. */
  method DecodeUnit(lexer: Lexer, i: nat, end: nat) returns (piece: Result<Str>, n: nat)
    requires i < end < |lexer.buffer| && lexer.buffer[end] == QUOTE && IsBody(lexer.buffer[i..end])
    ensures piece.Err? ==> BodyValue(lexer.buffer[i..end]) == Err(piece.error)
    ensures piece.Ok? ==> 0 < n <= end - i && IsBody(lexer.buffer[i + n..end])
    ensures piece.Ok? ==> BodyValue(lexer.buffer[i..end]) == Prepend(piece.value, BodyValue(lexer.buffer[i + n..end]))
  {
    ghost var s := lexer.buffer[i..end];
    n := 1;
    if lexer.At(i) != BACKSLASH {
      assert s[1..] == lexer.buffer[i + 1..end];
      return Ok([lexer.At(i)]), 1;
    }
    assert UnitLength(s) > 0;
    assert s[1] == lexer.buffer[i + 1];
    if lexer.At(i + 1) != LETTER_U {
      assert s[2..] == lexer.buffer[i + 2..end];
      return Ok([Unescaped(lexer.At(i + 1))]), 2;
    }
    assert |s| >= 6 && s[2] == lexer.buffer[i + 2] && s[3] == lexer.buffer[i + 3] && s[4] == lexer.buffer[i + 4]
           && s[5] == lexer.buffer[i + 5];
    assert s[6..] == lexer.buffer[i + 6..end];
    var codepoint := Hex4(lexer.At(i + 2), lexer.At(i + 3), lexer.At(i + 4), lexer.At(i + 5));
    if HIGH_FIRST <= codepoint <= HIGH_LAST {
      if i + 7 >= |lexer.buffer| || lexer.At(i + 6) != BACKSLASH || lexer.At(i + 7) != LETTER_U {
        return Err(InvalidArgument), 0;
      }
      NextEscape(s);
      BodyTwice(s);
      assert forall k | 6 <= k < 12 :: s[k] == lexer.buffer[i + k];
      assert s[12..] == lexer.buffer[i + 12..end];
      var codepoint2 := Hex4(lexer.At(i + 8), lexer.At(i + 9), lexer.At(i + 10), lexer.At(i + 11));
      return ToUnicode(codepoint, codepoint2), 12;
    }
    return ToUnicode(codepoint, 0), 6;
  }

  /** A backslash and a `u` inside the body always start a complete escape. */
  lemma NextEscape(s: Str)
    requires IsBody(s) && IsUnicodeEscape(s) && |s| >= 8 && s[6] == BACKSLASH && s[7] == LETTER_U
    ensures IsUnicodeEscape(s[6..])
  {
    assert UnitLength(s) == 6 && IsBody(s[6..]);
    assert s[6..][0] == BACKSLASH && s[6..][1] == LETTER_U;
  }

  // ----- escape_string and get_string -----

  /** A JSON string made by the printer is one token, whatever bytes it holds and whatever follows. */
  lemma {:induction false} EscapedIsBody(s: Str)
    ensures IsBody(EscapedText(s)) && BodyValue(EscapedText(s)) == Ok(s)
  {
    if s != [] {
      EscapedIsBody(s[1..]);
      EscapedUnit(s[0], EscapedText(s[1..]), s[1..]);
      assert [s[0]] + s[1..] == s;
    }
  }

  lemma EscapedUnit(c: byte, rest: Str, tail: Str)
    requires IsBody(rest) && BodyValue(rest) == Ok(tail)
    ensures IsBody(EscapedByte(c) + rest) && BodyValue(EscapedByte(c) + rest) == Ok([c] + tail)
  {
    var e := EscapedByte(c);
    var s := e + rest;
    assert s[|e|..] == rest;
    if ShortEscape(c).Some? {
      assert s[0] == BACKSLASH && s[1] == ShortEscape(c).value;
      assert UnitLength(s) == 2;
    } else if c <= 0x1F {
      ControlEscape(c, rest);
    } else {
      assert s[0] == c && UnitLength(s) == 1;
    }
  }

  lemma ControlEscape(c: byte, rest: Str)
    requires c <= 0x1F && ShortEscape(c).None?
    ensures var s := EscapedByte(c) + rest;
      UnitLength(s) == 6 && IsUnicodeEscape(s) && EscapeCode(s) == c as int && ToUnicode(EscapeCode(s), 0) == Ok([c])
  {
    var s := EscapedByte(c) + rest;
    assert s[0] == BACKSLASH && s[1] == LETTER_U && s[2] == ZERO && s[3] == ZERO;
    assert s[4] == Hexify(c as int / 16) && s[5] == Hexify(c as int % 16);
  }

  /** Quoting, scanning and decoding gives back any byte string: the scanner takes exactly the quoted
      text as one string token, and get_string returns the bytes. */
  lemma QuotedRoundTrip(s: Str, after: Str)
    ensures Lex(Quoted(s) + after) == (StringToken(Quoted(s)), after)
    ensures IsString(Quoted(s)) && StringValue(Quoted(s)) == Ok(s)
  {
    EscapedIsBody(s);
    var q, e := Quoted(s), EscapedText(s);
    var text := q + after;
    assert q[1..|q| - 1] == e;
    assert text[0] == QUOTE && text[1..] == e + [QUOTE] + after;
    BodyEndOf(e, after);
    LexByFirst(text);
    assert text[..|q|] == q && text[|q|..] == after;
  }
}
