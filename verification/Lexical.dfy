/** The tokens of JSON text: what the scanner is to recognise (RFC 7159, sections 2, 3, 6 and 7). */
module Lexical {
  import opened Bytes
  import opened Printer

  const LOWER_E: byte := 0x65
  const UPPER_E: byte := 0x45
  const LETTER_U: byte := 0x75
  const BOM: Str := [0xEF, 0xBB, 0xBF]

  /** Token types; string and number tokens carry the text they were read from. */
  datatype Token =
    | TrueLiteral
    | FalseLiteral
    | NullLiteral
    | StringToken(lexeme: Str)
    | NumberToken(lexeme: Str)
    | BeginArray
    | BeginObject
    | EndArray
    | EndObject
    | NameSeparator
    | ValueSeparator
    | ParseError
    | EndOfInput

  // ----- numbers -----

  predicate IsInt(s: Str) {
    s == [ZERO] || (s != [] && AllDigits(s) && s[0] != ZERO)
  }

  predicate IsFrac(s: Str) {
    |s| >= 2 && s[0] == DOT && AllDigits(s[1..])
  }

  predicate IsExp(s: Str) {
    |s| >= 2 && (s[0] == LOWER_E || s[0] == UPPER_E) &&
    (AllDigits(s[1..]) || (|s| >= 3 && (s[1] == PLUS || s[1] == MINUS) && AllDigits(s[2..])))
  }

  predicate IsFracExp(s: Str) {
    s == [] || IsExp(s) || exists n :: 0 < n <= |s| && IsFrac(s[..n]) && (s[n..] == [] || IsExp(s[n..]))
  }

  predicate IsUnsigned(s: Str) {
    exists n :: 0 < n <= |s| && IsInt(s[..n]) && IsFracExp(s[n..])
  }

  /** number = [ minus ] int [ frac ] [ exp ] */
  predicate IsNumber(s: Str) {
    IsUnsigned(s) || (s != [] && s[0] == MINUS && IsUnsigned(s[1..]))
  }

  /** How many digits `s` starts with. */
  function Digits(s: Str): (n: nat)
    ensures n <= |s|
  {
    if s != [] && IsDigit(s[0]) then 1 + Digits(s[1..]) else 0
  }

  function ExpLength(s: Str): (n: nat)
    ensures n <= |s|
  {
    if s == [] || (s[0] != LOWER_E && s[0] != UPPER_E) then 0
    else if |s| >= 2 && (s[1] == PLUS || s[1] == MINUS) then
      if Digits(s[2..]) > 0 then 2 + Digits(s[2..]) else 0
    else if Digits(s[1..]) > 0 then 1 + Digits(s[1..]) else 0
  }

  function FracExpLength(s: Str): (n: nat)
    ensures n <= |s|
  {
    if s != [] && s[0] == DOT then
      var d := Digits(s[1..]);
      if d > 0 then 1 + d + ExpLength(s[1 + d..]) else 0
    else ExpLength(s)
  }

  function IntLength(s: Str): (n: nat)
    ensures n <= |s|
  {
    if s != [] && s[0] == ZERO then 1 else Digits(s)
  }

  function UnsignedLength(s: Str): (n: nat)
    ensures n <= |s|
  {
    var d := IntLength(s);
    if d == 0 then 0 else d + FracExpLength(s[d..])
  }

  /** Length of the longest number that `s` starts with, 0 if there is none. */
  function NumberLength(s: Str): (n: nat)
    ensures n <= |s|
  {
    if s != [] && s[0] == MINUS then
      var d := UnsignedLength(s[1..]);
      if d == 0 then 0 else 1 + d
    else UnsignedLength(s)
  }

  lemma UnsignedParts(s: Str)
    requires s != [] && IsDigit(s[0])
    ensures var d := IntLength(s);
      d > 0 && UnsignedLength(s) == d + FracExpLength(s[d..])
    ensures var r := s[IntLength(s)..];
      r == [] || (r[0] != DOT && r[0] != LOWER_E && r[0] != UPPER_E) ==> FracExpLength(r) == 0
    ensures s[0] != ZERO ==> IntLength(s) == Digits(s)
    ensures s[0] == ZERO ==> IntLength(s) == 1
  {
  }

  lemma NumberParts(s: Str)
    requires s != []
    ensures s[0] == MINUS ==> NumberLength(s) == if UnsignedLength(s[1..]) == 0 then 0 else 1 + UnsignedLength(s[1..])
    ensures s[0] != MINUS ==> NumberLength(s) == UnsignedLength(s)
    ensures s[0] == MINUS && (|s| == 1 || !IsDigit(s[1])) ==> NumberLength(s) == 0
  {
  }

  lemma {:induction false} DigitsLaws(s: Str)
    ensures AllDigits(s[..Digits(s)])
    ensures Digits(s) < |s| ==> !IsDigit(s[Digits(s)])
  {
    if s != [] && IsDigit(s[0]) {
      DigitsLaws(s[1..]);
      forall i | 0 <= i < Digits(s) ensures IsDigit(s[..Digits(s)][i]) {
        if i > 0 { assert s[..Digits(s)][i] == s[1..][..Digits(s[1..])][i - 1]; }
      }
      assert Digits(s) < |s| ==> s[Digits(s)] == s[1..][Digits(s[1..])];
    }
  }

  /** Digits at the front are counted, and no more if something else follows. */
  lemma {:induction false} DigitsAre(s: Str, n: nat)
    requires n <= |s| && AllDigits(s[..n])
    ensures n <= Digits(s)
    ensures n == |s| || !IsDigit(s[n]) ==> n == Digits(s)
  {
    if n > 0 {
      var run, rest := s[..n], s[1..][..n - 1];
      assert run[0] == s[0] && IsDigit(run[0]);
      forall i | 0 <= i < |rest| ensures IsDigit(rest[i]) { assert run[i + 1] == rest[i]; }
      DigitsAre(s[1..], n - 1);
    }
  }

  lemma ExpLongest(s: Str, m: nat)
    requires m <= |s| && IsExp(s[..m])
    ensures m <= ExpLength(s)
  {
    var w := s[..m];
    assert w[0] == s[0] && w[1] == s[1];
    if AllDigits(w[1..]) {
      assert w[1..][0] == s[1] && IsDigit(w[1..][0]);
      assert w[1..] == s[1..][..m - 1];
      DigitsAre(s[1..], m - 1);
    } else {
      assert w[2..] == s[2..][..m - 2];
      DigitsAre(s[2..], m - 2);
    }
  }

  lemma ExpRecognised(s: Str)
    ensures ExpLength(s) > 0 ==> IsExp(s[..ExpLength(s)])
  {
    var m := ExpLength(s);
    if m > 0 {
      if s[1] == PLUS || s[1] == MINUS {
        DigitsLaws(s[2..]);
        assert s[..m][2..] == s[2..][..m - 2];
      } else {
        DigitsLaws(s[1..]);
        assert s[..m][1..] == s[1..][..m - 1];
      }
    }
  }

  lemma Subrange(s: Str, m: nat, n: nat, k: nat)
    requires k <= n <= m <= |s|
    ensures s[..m][..n][k..] == s[k..][..n - k]
  {
  }

  lemma FracExpLongest(s: Str, m: nat)
    requires m <= |s| && IsFracExp(s[..m])
    ensures m <= FracExpLength(s)
  {
    var w := s[..m];
    if w != [] {
      assert w[0] == s[0];
      if IsExp(w) {
        ExpLongest(s, m);
      } else {
        var n :| 0 < n <= |w| && IsFrac(w[..n]) && (w[n..] == [] || IsExp(w[n..]));
        assert w[..n][0] == s[0];
        Subrange(s, m, n, 1);
        DigitsAre(s[1..], n - 1);
        if n < m {
          assert w[n..][0] == s[n] && s[1..][n - 1] == s[n];
          assert n - 1 == Digits(s[1..]);
          assert w[n..] == s[n..][..m - n];
          ExpLongest(s[n..], m - n);
        }
      }
    }
  }

  lemma FracExpRecognised(s: Str)
    ensures IsFracExp(s[..FracExpLength(s)])
  {
    var m := FracExpLength(s);
    var w := s[..m];
    if m > 0 {
      if s[0] == DOT {
        var d := Digits(s[1..]);
        var n := 1 + d;
        DigitsLaws(s[1..]);
        assert w[..n][1..] == s[1..][..d];
        ExpRecognised(s[n..]);
        assert w[n..] == s[n..][..m - n];
        assert IsFrac(w[..n]);
      } else {
        ExpRecognised(s);
      }
    }
  }

  lemma UnsignedLongest(s: Str, m: nat)
    requires m <= |s| && IsUnsigned(s[..m])
    ensures 0 < m <= UnsignedLength(s)
  {
    var w := s[..m];
    var n :| 0 < n <= |w| && IsInt(w[..n]) && IsFracExp(w[n..]);
    assert w[..n] == s[..n] && s[..n][0] == s[0];
    assert w[n..] == s[n..][..m - n];
    if s[0] == ZERO {
      assert n == 1;
    } else {
      DigitsAre(s, n);
      if n < m {
        assert w[n..][0] == s[n];
        StartOfFracExp(w[n..]);
      }
    }
    if n < m || n == IntLength(s) { FracExpLongest(s[n..], m - n); }
  }

  lemma StartOfFracExp(s: Str)
    requires s != [] && IsFracExp(s)
    ensures !IsDigit(s[0])
  {
    if !IsExp(s) {
      var n :| 0 < n <= |s| && IsFrac(s[..n]) && (s[n..] == [] || IsExp(s[n..]));
      assert s[..n][0] == s[0];
    }
  }

  lemma UnsignedRecognised(s: Str)
    ensures UnsignedLength(s) > 0 ==> IsUnsigned(s[..UnsignedLength(s)])
  {
    var m, n := UnsignedLength(s), IntLength(s);
    if m > 0 {
      var w := s[..m];
      DigitsLaws(s);
      FracExpRecognised(s[n..]);
      assert w[..n] == s[..n] && w[n..] == s[n..][..m - n];
      assert s[..n][0] == s[0];
      assert s[0] == ZERO ==> s[..n] == [ZERO];
      assert IsInt(w[..n]);
    }
  }

  /** NumberLength is the length of the longest prefix that is a number, and 0 exactly if there is none. */
  lemma NumberIsLongest(s: Str)
    ensures NumberLength(s) > 0 ==> IsNumber(s[..NumberLength(s)])
    ensures forall m | 0 <= m <= |s| && IsNumber(s[..m]) :: 0 < m <= NumberLength(s)
  {
    var n := NumberLength(s);
    if s != [] && s[0] == MINUS {
      UnsignedRecognised(s[1..]);
      if n > 0 { assert s[..n][1..] == s[1..][..n - 1]; }
    } else {
      UnsignedRecognised(s);
    }
    forall m | 0 <= m <= |s| && IsNumber(s[..m]) ensures 0 < m <= NumberLength(s) {
      var w := s[..m];
      if IsUnsigned(w) {
        UnsignedLongest(s, m);
        assert IntLength(s) > 0;
      } else {
        assert w[0] == s[0] && w[1..] == s[1..][..m - 1];
        UnsignedLongest(s[1..], m - 1);
      }
    }
  }

  // ----- strings -----

  predicate IsHex(c: byte) {
    IsDigit(c) || 0x41 <= c <= 0x46 || 0x61 <= c <= 0x66
  }

  /** The letters that may follow a backslash, apart from `u`. */
  predicate IsEscapeLetter(c: byte) {
    c == QUOTE || c == SLASH || c == BACKSLASH || c == 0x62 || c == 0x66 || c == 0x6E || c == 0x72 || c == 0x74
  }

  /** Length of the character or escape that `s` starts with, 0 if the scanner accepts none.
      Raw control characters are refused only below 0x10. */
  function UnitLength(s: Str): (n: nat)
    ensures n <= |s|
  {
    if s == [] || s[0] <= 0x0F || s[0] == QUOTE then 0
    else if s[0] != BACKSLASH then 1
    else if |s| >= 2 && IsEscapeLetter(s[1]) then 2
    else if |s| >= 6 && s[1] == LETTER_U && IsHex(s[2]) && IsHex(s[3]) && IsHex(s[4]) && IsHex(s[5]) then 6
    else 0
  }

  /** The characters between the quotes. */
  predicate IsBody(s: Str) {
    s == [] || (UnitLength(s) > 0 && IsBody(s[UnitLength(s)..]))
  }

  predicate IsString(s: Str) {
    |s| >= 2 && s[0] == QUOTE && s[|s| - 1] == QUOTE && IsBody(s[1..|s| - 1])
  }

  /** Where the closing quote is, -1 if there is none. */
  function BodyEnd(s: Str): (n: int)
    ensures -1 <= n < |s|
    ensures n >= 0 ==> s[n] == QUOTE
  {
    if s != [] && s[0] == QUOTE then 0
    else
      var u := UnitLength(s);
      if u == 0 then -1 else
        var n := BodyEnd(s[u..]);
        if n == -1 then -1 else u + n
  }

  /** A unit is recognised from its own bytes. */
  lemma UnitLocal(s: Str, t: Str)
    ensures UnitLength(s) > 0 ==> UnitLength(s + t) == UnitLength(s)
  {
    assert forall i | 0 <= i < |s| :: (s + t)[i] == s[i];
  }

  lemma {:induction false} BodyEndFound(s: Str)
    ensures BodyEnd(s) >= 0 ==> IsBody(s[..BodyEnd(s)])
  {
    var n, u := BodyEnd(s), UnitLength(s);
    if n > 0 {
      BodyEndFound(s[u..]);
      UnitInside(s, n);
      assert s[..n][u..] == s[u..][..n - u];
    }
  }

  /** The unit at the front does not reach beyond the closing quote. */
  lemma UnitInside(s: Str, n: nat)
    requires UnitLength(s) <= n <= |s|
    ensures UnitLength(s) > 0 ==> UnitLength(s[..n]) == UnitLength(s)
  {
  }

  lemma {:induction false} BodyEndOf(a: Str, t: Str)
    requires IsBody(a)
    ensures BodyEnd(a + [QUOTE] + t) == |a|
  {
    var s := a + [QUOTE] + t;
    if a != [] {
      var u := UnitLength(a);
      assert s == a + ([QUOTE] + t);
      UnitLocal(a, [QUOTE] + t);
      BodyEndOf(a[u..], t);
      assert s[u..] == a[u..] + [QUOTE] + t;
    }
  }

  lemma StringHasEnd(s: Str, m: nat)
    requires m <= |s| && IsString(s[..m])
    ensures s[0] == QUOTE && BodyEnd(s[1..]) >= 0 && m == BodyEnd(s[1..]) + 2
  {
    hide UnitLength, IsBody, BodyEnd;
    var a := s[1..m - 1];
    assert s[..m][1..m - 1] == a;
    assert s[..m][m - 1] == s[m - 1] && s[..m][0] == s[0];
    BodyEndOf(a, s[m..]);
    assert s[1..] == a + [QUOTE] + s[m..];
  }

  lemma EndMakesString(s: Str)
    requires s != [] && s[0] == QUOTE && BodyEnd(s[1..]) >= 0
    ensures IsString(s[..BodyEnd(s[1..]) + 2])
  {
    hide UnitLength, IsBody, BodyEnd;
    var n := BodyEnd(s[1..]);
    BodyEndFound(s[1..]);
    var w := s[..n + 2];
    assert |w| == n + 2 && w[0] == s[0] && w[n + 1] == s[1..][n];
    assert w[1..|w| - 1] == s[1..][..n];
  }

  /** Behind an opening quote there is at most one way to end the string, and BodyEnd finds it. */
  lemma StringIsUnique(s: Str, m: nat)
    requires s != [] && s[0] == QUOTE && m <= |s|
    ensures IsString(s[..m]) <==> BodyEnd(s[1..]) >= 0 && m == BodyEnd(s[1..]) + 2
  {
    hide IsString;
    if IsString(s[..m]) { StringHasEnd(s, m); }
    if BodyEnd(s[1..]) >= 0 { EndMakesString(s); }
  }

  lemma BodyEndStep(s: Str)
    ensures s == [] || s[0] <= 0x0F ==> BodyEnd(s) == -1
    ensures s != [] && s[0] == QUOTE ==> BodyEnd(s) == 0
    ensures s != [] && s[0] != QUOTE && UnitLength(s) == 0 ==> BodyEnd(s) == -1
    ensures s != [] && s[0] != QUOTE && UnitLength(s) > 0 ==>
      BodyEnd(s) == if BodyEnd(s[UnitLength(s)..]) == -1 then -1 else UnitLength(s) + BodyEnd(s[UnitLength(s)..])
    ensures s != [] && s[0] > 0x0F && s[0] != QUOTE && s[0] != BACKSLASH ==> UnitLength(s) == 1
  {
  }

  // ----- tokens -----

  predicate IsBlank(c: byte) {
    c == SPACE || c == 0x09 || c == 0x0A || c == 0x0D
  }

  function StartsWith(s: Str, prefix: Str): bool {
    |s| >= |prefix| && s[..|prefix|] == prefix
  }

  function Punctuation(c: byte): Option<Token> {
    if c == LBRACKET then Some(BeginArray)
    else if c == RBRACKET then Some(EndArray)
    else if c == LBRACE then Some(BeginObject)
    else if c == RBRACE then Some(EndObject)
    else if c == COLON then Some(NameSeparator)
    else if c == COMMA then Some(ValueSeparator)
    else None
  }

  /** The first token of `s` and what follows it. White space and byte order marks are skipped; the end of
      the text and a NUL byte both end the input; an error consumes one byte. */
  function Lex(s: Str): (r: (Token, Str))
    ensures |r.1| <= |s| && (s != [] ==> |r.1| < |s|)
  {
    if s == [] then (EndOfInput, [])
    else if s[0] == NUL then (EndOfInput, s[1..])
    else if IsBlank(s[0]) then Lex(s[1..])
    else if StartsWith(s, BOM) then Lex(s[3..])
    else if s[0] == QUOTE then
      var n := BodyEnd(s[1..]);
      if n == -1 then (ParseError, s[1..]) else (StringToken(s[..n + 2]), s[n + 2..])
    else if s[0] == MINUS || IsDigit(s[0]) then
      var n := NumberLength(s);
      if n == 0 then (ParseError, s[1..]) else (NumberToken(s[..n]), s[n..])
    else if Punctuation(s[0]).Some? then (Punctuation(s[0]).value, s[1..])
    else if StartsWith(s, TRUE_TEXT) then (TrueLiteral, s[4..])
    else if StartsWith(s, FALSE_TEXT) then (FalseLiteral, s[5..])
    else if StartsWith(s, NULL_TEXT) then (NullLiteral, s[4..])
    else (ParseError, s[1..])
  }

  /** A word that matches up to position k only is not there. */
  lemma WordBreaks(s: Str, word: Str, k: nat)
    requires k < |word| && (k >= |s| || s[k] != word[k])
    ensures !StartsWith(s, word)
  {
    if |s| >= |word| { assert s[..|word|][k] == s[k]; }
  }

  /** Which case of Lex the first byte selects. */
  lemma LexByFirst(s: Str)
    requires s != []
    ensures s[0] == NUL ==> Lex(s) == (EndOfInput, s[1..])
    ensures IsBlank(s[0]) ==> Lex(s) == Lex(s[1..])
    ensures s[0] == QUOTE && BodyEnd(s[1..]) == -1 ==> Lex(s) == (ParseError, s[1..])
    ensures s[0] == QUOTE && BodyEnd(s[1..]) != -1 ==>
      Lex(s) == (StringToken(s[..BodyEnd(s[1..]) + 2]), s[BodyEnd(s[1..]) + 2..])
    ensures (s[0] == MINUS || IsDigit(s[0])) && NumberLength(s) == 0 ==> Lex(s) == (ParseError, s[1..])
    ensures (s[0] == MINUS || IsDigit(s[0])) && NumberLength(s) != 0 ==>
      Lex(s) == (NumberToken(s[..NumberLength(s)]), s[NumberLength(s)..])
    ensures Punctuation(s[0]).Some? ==> Lex(s) == (Punctuation(s[0]).value, s[1..])
  {
    hide NumberLength, BodyEnd;
    assert StartsWith(s, BOM) ==> s[0] == s[..3][0];
  }

  lemma LexBom(s: Str)
    requires s != [] && s[0] == BOM[0]
    ensures Lex(s) == if StartsWith(s, BOM) then Lex(s[3..]) else (ParseError, s[1..])
  {
    hide NumberLength, BodyEnd, StartsWith;
    LexWordless(s, TRUE_TEXT);
    LexWordless(s, FALSE_TEXT);
    LexWordless(s, NULL_TEXT);
  }

  lemma LexTrue(s: Str)
    requires s != [] && s[0] == TRUE_TEXT[0]
    ensures Lex(s) == if StartsWith(s, TRUE_TEXT) then (TrueLiteral, s[4..]) else (ParseError, s[1..])
  {
    hide NumberLength, BodyEnd, StartsWith;
    LexWordless(s, BOM);
    LexWordless(s, FALSE_TEXT);
    LexWordless(s, NULL_TEXT);
  }

  lemma LexFalse(s: Str)
    requires s != [] && s[0] == FALSE_TEXT[0]
    ensures Lex(s) == if StartsWith(s, FALSE_TEXT) then (FalseLiteral, s[5..]) else (ParseError, s[1..])
  {
    hide NumberLength, BodyEnd, StartsWith;
    LexWordless(s, BOM);
    LexWordless(s, TRUE_TEXT);
    LexWordless(s, NULL_TEXT);
  }

  lemma LexNull(s: Str)
    requires s != [] && s[0] == NULL_TEXT[0]
    ensures Lex(s) == if StartsWith(s, NULL_TEXT) then (NullLiteral, s[4..]) else (ParseError, s[1..])
  {
    hide NumberLength, BodyEnd, StartsWith;
    LexWordless(s, BOM);
    LexWordless(s, TRUE_TEXT);
    LexWordless(s, FALSE_TEXT);
  }

  lemma LexOther(s: Str)
    requires s != [] && s[0] != NUL && !IsBlank(s[0]) && s[0] != QUOTE && s[0] != MINUS && !IsDigit(s[0])
    requires s[0] != BOM[0] && s[0] != TRUE_TEXT[0] && s[0] != FALSE_TEXT[0] && s[0] != NULL_TEXT[0]
    ensures Lex(s) == (if Punctuation(s[0]).Some? then Punctuation(s[0]).value else ParseError, s[1..])
  {
    LexWordless(s, BOM);
    LexWordless(s, TRUE_TEXT);
    LexWordless(s, FALSE_TEXT);
    LexWordless(s, NULL_TEXT);
  }

  lemma LexWordless(s: Str, word: Str)
    requires s != [] && word != [] && s[0] != word[0]
    ensures !StartsWith(s, word)
  {
    if |s| >= |word| { assert s[..|word|][0] == s[0]; }
  }

  /** The tokens up to and including the one that ends the input or the first error. */
  function Tokens(s: Str): (ts: seq<Token>)
    ensures ts != []
    decreases |s|
  {
    var (t, rest) := Lex(s);
    if t == EndOfInput || t == ParseError || s == [] then [t] else [t] + Tokens(rest)
  }
}
