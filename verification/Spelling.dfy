/** How tokens are written: scanning takes a text apart into spelled tokens and what stands between them. */
module Spelling {
  import opened Bytes
  import opened Printer
  import opened Lexical
  import opened Grammar
  import opened Parser
  import opened RoundTrip
  import opened NumberAutomaton

  // ----- what is skipped -----

  /** The white space of section 2 of RFC 7159. */
  predicate IsWhite(c: byte) {
    c == 0x20 || c == 0x09 || c == 0x0A || c == 0x0D
  }

  /** White space and byte order marks. */
  predicate Skippable(w: Str)
    decreases |w|
  {
    || w == []
    || (IsWhite(w[0]) && Skippable(w[1..]))
    || (|w| >= 3 && w[0] == 0xEF && w[1] == 0xBB && w[2] == 0xBF && Skippable(w[3..]))
  }

  lemma {:induction false} SkippedFirst(w: Str, s: Str)
    requires Skippable(w)
    ensures Lex(w + s) == Lex(s)
    decreases |w|
  {
    var all := w + s;
    if w == [] {
      assert all == s;
    } else if IsWhite(w[0]) {
      assert all[1..] == w[1..] + s;
      LexByFirst(all);
      SkippedFirst(w[1..], s);
    } else {
      assert all[3..] == w[3..] + s;
      assert all[..3] == BOM;
      LexBom(all);
      SkippedFirst(w[3..], s);
    }
  }

  /** In front of a text they do not change its tokens. */
  lemma SkippedTokens(w: Str, s: Str)
    requires Skippable(w)
    ensures Tokens(w + s) == Tokens(s)
  {
    hide Lex;
    SkippedFirst(w, s);
    if s == [] { LexBlank([]); }
    if w + s != [] && s == [] { LexBlank(s); }
  }

  // ----- how a token is written -----

  function Spelled(t: Token): Str {
    match t
    case TrueLiteral => Ascii("true")
    case FalseLiteral => Ascii("false")
    case NullLiteral => Ascii("null")
    case StringToken(lexeme) => lexeme
    case NumberToken(lexeme) => lexeme
    case BeginArray => Ascii("[")
    case BeginObject => Ascii("{")
    case EndArray => Ascii("]")
    case EndObject => Ascii("}")
    case NameSeparator => Ascii(":")
    case ValueSeparator => Ascii(",")
    case ParseError => []
    case EndOfInput => []
  }

  /** A token other than the final ones, with a lexeme of its kind. */
  predicate Proper(t: Token) {
    && t != ParseError && t != EndOfInput
    && (t.StringToken? ==> IsString(t.lexeme))
    && (t.NumberToken? ==> IsNumber(t.lexeme))
  }

  predicate Continues(c: byte) {
    0x30 <= c <= 0x39 || c == 0x2E || c == 0x65 || c == 0x45
  }

  lemma SpelledIs(t: Token)
    ensures t == TrueLiteral ==> Spelled(t) == TRUE_TEXT
    ensures t == FalseLiteral ==> Spelled(t) == FALSE_TEXT
    ensures t == NullLiteral ==> Spelled(t) == NULL_TEXT
    ensures t == BeginArray ==> Spelled(t) == [LBRACKET]
    ensures t == EndArray ==> Spelled(t) == [RBRACKET]
    ensures t == BeginObject ==> Spelled(t) == [LBRACE]
    ensures t == EndObject ==> Spelled(t) == [RBRACE]
    ensures t == NameSeparator ==> Spelled(t) == [COLON]
    ensures t == ValueSeparator ==> Spelled(t) == [COMMA]
  {
  }

  /** The first byte of a token is none that is skipped, nor the NUL byte that ends the input. */
  lemma SpelledStarts(t: Token)
    requires Proper(t)
    ensures var s := Spelled(t); s != [] && !IsWhite(s[0]) && s[0] != 0xEF && s[0] != 0
    ensures t.NumberToken? <==> Spelled(t)[0] == 0x2D || 0x30 <= Spelled(t)[0] <= 0x39
    ensures !t.NumberToken? ==> !Continues(Spelled(t)[0])
  {
    hide IsNumber, Ascii;
    SpelledIs(t);
    if t.NumberToken? { NumberStarts(t.lexeme); }
  }

  lemma NumberStarts(s: Str)
    requires IsNumber(s)
    ensures s != [] && (s[0] == 0x2D || 0x30 <= s[0] <= 0x39)
  {
    NumberIsAccepted(s);
    if s != [] { DeadStays(s[1..]); }
  }

  lemma WordLex(t: Token, rest: Str)
    requires t in {TrueLiteral, FalseLiteral, NullLiteral}
    ensures Lex(Spelled(t) + rest) == (t, rest)
  {
    hide Lex, Ascii;
    SpelledIs(t);
    var s := Spelled(t) + rest;
    assert s[..|Spelled(t)|] == Spelled(t) && s[|Spelled(t)|..] == rest;
    if t == TrueLiteral { LexTrue(s); } else if t == FalseLiteral { LexFalse(s); } else { LexNull(s); }
  }

  lemma StringLex(lexeme: Str, rest: Str)
    requires IsString(lexeme)
    ensures Lex(lexeme + rest) == (StringToken(lexeme), rest)
  {
    hide Lex, IsBody, BodyEnd;
    var s := lexeme + rest;
    assert s[..|lexeme|] == lexeme && s[|lexeme|..] == rest;
    StringIsUnique(s, |lexeme|);
    LexByFirst(s);
  }

  lemma NumberLex(lexeme: Str, rest: Str)
    requires IsNumber(lexeme) && (rest == [] || !Continues(rest[0]))
    ensures Lex(lexeme + rest) == (NumberToken(lexeme), rest)
  {
    hide Lex, IsNumber, NumberLength;
    var s := lexeme + rest;
    assert s[..|lexeme|] == lexeme && s[|lexeme|..] == rest;
    NumberStarts(lexeme);
    EndsThere(lexeme, rest);
    LexByFirst(s);
  }

  /** A spelled token is scanned as that token, whatever follows; only a number must not be continued. */
  lemma SpelledLex(t: Token, rest: Str)
    requires Proper(t) && (t.NumberToken? ==> rest == [] || !Continues(rest[0]))
    ensures Lex(Spelled(t) + rest) == (t, rest)
  {
    hide Lex, Ascii, IsString, IsNumber;
    SpelledIs(t);
    if t.StringToken? {
      StringLex(t.lexeme, rest);
    } else if t.NumberToken? {
      NumberLex(t.lexeme, rest);
    } else if t in {TrueLiteral, FalseLiteral, NullLiteral} {
      WordLex(t, rest);
    } else {
      LexByFirst(Spelled(t) + rest);
      assert (Spelled(t) + rest)[1..] == rest;
    }
  }

  // ----- white space between the tokens -----

  /** The tokens as a text, each behind what is to be skipped. */
  function Spread(ws: seq<Str>, ts: seq<Token>): Str
    requires |ws| == |ts|
    decreases |ts|
  {
    if ts == [] then [] else ws[0] + Spelled(ts[0]) + Spread(ws[1..], ts[1..])
  }

  /** Two numbers have something between them, unless the second one has a sign. */
  predicate Apart(ws: seq<Str>, ts: seq<Token>)
    requires |ws| == |ts|
  {
    forall i | 0 < i < |ts| :: ApartAt(ws, ts, i)
  }

  predicate ApartAt(ws: seq<Str>, ts: seq<Token>, i: nat)
    requires |ws| == |ts| && 0 < i < |ts|
  {
    ts[i - 1].NumberToken? && ts[i].NumberToken? ==> ws[i] != [] || StartsWithSign(ts[i].lexeme)
  }

  predicate StartsWithSign(s: Str) {
    s != [] && s[0] == 0x2D
  }

  predicate AllSkippable(ws: seq<Str>) {
    forall i | 0 <= i < |ws| :: Skippable(ws[i])
  }

  predicate AllProper(ts: seq<Token>) {
    forall i | 0 <= i < |ts| :: Proper(ts[i])
  }

  lemma SkippableStarts(w: Str)
    requires Skippable(w) && w != []
    ensures !Continues(w[0])
  {
  }

  /** A number at the front is not continued by the text behind it. */
  lemma NotContinued(ws: seq<Str>, ts: seq<Token>, w: Str)
    requires |ws| == |ts| > 0 && AllSkippable(ws) && AllProper(ts) && Apart(ws, ts) && Skippable(w)
    ensures var rest := Spread(ws[1..], ts[1..]) + w;
      ts[0].NumberToken? ==> rest == [] || !Continues(rest[0])
  {
    hide Spelled, Skippable, Proper, Continues;
    if |ts| == 1 {
      if w != [] { SkippableStarts(w); }
    } else {
      var u, t := ws[1], ts[1];
      assert ws[1..][0] == u && ts[1..][0] == t && Skippable(u) && Proper(t);
      SpelledStarts(t);
      assert ApartAt(ws, ts, 1);
      if u != [] { SkippableStarts(u); }
      if u == [] && t.NumberToken? && StartsWithSign(t.lexeme) { SignDoesNotContinue(t); }
      assert Spread(ws[1..], ts[1..])[0] == if u != [] then u[0] else Spelled(t)[0];
    }
  }

  lemma SignDoesNotContinue(t: Token)
    requires t.NumberToken? && StartsWithSign(t.lexeme)
    ensures Spelled(t) != [] && !Continues(Spelled(t)[0])
  {
  }

  /** White space may stand in front of every token and at the end, and is nowhere needed except between
      two numbers: the tokens are those that were spelled. */
  lemma {:induction false} SpelledTokens(ws: seq<Str>, ts: seq<Token>, w: Str)
    requires |ws| == |ts| && AllSkippable(ws) && AllProper(ts) && Apart(ws, ts) && Skippable(w)
    ensures Tokens(Spread(ws, ts) + w) == ts + [EndOfInput]
    decreases |ts|
  {
    hide Lex, Tokens, Spelled, Skippable, Proper, Continues;
    if ts == [] {
      SkippedTokens(w, []);
      assert [] + w == w && w + [] == w;
      LexBlank([]);
    } else {
      var rest := Spread(ws[1..], ts[1..]) + w;
      assert Skippable(ws[0]) && Proper(ts[0]);
      ApartTail(ws, ts);
      SpelledTokens(ws[1..], ts[1..], w);
      NotContinued(ws, ts, w);
      SpelledLex(ts[0], rest);
      SpelledStarts(ts[0]);
      ProperIsNotFinal(ts[0]);
      OneToken(Spelled(ts[0]), ts[0], rest);
      SkippedTokens(ws[0], Spelled(ts[0]) + rest);
      Shift(ws[0], Spelled(ts[0]), Spread(ws[1..], ts[1..]), w);
      assert [ts[0]] + (ts[1..] + [EndOfInput]) == ts + [EndOfInput];
    }
  }

  lemma ProperIsNotFinal(t: Token)
    requires Proper(t)
    ensures !Final(t)
  {
  }

  lemma Shift(a: Str, b: Str, c: Str, d: Str)
    ensures a + b + c + d == a + (b + (c + d))
  {
  }

  lemma ApartTail(ws: seq<Str>, ts: seq<Token>)
    requires |ws| == |ts| > 0 && AllSkippable(ws) && AllProper(ts) && Apart(ws, ts)
    ensures AllSkippable(ws[1..]) && AllProper(ts[1..]) && Apart(ws[1..], ts[1..])
  {
    hide Skippable, Proper;
    forall i | 0 < i < |ts[1..]| ensures ApartAt(ws[1..], ts[1..], i) {
      assert ApartAt(ws, ts, i + 1);
      assert ts[1..][i - 1] == ts[i];
    }
  }

  /** So a text is parsed alike whatever white space it has between its tokens. */
  lemma WhiteSpaceIsIgnored(ws: seq<Str>, ts: seq<Token>, w: Str)
    requires |ws| == |ts| && AllSkippable(ws) && AllProper(ts) && Apart(ws, ts) && Skippable(w)
    ensures ParseText(Spread(ws, ts) + w) == ParseAll(ts + [EndOfInput])
  {
    hide Tokens, Spread, Parse, AllSkippable, AllProper, Apart, Skippable;
    SpelledTokens(ws, ts, w);
  }

  // ----- and nothing else is skipped -----

  /** What the scanner does to any text: it skips `w`, and then it is at the end of the text or at a NUL byte;
      or it has read exactly the spelling of the token; or it is at a byte that starts no token, and takes it. */
  lemma {:induction false} LexTakesApart(s: Str) returns (w: Str)
    ensures Skippable(w)
    ensures var (t, rest) := Lex(s);
      if t == EndOfInput then (s == w && rest == []) || s == w + [0] + rest
      else if t == ParseError then exists c :: s == w + [c] + rest && !IsWhite(c) && c != 0
      else Proper(t) && s == w + Spelled(t) + rest
    decreases |s|
  {
    hide NumberLength, BodyEnd, IsNumber, IsString, Ascii, Skippable;
    if s == [] {
      w := [];
      assert Skippable(w) by { NothingIsSkippable(); }
    } else if IsWhite(s[0]) {
      assert Lex(s) == Lex(s[1..]);
      w := LexTakesApart(s[1..]);
      w := [s[0]] + w;
      OneMoreSkipped(s[0], w[1..]);
      assert s == [s[0]] + s[1..];
      Prefixed([s[0]], w[1..], s, s[1..]);
    } else if s[0] != NUL && StartsWith(s, BOM) {
      assert s[..3][0] == s[0] && s[..3][1] == s[1] && s[..3][2] == s[2];
      LexBom(s);
      var v := LexTakesApart(s[3..]);
      w := BOM + v;
      BomIsSkippable(v);
      assert s == BOM + s[3..];
      Prefixed(BOM, v, s, s[3..]);
    } else {
      w := [];
      NothingIsSkippable();
      LexHere(s);
    }
  }

  lemma NothingIsSkippable()
    ensures Skippable([])
  {
  }

  lemma OneMoreSkipped(c: byte, w: Str)
    requires IsWhite(c) && Skippable(w)
    ensures Skippable([c] + w)
  {
    assert ([c] + w)[1..] == w;
  }

  lemma BomIsSkippable(w: Str)
    requires Skippable(w)
    ensures Skippable(BOM + w)
  {
    assert (BOM + w)[3..] == w;
  }

  lemma Prefixed(a: Str, w: Str, s: Str, t: Str)
    requires s == a + t
    ensures forall x, rest :: t == w + x + rest ==> s == a + w + x + rest
    ensures t == w ==> s == a + w
  {
    forall x: Str, rest: Str | t == w + x + rest ensures s == a + w + x + rest {
      assert a + (w + x + rest) == a + w + x + rest;
    }
  }

  /** A text that starts with nothing to be skipped. */
  lemma LexHere(s: Str)
    requires s != [] && !IsWhite(s[0]) && !(s[0] != NUL && StartsWith(s, BOM))
    ensures var (t, rest) := Lex(s);
      if t == EndOfInput then s == [] + [0] + rest
      else if t == ParseError then exists c :: s == [] + [c] + rest && !IsWhite(c) && c != 0
      else Proper(t) && s == [] + Spelled(t) + rest
  {
    hide Lex, NumberLength, BodyEnd, IsNumber, IsString, Ascii, StartsWith;
    assert s == [s[0]] + s[1..];
    var c := s[0];
    if c == QUOTE {
      StringHere(s);
    } else if c == MINUS || IsDigit(c) {
      NumberHere(s);
    } else if c == NUL || Punctuation(c).Some? {
      LexByFirst(s);
      SpelledIs(Lex(s).0);
    } else if c == TRUE_TEXT[0] || c == FALSE_TEXT[0] || c == NULL_TEXT[0] {
      WordHere(s);
    } else if c == BOM[0] {
      LexBom(s);
    } else {
      LexOther(s);
    }
    assert Lex(s).0 == ParseError ==> s == [] + [c] + Lex(s).1;
  }

  lemma StringHere(s: Str)
    requires s != [] && s[0] == QUOTE
    ensures var (t, rest) := Lex(s);
      (t == ParseError && rest == s[1..]) || (t.StringToken? && Proper(t) && s == [] + Spelled(t) + rest)
  {
    hide Lex, BodyEnd, IsString, Ascii;
    LexByFirst(s);
    LexSound(s);
    if BodyEnd(s[1..]) != -1 { Cut(s, BodyEnd(s[1..]) + 2); }
  }

  lemma NumberHere(s: Str)
    requires s != [] && (s[0] == MINUS || IsDigit(s[0]))
    ensures var (t, rest) := Lex(s);
      (t == ParseError && rest == s[1..]) || (t.NumberToken? && Proper(t) && s == [] + Spelled(t) + rest)
  {
    hide Lex, NumberLength, IsNumber, Ascii;
    LexByFirst(s);
    LexSound(s);
    if NumberLength(s) != 0 { Cut(s, NumberLength(s)); }
  }

  lemma Cut(s: Str, n: nat)
    requires n <= |s|
    ensures s == [] + s[..n] + s[n..]
  {
  }

  lemma WordHere(s: Str)
    requires s != [] && (s[0] == TRUE_TEXT[0] || s[0] == FALSE_TEXT[0] || s[0] == NULL_TEXT[0])
    ensures var (t, rest) := Lex(s);
      (t == ParseError && rest == s[1..]) || (Proper(t) && s == [] + Spelled(t) + rest)
  {
    hide Lex, Ascii, IsString, IsNumber, StartsWith;
    if s[0] == TRUE_TEXT[0] {
      LexTrue(s);
      SpelledIs(TrueLiteral);
      CutWord(s, TRUE_TEXT);
    } else if s[0] == FALSE_TEXT[0] {
      LexFalse(s);
      SpelledIs(FalseLiteral);
      CutWord(s, FALSE_TEXT);
    } else {
      LexNull(s);
      SpelledIs(NullLiteral);
      CutWord(s, NULL_TEXT);
    }
  }

  lemma CutWord(s: Str, word: Str)
    ensures StartsWith(s, word) ==> |s| >= |word| && s == [] + word + s[|word|..]
  {
  }
}
