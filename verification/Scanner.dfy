/** The scanner: an automaton that moves a cursor over the buffer and falls back to a marker. */
module Scanner {
  import opened Bytes
  import opened Printer
  import opened Lexical

  /** Only the case of a string buffer: there is no stream to refill it from. Behind the text the
      buffer holds a NUL byte, which is the only byte beyond the text that may be read. */
  class Lexer {
    const buffer: Str
    var start: nat
    var marker: nat
    var cursor: nat

    constructor (s: Str)
      ensures buffer == s && cursor == 0 && start == 0
    {
      buffer := s;
      start, marker, cursor := 0, 0, 0;
    }

    function At(i: nat): byte
      requires i <= |buffer|
    {
      if i < |buffer| then buffer[i] else NUL
    }

    /** The text that has not been scanned yet. */
    function Rest(): Str
      reads this
    {
      if cursor <= |buffer| then buffer[cursor..] else []
    }

    /** get_token: the text of the last token. */
    function Lexeme(): Str
      requires start <= cursor <= |buffer|
      reads this
    {
      buffer[start..cursor]
    }

    /** The next token. After `EndOfInput` the cursor may be behind the NUL byte; scanning again is then
        not allowed. */
    method Scan() returns (t: Token)
      requires cursor <= |buffer|
      modifies this
      ensures (t, Rest()) == Lex(old(Rest()))
      ensures old(cursor) < cursor <= |buffer| + 1
      ensures cursor == |buffer| + 1 ==> t == EndOfInput
      ensures t.StringToken? || t.NumberToken? ==> start < cursor <= |buffer| && t.lexeme == Lexeme()
      decreases |buffer| - cursor
    {
      hide Lex, Punctuation, NumberLength, BodyEnd, StartsWith;
      marker := 0;
      start := cursor;
      var c := At(cursor);
      ghost var s := buffer[cursor..];
      if cursor < |buffer| { LexByFirst(s); } else { assert Lex(s) == (EndOfInput, []) by { LexOfNothing(); } }
      if IsBlank(c) {  // state 6
        cursor := cursor + 1;
        t := Scan();
      } else if c == NUL {  // state 2
        cursor := cursor + 1;
        t := EndOfInput;
      } else if c == QUOTE {  // state 9
        t := ScanString();
      } else if c == MINUS || IsDigit(c) {  // states 12, 13 and 15
        t := ScanNumber();
      } else if c == BOM[0] {  // state 30
        LexBom(s);
        var ok := ScanWord(BOM);
        if ok {
          t := Scan();
        } else {
          t := ParseError;
        }
      } else {
        t := ScanLiteral();
      }
    }

    lemma LexOfNothing()
      ensures Lex([]) == (EndOfInput, [])
    {
    }

    /** The literals, punctuation, and whatever starts no token. */
    method ScanLiteral() returns (t: Token)
      requires cursor < |buffer|
      requires var c := buffer[cursor];
        c != NUL && !IsBlank(c) && c != QUOTE && c != MINUS && !IsDigit(c) && c != BOM[0]
      modifies this`cursor, this`marker
      ensures (t, Rest()) == Lex(old(Rest()))
      ensures old(cursor) < cursor <= |buffer|
      ensures !t.StringToken? && !t.NumberToken?
    {
      hide Lex, StartsWith;
      var c := At(cursor);
      ghost var s := buffer[cursor..];
      var ok;
      if c == TRUE_TEXT[0] {  // state 25
        LexTrue(s);
        ok := ScanWord(TRUE_TEXT);
        t := if ok then TrueLiteral else ParseError;
      } else if c == FALSE_TEXT[0] {  // state 23
        LexFalse(s);
        ok := ScanWord(FALSE_TEXT);
        t := if ok then FalseLiteral else ParseError;
      } else if c == NULL_TEXT[0] {  // state 24
        LexNull(s);
        ok := ScanWord(NULL_TEXT);
        t := if ok then NullLiteral else ParseError;
      } else {
        LexOther(s);
        cursor := cursor + 1;
        t := if Punctuation(c).Some? then Punctuation(c).value else ParseError;
      }
    }

    /** A fixed word whose first byte is already known; on a mismatch back to the byte behind that. */
    method ScanWord(word: Str) returns (ok: bool)
      requires cursor < |buffer| && 0 < |word| && buffer[cursor] == word[0] && NUL !in word
      modifies this`cursor, this`marker
      ensures ok == StartsWith(buffer[old(cursor)..], word)
      ensures cursor == old(cursor) + (if ok then |word| else 1) <= |buffer|
    {
      ghost var s := buffer[cursor..];
      var k := 1;
      cursor := cursor + 1;
      marker := cursor;
      while k < |word|
        invariant 1 <= k <= |word| && cursor == old(cursor) + k <= |buffer|
        invariant marker == old(cursor) + 1
        invariant s[..k] == word[..k]
      {
        if At(cursor) != word[k] {
          WordBreaks(s, word, k);
          cursor := marker;
          return false;
        }
        assert s[..k + 1] == s[..k] + [s[k]] && word[..k + 1] == word[..k] + [word[k]];
        cursor := cursor + 1;
        k := k + 1;
      }
      return true;
    }

    /** States 12, 13, 15, 37, 38, 44, 46 and 47. */
    method ScanNumber() returns (t: Token)
      requires start == cursor < |buffer| && (buffer[cursor] == MINUS || IsDigit(buffer[cursor]))
      modifies this`cursor, this`marker
      ensures var s, n := buffer[old(cursor)..], NumberLength(buffer[old(cursor)..]);
        if n == 0 then t == ParseError && cursor == old(cursor) + 1
        else t == NumberToken(s[..n]) && cursor == old(cursor) + n && s[..n] == Lexeme()
    {
      hide NumberLength, UnsignedLength, Digits;
      NumberParts(buffer[cursor..]);
      if At(cursor) == MINUS {
        assert buffer[cursor..][1..] == buffer[cursor + 1..];
        cursor := cursor + 1;
        if !IsDigit(At(cursor)) {
          return ParseError;
        }
      }
      UnsignedParts(buffer[cursor..]);
      ScanUnsigned();
      return NumberToken(buffer[start..cursor]);
    }

    method ScanUnsigned()
      requires cursor < |buffer| && IsDigit(buffer[cursor])
      modifies this`cursor, this`marker
      ensures cursor == old(cursor) + UnsignedLength(buffer[old(cursor)..]) <= |buffer|
    {
      hide UnsignedLength, IntLength, FracExpLength, Digits;
      ghost var u := buffer[cursor..];
      UnsignedParts(u);
      if At(cursor) == ZERO {
        cursor := cursor + 1;
      } else {
        SkipDigits();
      }
      marker := cursor;
      assert buffer[cursor..] == u[IntLength(u)..];
      if At(cursor) == DOT {
        ScanFraction();
      } else if At(cursor) == UPPER_E || At(cursor) == LOWER_E {
        FracExpIsExp(buffer[cursor..]);
        ScanExponent();
      }
    }

    lemma FracExpIsExp(s: Str)
      requires s != [] && s[0] != DOT
      ensures FracExpLength(s) == ExpLength(s)
    {
    }

    /** A run of digits, at least one: the loops of states 15, 44 and 47. */
    method SkipDigits()
      requires cursor < |buffer| && IsDigit(buffer[cursor])
      modifies this`cursor
      ensures cursor == old(cursor) + Digits(buffer[old(cursor)..]) <= |buffer|
    {
      ghost var s := buffer[cursor..];
      while IsDigit(At(cursor))
        invariant old(cursor) <= cursor <= |buffer|
        invariant cursor - old(cursor) + Digits(buffer[cursor..]) == Digits(s)
        decreases |buffer| - cursor
      {
        assert buffer[cursor..][1..] == buffer[cursor + 1..];
        cursor := cursor + 1;
      }
    }

    /** States 37 and 44: the cursor is at the point, the marker too. */
    method ScanFraction()
      requires marker == cursor < |buffer| && buffer[cursor] == DOT
      modifies this`cursor, this`marker
      ensures cursor == old(cursor) + FracExpLength(buffer[old(cursor)..]) <= |buffer|
    {
      ghost var s := buffer[cursor..];
      assert s[1..] == buffer[cursor + 1..];
      cursor := cursor + 1;
      if !IsDigit(At(cursor)) {
        cursor := marker;
        return;
      }
      SkipDigits();
      marker := cursor;
      assert s[1 + Digits(s[1..])..] == buffer[cursor..];
      if At(cursor) == UPPER_E || At(cursor) == LOWER_E {
        ScanExponent();
      }
    }

    /** States 38, 46 and 47: the cursor is at the letter, the marker too. */
    method ScanExponent()
      requires marker == cursor < |buffer| && (buffer[cursor] == LOWER_E || buffer[cursor] == UPPER_E)
      modifies this`cursor
      ensures cursor == old(cursor) + ExpLength(buffer[old(cursor)..]) <= |buffer|
    {
      ghost var s := buffer[cursor..];
      assert s[1..] == buffer[cursor + 1..];
      assert |s| >= 2 ==> s[2..] == buffer[cursor + 2..];
      cursor := cursor + 1;
      if At(cursor) == PLUS || At(cursor) == MINUS {
        cursor := cursor + 1;
      }
      if !IsDigit(At(cursor)) {
        cursor := marker;
        return;
      }
      SkipDigits();
    }

    /** States 9, 31, 32, 34, 36, 43, 54, 60 and 63. */
    method ScanString() returns (t: Token)
      requires start == cursor < |buffer| && buffer[cursor] == QUOTE
      modifies this`cursor, this`marker
      ensures var s, n := buffer[old(cursor)..], BodyEnd(buffer[old(cursor)..][1..]);
        if n == -1 then t == ParseError && cursor == old(cursor) + 1
        else t == StringToken(s[..n + 2]) && cursor == old(cursor) + n + 2 && s[..n + 2] == Lexeme()
    {
      hide BodyEnd, UnitLength;
      ghost var s := buffer[cursor..];
      assert s[1..] == buffer[cursor + 1..];
      cursor := cursor + 1;
      marker := cursor;
      BodyEndStep(buffer[cursor..]);
      while At(cursor) != QUOTE
        invariant marker == old(cursor) + 1 <= cursor <= |buffer|
        invariant BodyEnd(s[1..]) == Shifted(cursor - marker, BodyEnd(buffer[cursor..]))
        decreases |buffer| - cursor
      {
        ghost var r := buffer[cursor..];
        BodyEndStep(r);
        var ok := ScanUnit();
        if !ok {
          cursor := marker;
          return ParseError;
        }
      }
      BodyEndStep(buffer[cursor..]);
      cursor := cursor + 1;
      return StringToken(buffer[start..cursor]);
    }

    /** States 31, 32, 34 and 36: one character or escape. */
    method ScanUnit() returns (ok: bool)
      requires cursor <= |buffer| && At(cursor) != QUOTE
      modifies this`cursor
      ensures old(cursor) <= cursor <= |buffer|
      ensures ok <==> UnitLength(buffer[old(cursor)..]) > 0
      ensures ok ==> cursor == old(cursor) + UnitLength(buffer[old(cursor)..])
      ensures ok ==> buffer[old(cursor)..][UnitLength(buffer[old(cursor)..])..] == buffer[cursor..]
    {
      if At(cursor) <= 0x0F {
        ok := false;
      } else if At(cursor) != BACKSLASH {
        cursor := cursor + 1;
        ok := true;
      } else {
        hide UnitLength;
        ok := ScanEscape();
      }
    }

    ghost function Shifted(n: int, end: int): int {
      if end == -1 then -1 else n + end
    }

    /** States 36, 43, 54, 60 and 63: a backslash and what follows it. */
    method ScanEscape() returns (ok: bool)
      requires cursor < |buffer| && buffer[cursor] == BACKSLASH
      modifies this`cursor
      ensures old(cursor) <= cursor <= |buffer|
      ensures ok <==> UnitLength(buffer[old(cursor)..]) > 0
      ensures ok ==> cursor == old(cursor) + UnitLength(buffer[old(cursor)..])
    {
      ghost var s := buffer[cursor..];
      cursor := cursor + 1;
      if IsEscapeLetter(At(cursor)) {
        cursor := cursor + 1;
        return true;
      }
      if At(cursor) != LETTER_U {
        return false;
      }
      cursor := cursor + 1;
      for k := 0 to 4
        invariant cursor == old(cursor) + 2 + k <= |buffer|
        invariant forall i | 2 <= i < 2 + k :: IsHex(s[i])
      {
        if !IsHex(At(cursor)) {
          assert 2 + k < |s| ==> !IsHex(s[2 + k]);
          return false;
        }
        cursor := cursor + 1;
      }
      return true;
    }
  }
}
