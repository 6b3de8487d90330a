/** The number grammar of section 6 of RFC 7159 once more, as a finite automaton over bytes: an independent
    definition of what a number is. */
module NumberAutomaton {
  import opened Bytes
  import opened Lexical

  datatype State = Start | Sign | Zero | Int | Point | Frac | Letter | ExpSign | Exp | Dead

  function Next(q: State, c: byte): State {
    match q
    case Start => if c == 0x2D then Sign else FirstDigit(c)
    case Sign => FirstDigit(c)
    case Zero => Behind(c)
    case Int => if 0x30 <= c <= 0x39 then Int else Behind(c)
    case Point => if 0x30 <= c <= 0x39 then Frac else Dead
    case Frac => if 0x30 <= c <= 0x39 then Frac else if c == 0x65 || c == 0x45 then Letter else Dead
    case Letter => if c == 0x2B || c == 0x2D then ExpSign else if 0x30 <= c <= 0x39 then Exp else Dead
    case ExpSign => if 0x30 <= c <= 0x39 then Exp else Dead
    case Exp => if 0x30 <= c <= 0x39 then Exp else Dead
    case Dead => Dead
  }

  function FirstDigit(c: byte): State {
    if c == 0x30 then Zero else if 0x31 <= c <= 0x39 then Int else Dead
  }

  function Behind(c: byte): State {
    if c == 0x2E then Point else if c == 0x65 || c == 0x45 then Letter else Dead
  }

  predicate Accepting(q: State) {
    q == Zero || q == Int || q == Frac || q == Exp
  }

  function Run(q: State, s: Str): State
    decreases |s|
  {
    if s == [] then q else Run(Next(q, s[0]), s[1..])
  }

  predicate Accepts(q: State, s: Str) {
    Accepting(Run(q, s))
  }

  lemma {:induction false} DeadStays(s: Str)
    ensures Run(Dead, s) == Dead
  {
    if s != [] { DeadStays(s[1..]); }
  }

  lemma PrefixStarts(s: Str)
    ensures forall n | 0 < n <= |s| :: s[..n][0] == s[0]
  {
  }

  lemma {:induction false} RunConcat(q: State, s: Str, t: Str)
    ensures Run(q, s + t) == Run(Run(q, s), t)
    decreases |s|
  {
    if s == [] {
      assert s + t == t;
    } else {
      assert (s + t)[0] == s[0] && (s + t)[1..] == s[1..] + t;
      RunConcat(Next(q, s[0]), s[1..], t);
    }
  }

  // ----- from the end of the grammar to its beginning -----

  lemma AllDigitsTail(s: Str)
    requires s != []
    ensures AllDigits(s) <==> IsDigit(s[0]) && AllDigits(s[1..])
  {
    if IsDigit(s[0]) && AllDigits(s[1..]) {
      forall i | 0 <= i < |s| ensures IsDigit(s[i]) {
        if i > 0 { assert s[i] == s[1..][i - 1]; }
      }
    }
    if AllDigits(s) {
      forall i | 0 <= i < |s[1..]| ensures IsDigit(s[1..][i]) { assert s[1..][i] == s[i + 1]; }
    }
  }

  lemma {:induction false} FromExp(s: Str)
    ensures Accepts(Exp, s) <==> AllDigits(s)
  {
    if s != [] {
      AllDigitsTail(s);
      DeadStays(s[1..]);
      FromExp(s[1..]);
    }
  }

  lemma FromLetter(s: Str)
    ensures Accepts(Letter, s) <==>
      s != [] && (AllDigits(s) || ((s[0] == PLUS || s[0] == MINUS) && |s| > 1 && AllDigits(s[1..])))
  {
    if s != [] {
      AllDigitsTail(s);
      FromExp(s[1..]);
      DeadStays(s[1..]);
      FromExpSign(s[1..]);
    }
  }

  lemma FromExpSign(s: Str)
    ensures Accepts(ExpSign, s) <==> s != [] && AllDigits(s)
  {
    if s != [] {
      AllDigitsTail(s);
      FromExp(s[1..]);
      DeadStays(s[1..]);
    }
  }

  lemma LetterIsExp(s: Str)
    requires s != [] && (s[0] == LOWER_E || s[0] == UPPER_E)
    ensures IsExp(s) <==> Accepts(Letter, s[1..])
  {
    FromLetter(s[1..]);
    assert |s| > 2 ==> s[1..][1..] == s[2..];
  }

  /** Digits and then an exponent or nothing. */
  predicate DigitsThenExp(s: Str) {
    exists n :: 0 <= n <= |s| && DigitsUpTo(s, n) && (s[n..] == [] || IsExp(s[n..]))
  }

  predicate DigitsUpTo(s: Str, n: nat)
    requires n <= |s|
  {
    AllDigits(s[..n])
  }

  lemma {:induction false} FromFrac(s: Str)
    ensures Accepts(Frac, s) <==> DigitsThenExp(s)
  {
    hide IsExp;
    if s == [] {
      assert DigitsUpTo(s, 0) && s[0..] == [];
    } else if IsDigit(s[0]) {
      FromFrac(s[1..]);
      DigitsThenExpTail(s);
    } else {
      NoDigitFirst(s);
      if s[0] == LOWER_E || s[0] == UPPER_E { LetterIsExp(s); } else { DeadStays(s[1..]); ExpStarts(s); }
    }
  }

  lemma ExpStarts(s: Str)
    ensures IsExp(s) ==> s[0] == LOWER_E || s[0] == UPPER_E
  {
  }

  lemma NoDigitFirst(s: Str)
    requires s != [] && !IsDigit(s[0])
    ensures DigitsThenExp(s) <==> IsExp(s)
  {
    hide IsExp;
    assert s[0..] == s && DigitsUpTo(s, 0);
    PrefixStarts(s);
    forall n | 0 < n <= |s| ensures !DigitsUpTo(s, n) {
      assert !IsDigit(s[..n][0]);
    }
  }

  lemma DigitsThenExpTail(s: Str)
    requires s != [] && IsDigit(s[0])
    ensures DigitsThenExp(s) <==> DigitsThenExp(s[1..])
  {
    hide IsExp;
    var t := s[1..];
    if n :| 0 <= n <= |s| && DigitsUpTo(s, n) && (s[n..] == [] || IsExp(s[n..])) {
      if n == 0 {
        assert s[0..] == s;
        ExpStarts(s);
        assert false;
      } else {
        assert s[..n][1..] == t[..n - 1] && s[n..] == t[n - 1..];
        AllDigitsTail(s[..n]);
        assert DigitsUpTo(t, n - 1);
      }
    }
    if n :| 0 <= n <= |t| && DigitsUpTo(t, n) && (t[n..] == [] || IsExp(t[n..])) {
      assert s[..n + 1][1..] == t[..n] && s[n + 1..] == t[n..] && s[..n + 1][0] == s[0];
      AllDigitsTail(s[..n + 1]);
      assert DigitsUpTo(s, n + 1);
    }
  }

  lemma FromPoint(s: Str)
    ensures Accepts(Point, s) <==> s != [] && IsDigit(s[0]) && DigitsThenExp(s)
  {
    if s != [] {
      if IsDigit(s[0]) {
        FromFrac(s[1..]);
        DigitsThenExpTail(s);
      } else {
        DeadStays(s[1..]);
      }
    }
  }

  lemma FracIsPoint(s: Str)
    requires s != [] && s[0] == DOT
    ensures IsFracExp(s) <==> s[1..] != [] && IsDigit(s[1..][0]) && DigitsThenExp(s[1..])
  {
    hide IsExp;
    var t := s[1..];
    ExpStarts(s);
    if n :| 0 < n <= |s| && IsFrac(s[..n]) && (s[n..] == [] || IsExp(s[n..])) {
      PointThenDigits(s, n);
    }
    if t != [] && IsDigit(t[0]) && DigitsThenExp(t) {
      DigitsBehindPoint(s);
    }
  }

  lemma PointThenDigits(s: Str, n: nat)
    requires 0 < n <= |s| && IsFrac(s[..n]) && (s[n..] == [] || IsExp(s[n..]))
    ensures s[1..] != [] && IsDigit(s[1..][0]) && DigitsThenExp(s[1..])
  {
    hide IsExp;
    var t := s[1..];
    assert s[..n][1..] == t[..n - 1] && s[n..] == t[n - 1..];
    assert t[..n - 1][0] == t[0];
    assert DigitsUpTo(t, n - 1);
  }

  lemma DigitsBehindPoint(s: Str)
    requires s != [] && s[0] == DOT && s[1..] != [] && IsDigit(s[1..][0]) && DigitsThenExp(s[1..])
    ensures IsFracExp(s)
  {
    hide IsExp;
    var t := s[1..];
    DigitsThenExpTail(t);
    var m :| 0 <= m <= |t[1..]| && DigitsUpTo(t[1..], m) && (t[1..][m..] == [] || IsExp(t[1..][m..]));
    var n := m + 2;
    assert s[n..] == t[1..][m..];
    assert s[..n][1..] == t[..m + 1] && t[..m + 1][1..] == t[1..][..m] && t[..m + 1][0] == t[0];
    AllDigitsTail(t[..m + 1]);
    assert IsFrac(s[..n]);
  }

  lemma FracExpStarts(s: Str)
    requires s != [] && IsFracExp(s)
    ensures s[0] == DOT || s[0] == LOWER_E || s[0] == UPPER_E
  {
    if !IsExp(s) {
      var n :| 0 < n <= |s| && IsFrac(s[..n]) && (s[n..] == [] || IsExp(s[n..]));
      assert s[..n][0] == s[0];
    }
  }

  lemma LetterIsFracExp(s: Str)
    requires s != [] && s[0] != DOT
    ensures IsFracExp(s) <==> IsExp(s)
  {
    hide IsExp;
    PrefixStarts(s);
  }

  /** Behind the integer part. */
  lemma FromZero(s: Str)
    ensures Accepts(Zero, s) <==> IsFracExp(s)
  {
    hide IsFracExp, IsExp;
    if s == [] {
      assert IsFracExp(s) by { NothingIsFracExp(); }
    } else if s[0] == DOT {
      FromPoint(s[1..]);
      FracIsPoint(s);
    } else if s[0] == LOWER_E || s[0] == UPPER_E {
      LetterIsFracExp(s);
      LetterIsExp(s);
    } else {
      if IsFracExp(s) { FracExpStarts(s); }
      DeadStays(s[1..]);
    }
  }

  lemma NothingIsFracExp()
    ensures IsFracExp([])
  {
  }

  predicate DigitsThenFracExp(s: Str) {
    exists n :: 0 <= n <= |s| && DigitsUpTo(s, n) && IsFracExp(s[n..])
  }

  lemma {:induction false} FromInt(s: Str)
    ensures Accepts(Int, s) <==> DigitsThenFracExp(s)
  {
    hide IsFracExp;
    if s == [] {
      NothingIsFracExp();
      assert DigitsUpTo(s, 0) && s[0..] == [];
    } else if IsDigit(s[0]) {
      FromInt(s[1..]);
      DigitsThenFracExpTail(s);
    } else {
      FromZero(s);
      NoDigitFracExp(s);
    }
  }

  lemma NoDigitFracExp(s: Str)
    requires s != [] && !IsDigit(s[0])
    ensures DigitsThenFracExp(s) <==> IsFracExp(s)
  {
    hide IsFracExp;
    assert s[0..] == s && DigitsUpTo(s, 0);
    PrefixStarts(s);
    forall n | 0 < n <= |s| ensures !DigitsUpTo(s, n) {
      assert !IsDigit(s[..n][0]);
    }
  }

  lemma DigitsThenFracExpTail(s: Str)
    requires s != [] && IsDigit(s[0])
    ensures DigitsThenFracExp(s) <==> DigitsThenFracExp(s[1..])
  {
    hide IsFracExp;
    var t := s[1..];
    if n :| 0 <= n <= |s| && DigitsUpTo(s, n) && IsFracExp(s[n..]) {
      if n == 0 {
        assert s[0..] == s;
        FracExpStarts(s);
        assert false;
      } else {
        assert s[..n][1..] == t[..n - 1] && s[n..] == t[n - 1..];
        AllDigitsTail(s[..n]);
        assert DigitsUpTo(t, n - 1);
      }
    }
    if n :| 0 <= n <= |t| && DigitsUpTo(t, n) && IsFracExp(t[n..]) {
      assert s[..n + 1][1..] == t[..n] && s[n + 1..] == t[n..] && s[..n + 1][0] == s[0];
      AllDigitsTail(s[..n + 1]);
      assert DigitsUpTo(s, n + 1);
    }
  }

  lemma FromSign(s: Str)
    ensures Accepts(Sign, s) <==> IsUnsigned(s)
  {
    hide IsFracExp;
    if s != [] {
      if s[0] == ZERO {
        FromZero(s[1..]);
        ZeroIsAlone(s);
      } else if IsDigit(s[0]) {
        FromInt(s[1..]);
        DigitsAreInt(s);
      } else {
        DeadStays(s[1..]);
        PrefixStarts(s);
        forall n | 0 < n <= |s| ensures !IsInt(s[..n]) {
          assert !IsDigit(s[..n][0]);
        }
      }
    }
  }

  lemma ZeroIsAlone(s: Str)
    requires s != [] && s[0] == ZERO
    ensures IsUnsigned(s) <==> IsFracExp(s[1..])
  {
    hide IsFracExp;
    assert s[..1] == [ZERO];
    if n :| 0 < n <= |s| && IsInt(s[..n]) && IsFracExp(s[n..]) {
      assert s[..n][0] == s[0];
    }
  }

  lemma DigitsAreInt(s: Str)
    requires s != [] && IsDigit(s[0]) && s[0] != ZERO
    ensures IsUnsigned(s) <==> DigitsThenFracExp(s[1..])
  {
    hide IsFracExp;
    var t := s[1..];
    if n :| 0 < n <= |s| && IsInt(s[..n]) && IsFracExp(s[n..]) {
      assert s[..n][0] == s[0];
      assert s[..n][1..] == t[..n - 1] && s[n..] == t[n - 1..];
      AllDigitsTail(s[..n]);
      assert DigitsUpTo(t, n - 1);
    }
    if n :| 0 <= n <= |t| && DigitsUpTo(t, n) && IsFracExp(t[n..]) {
      assert s[..n + 1][1..] == t[..n] && s[n + 1..] == t[n..] && s[..n + 1][0] == s[0];
      AllDigitsTail(s[..n + 1]);
      assert IsInt(s[..n + 1]);
    }
  }

  /** The grammar and the automaton describe the same numbers. */
  lemma NumberIsAccepted(s: Str)
    ensures IsNumber(s) <==> Accepts(Start, s)
  {
    hide IsUnsigned;
    if s == [] {
      assert !IsUnsigned(s) by { EmptyIsNone(); }
    } else if s[0] == MINUS {
      FromSign(s[1..]);
      if IsUnsigned(s) { UnsignedStarts(s); }
    } else {
      FromSign(s);
    }
  }

  lemma EmptyIsNone()
    ensures !IsUnsigned([])
  {
  }

  lemma UnsignedStarts(s: Str)
    requires IsUnsigned(s)
    ensures s != [] && IsDigit(s[0])
  {
    var n :| 0 < n <= |s| && IsInt(s[..n]) && IsFracExp(s[n..]);
    assert s[..n][0] == s[0];
  }

  // ----- where a number ends -----

  /** What follows a number in a text continues it exactly by a digit, a point or the letter of an exponent. */
  lemma EndsThere(s: Str, after: Str)
    requires IsNumber(s)
    requires after == [] || !(0x30 <= after[0] <= 0x39 || after[0] == 0x2E || after[0] == 0x65 || after[0] == 0x45)
    ensures NumberLength(s + after) == |s|
  {
    hide IsNumber, NumberLength, Run, Next;
    var text, n := s + after, |s|;
    NumberIsLongest(text);
    assert text[..n] == s;
    var m := NumberLength(text);
    if m > n {
      NumberIsAccepted(s);
      NumberIsAccepted(text[..m]);
      assert text[..m] == s + after[..m - n];
      RunConcat(Start, s, after[..m - n]);
      NothingContinues(Run(Start, s), after[..m - n]);
    }
  }

  lemma NothingContinues(q: State, s: Str)
    requires Accepting(q) && s != []
    requires !(0x30 <= s[0] <= 0x39 || s[0] == 0x2E || s[0] == 0x65 || s[0] == 0x45)
    ensures !Accepts(q, s)
  {
    DeadStays(s[1..]);
  }
}
