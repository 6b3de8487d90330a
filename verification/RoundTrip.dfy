/** Printing and parsing: what comes back from the text of a value. */
module RoundTrip {
  import opened Bytes
  import opened Json
  import opened Printer
  import opened Lexical
  import opened Decode
  import opened Numbers
  import opened Grammar
  import opened Parser

  // ----- what comes back -----

  /** The value with every non-negative signed integer stored as an unsigned one. */
  function Norm(j: Json): Json {
    match j
    case Int(i) => if i >= 0 then UInt(i) else j
    case Arr(items) => Arr(seq(|items|, i requires 0 <= i < |items| => Norm(items[i])))
    case Obj(members) => Obj(map k | k in members :: Norm(members[k]))
    case _ => j
  }

  lemma {:induction false} NormIsEqual(j: Json)
    ensures Eq(Norm(j), j)
  {
    match j {
      case Arr(items) =>
        forall i | 0 <= i < |items| ensures Eq(Norm(items[i]), items[i]) { NormIsEqual(items[i]); }
      case Obj(members) =>
        forall k | k in members ensures Eq(Norm(members[k]), members[k]) { NormIsEqual(members[k]); }
      case _ =>
    }
  }

  lemma {:induction false} NormIsFloatFree(j: Json)
    requires j.FloatFree()
    ensures Norm(j).FloatFree()
  {
    match j {
      case Arr(items) =>
        forall i | 0 <= i < |items| ensures Norm(items[i]).FloatFree() { NormIsFloatFree(items[i]); }
      case Obj(members) =>
        forall k | k in members ensures Norm(members[k]).FloatFree() { NormIsFloatFree(members[k]); }
      case _ =>
    }
  }

  // ----- tokens of printed text -----

  /** A number in front of this text ends where the text begins. */
  predicate EndsNumber(s: Str) {
    s == [] || (!IsDigit(s[0]) && s[0] != DOT && s[0] != LOWER_E && s[0] != UPPER_E)
  }

  lemma OneToken(text: Str, t: Token, rest: Str)
    requires Lex(text + rest) == (t, rest) && text != [] && !Final(t)
    ensures Tokens(text + rest) == [t] + Tokens(rest)
  {
  }

  lemma {:induction false} SkipBlanks(blanks: Str, rest: Str)
    requires forall i | 0 <= i < |blanks| :: IsBlank(blanks[i])
    ensures Tokens(blanks + rest) == Tokens(rest)
  {
    if blanks == [] {
      assert blanks + rest == rest;
    } else {
      var s := blanks + rest;
      assert s[1..] == blanks[1..] + rest;
      LexByFirst(s);
      SkipBlanks(blanks[1..], rest);
      LexBlank(s[1..]);
    }
  }

  lemma LexBlank(s: Str)
    ensures s == [] ==> Lex(s) == (EndOfInput, []) && Tokens(s) == [EndOfInput]
  {
  }

  lemma PunctuationToken(c: byte, rest: Str)
    requires Punctuation(c).Some?
    ensures Tokens([c] + rest) == [Punctuation(c).value] + Tokens(rest)
  {
    hide Lex, Tokens;
    LexByFirst([c] + rest);
    assert ([c] + rest)[1..] == rest;
    OneToken([c], Punctuation(c).value, rest);
  }

  lemma WordTokens(rest: Str)
    ensures Tokens(NULL_TEXT + rest) == [NullLiteral] + Tokens(rest)
    ensures Tokens(TRUE_TEXT + rest) == [TrueLiteral] + Tokens(rest)
    ensures Tokens(FALSE_TEXT + rest) == [FalseLiteral] + Tokens(rest)
  {
    hide Lex, Tokens;
    LexNull(NULL_TEXT + rest);
    LexTrue(TRUE_TEXT + rest);
    LexFalse(FALSE_TEXT + rest);
    assert (NULL_TEXT + rest)[4..] == rest && (TRUE_TEXT + rest)[4..] == rest && (FALSE_TEXT + rest)[5..] == rest;
    OneToken(NULL_TEXT, NullLiteral, rest);
    OneToken(TRUE_TEXT, TrueLiteral, rest);
    OneToken(FALSE_TEXT, FalseLiteral, rest);
  }

  lemma QuotedToken(s: Str, rest: Str)
    ensures Tokens(Quoted(s) + rest) == [StringToken(Quoted(s))] + Tokens(rest)
    ensures KeyText(StringToken(Quoted(s))) == Some(s) && Scalar(StringToken(Quoted(s))) == Some(Text(s))
  {
    hide Lex, Tokens, IsString, StringValue;
    QuotedRoundTrip(s, rest);
    OneToken(Quoted(s), StringToken(Quoted(s)), rest);
  }

  lemma DecLength(n: nat, rest: Str)
    requires EndsNumber(rest)
    ensures UnsignedLength(Dec(n) + rest) == |Dec(n)|
  {
    hide UnsignedLength, IntLength, FracExpLength, Digits;
    var s := Dec(n) + rest;
    assert s[0] == Dec(n)[0] && s[..|Dec(n)|] == Dec(n) && s[|Dec(n)|..] == rest;
    UnsignedParts(s);
    DigitsAre(s, |Dec(n)|);
    assert IntLength(s) == |Dec(n)|;
  }

  lemma IntegerToken(n: int, rest: Str)
    requires EndsNumber(rest)
    ensures Tokens(IntegerText(n) + rest) == [NumberToken(IntegerText(n))] + Tokens(rest)
  {
    hide Lex, Tokens, NumberLength, UnsignedLength, Dec;
    var t := IntegerText(n);
    var s := t + rest;
    if n < 0 {
      DecLength(-n, rest);
      assert s[1..] == Dec(-n) + rest;
    } else {
      DecLength(n, rest);
      assert IsDigit(Dec(n)[0]) && s[0] == Dec(n)[0];
    }
    NumberParts(s);
    LexByFirst(s);
    assert s[..|t|] == t && s[|t|..] == rest;
    OneToken(t, NumberToken(t), rest);
  }

  lemma IntegerMeaning(n: int)
    requires INT64_MIN <= n <= UINT64_MAX
    ensures NumberValue(IntegerText(n)) == if n < 0 then Int(n) else UInt(n)
  {
    hide Dec, Stored, NumberValue, Value;
    var t := IntegerText(n);
    if n < 0 {
      assert Magnitude(t) == Dec(-n);
      DecDenotes(-n);
    } else {
      assert IsDigit(Dec(n)[0]);
      DecDenotes(n);
    }
    IntegerLiterals(t);
  }

  // ----- the derivation of printed text -----

  /** The token of a value that is neither an array nor an object. */
  function TokenOf(j: Json): Token {
    match j
    case Null => NullLiteral
    case Bool(b) => if b then TrueLiteral else FalseLiteral
    case Int(i) => NumberToken(IntegerText(i))
    case UInt(u) => NumberToken(IntegerText(u))
    case Text(s) => StringToken(Quoted(s))
    case _ => ParseError
  }

  function TreeOf(j: Json): Tree {
    match j
    case Arr(items) => ArrayTree(seq(|items|, i requires 0 <= i < |items| => TreeOf(items[i])))
    case Obj(members) =>
      var ks := SortedKeys(members.Keys);
      ObjectTree(seq(|ks|, i requires 0 <= i < |ks| =>
        assert ks[i] in ks;
        Pair(StringToken(Quoted(ks[i])), TreeOf(members[ks[i]]))))
    case _ => Single(TokenOf(j))
  }

  lemma ScalarTokens(j: Json, l: Layout, current: indent, rest: Str)
    requires j.Primitive() && !j.Float? && (j.IsInteger() ==> EndsNumber(rest))
    ensures Tokens(ValueText(j, l, current) + rest) == [TokenOf(j)] + Tokens(rest)
    ensures Scalar(TokenOf(j)) == Some(Norm(j))
  {
    hide Tokens, IntegerText, Quoted, StringValue, NumberValue, IsString;
    match j {
      case Int(i) => IntegerToken(i, rest); IntegerMeaning(i);
      case UInt(u) => IntegerToken(u, rest); IntegerMeaning(u);
      case Text(s) => QuotedToken(s, rest);
      case _ => WordTokens(rest);
    }
  }

  lemma Blanks(l: Layout, current: indent)
    ensures forall i | 0 <= i < |l.Break() + Spaces(current)| :: IsBlank((l.Break() + Spaces(current))[i])
    ensures forall i | 0 <= i < |Spaces(current)| :: IsBlank(Spaces(current)[i])
  {
  }

  lemma LeadTokens(first: bool, l: Layout, current: indent, rest: Str)
    ensures Tokens(Lead(first, l, current) + rest) == (if first then [] else [ValueSeparator]) + Tokens(rest)
    ensures !first ==> EndsNumber(Lead(first, l, current) + rest)
  {
    hide Tokens, Spaces;
    Blanks(l, current);
    var blanks := Spaces(current);
    if first {
      assert Lead(first, l, current) == blanks;
      SkipBlanks(blanks, rest);
      assert [] + Tokens(rest) == Tokens(rest);
    } else {
      var b := l.Break() + blanks;
      SkipBlanks(b, rest);
      PunctuationToken(COMMA, b + rest);
      assert Lead(first, l, current) + rest == [COMMA] + (b + rest);
    }
  }

  lemma KeyLeadTokens(first: bool, k: Str, l: Layout, current: indent, rest: Str)
    ensures Tokens(KeyLead(first, k, l, current) + rest) ==
            (if first then [] else [ValueSeparator]) + ([StringToken(Quoted(k)), NameSeparator] + Tokens(rest))
    ensures !first ==> EndsNumber(KeyLead(first, k, l, current) + rest)
  {
    hide Tokens, Spaces, Lead, Quoted, EscapedText;
    var space: Str := if l.pretty then [SPACE] else [];
    var colon := [COLON] + (space + rest);
    SkipBlanks(space, rest);
    PunctuationToken(COLON, space + rest);
    QuotedToken(k, colon);
    LeadTokens(first, l, current, Quoted(k) + colon);
    assert KeyLead(first, k, l, current) + rest == Lead(first, l, current) + (Quoted(k) + colon);
    assert [StringToken(Quoted(k))] + ([NameSeparator] + Tokens(rest)) ==
           [StringToken(Quoted(k)), NameSeparator] + Tokens(rest);
  }

  /** What an array or object ends with. */
  lemma CloseTokens(l: Layout, current: indent, close: byte, rest: Str)
    requires Punctuation(close).Some?
    ensures var tail := l.Break() + Spaces(current) + [close] + rest;
      Tokens(tail) == [Punctuation(close).value] + Tokens(rest) && EndsNumber(tail)
  {
    hide Tokens, Spaces;
    Blanks(l, current);
    var b := l.Break() + Spaces(current);
    SkipBlanks(b, [close] + rest);
    PunctuationToken(close, rest);
    assert b + [close] + rest == b + ([close] + rest);
  }

  lemma OpenTokens(l: Layout, open: byte, rest: Str)
    requires Punctuation(open).Some?
    ensures Tokens([open] + l.Break() + rest) == [Punctuation(open).value] + Tokens(rest)
  {
    hide Tokens;
    SkipBlanks(l.Break(), rest);
    PunctuationToken(open, l.Break() + rest);
    assert [open] + l.Break() + rest == [open] + (l.Break() + rest);
  }

  /** The layers that brackets put around the text and the tokens of a value. */
  lemma ArrayLayers(j: Json, l: Layout, current: indent)
    requires j.Arr? && j.items != []
    ensures ValueText(j, l, current) ==
            [LBRACKET] + l.Break() + ItemsText(j, |j.items|, l, l.Deeper(current))
            + l.Break() + Spaces(current) + [RBRACKET]
    ensures TreeOf(j).ArrayTree? && |TreeOf(j).items| == |j.items|
    ensures Yield(TreeOf(j)) == [BeginArray] + YieldItems(TreeOf(j), |j.items|) + [EndArray]
  {
  }

  lemma ObjectLayers(j: Json, l: Layout, current: indent)
    requires j.Obj? && j.members != map[]
    ensures var ks := SortedKeys(j.members.Keys);
      && ValueText(j, l, current) ==
           [LBRACE] + l.Break() + MembersText(j, ks, |ks|, l, l.Deeper(current))
           + l.Break() + Spaces(current) + [RBRACE]
      && TreeOf(j).ObjectTree? && |TreeOf(j).members| == |ks|
      && Yield(TreeOf(j)) == [BeginObject] + YieldMembers(TreeOf(j), |ks|) + [EndObject]
  {
    hide Ascending, Quoted;
  }

  lemma EmptyLayers(j: Json, l: Layout, current: indent)
    ensures j == Arr([]) ==>
              ValueText(j, l, current) == [LBRACKET, RBRACKET] && Yield(TreeOf(j)) == [BeginArray, EndArray]
    ensures j == Obj(map[]) ==>
              ValueText(j, l, current) == [LBRACE, RBRACE] && Yield(TreeOf(j)) == [BeginObject, EndObject]
  {
    NoItems(TreeOf(j));
    if j.Obj? && j.members == map[] { NoMembers(j.members); }
  }

  lemma ScalarLayers(j: Json)
    requires j.Primitive()
    ensures Yield(TreeOf(j)) == [TokenOf(j)]
  {
  }

  /** The tokens of a printed value are those that the grammar derives for it. A number must not be
      continued by what follows. */
  lemma {:induction false} ValueTokens(j: Json, l: Layout, current: indent, rest: Str)
    requires j.FloatFree() && (j.IsInteger() ==> EndsNumber(rest))
    ensures Tokens(ValueText(j, l, current) + rest) == Yield(TreeOf(j)) + Tokens(rest)
    decreases j, 1, 0
  {
    hide Tokens, ValueText, Yield, TreeOf, TokenOf;
    if j.Primitive() {
      ScalarTokens(j, l, current, rest);
      ScalarLayers(j);
    } else if j == Arr([]) {
      EmptyLayers(j, l, current);
      EmptyTokens(LBRACKET, RBRACKET, rest);
    } else if j == Obj(map[]) {
      EmptyLayers(j, l, current);
      EmptyTokens(LBRACE, RBRACE, rest);
    } else if j.Arr? {
      ArrayTokens(j, l, current, rest);
    } else {
      ObjectTokens(j, l, current, rest);
    }
  }

  lemma {:induction false} ArrayTokens(j: Json, l: Layout, current: indent, rest: Str)
    requires j.Arr? && j.items != [] && j.FloatFree()
    ensures Tokens(ValueText(j, l, current) + rest) == Yield(TreeOf(j)) + Tokens(rest)
    decreases j, 0, |j.items| + 1
  {
    hide Tokens, ValueText, ItemsText, Yield, YieldItems, TreeOf, Spaces;
    var n := |j.items|;
    var body := ItemsText(j, n, l, l.Deeper(current));
    var tail := l.Break() + Spaces(current) + [RBRACKET] + rest;
    ArrayLayers(j, l, current);
    CloseTokens(l, current, RBRACKET, rest);
    ItemsTokens(j, n, l, l.Deeper(current), tail);
    OpenTokens(l, LBRACKET, body + tail);
    Enclose([LBRACKET] + l.Break(), body, l.Break(), Spaces(current), [RBRACKET], rest);
    Surround([BeginArray], YieldItems(TreeOf(j), n), [EndArray], Tokens(rest));
  }

  lemma {:induction false} ObjectTokens(j: Json, l: Layout, current: indent, rest: Str)
    requires j.Obj? && j.members != map[] && j.FloatFree()
    ensures Tokens(ValueText(j, l, current) + rest) == Yield(TreeOf(j)) + Tokens(rest)
    decreases j, 0, |SortedKeys(j.members.Keys)| + 1
  {
    hide Tokens, ValueText, MembersText, Yield, YieldMembers, TreeOf, Spaces, SortedKeys, Ascending;
    var ks := SortedKeys(j.members.Keys);
    var body := MembersText(j, ks, |ks|, l, l.Deeper(current));
    var tail := l.Break() + Spaces(current) + [RBRACE] + rest;
    ObjectLayers(j, l, current);
    CloseTokens(l, current, RBRACE, rest);
    MembersTokens(j, |ks|, l, l.Deeper(current), tail);
    OpenTokens(l, LBRACE, body + tail);
    Enclose([LBRACE] + l.Break(), body, l.Break(), Spaces(current), [RBRACE], rest);
    Surround([BeginObject], YieldMembers(TreeOf(j), |ks|), [EndObject], Tokens(rest));
  }

  lemma Enclose(a: Str, b: Str, c: Str, d: Str, e: Str, f: Str)
    ensures a + b + c + d + e + f == a + (b + (c + d + e + f))
  {
  }

  lemma NoMembers(m: map<Str, Json>)
    requires m == map[]
    ensures SortedKeys(m.Keys) == []
  {
  }

  lemma EmptyTokens(open: byte, close: byte, rest: Str)
    requires Punctuation(open).Some? && Punctuation(close).Some?
    ensures Tokens([open, close] + rest) == [Punctuation(open).value, Punctuation(close).value] + Tokens(rest)
  {
    hide Tokens;
    PunctuationToken(close, rest);
    PunctuationToken(open, [close] + rest);
    assert [open, close] + rest == [open] + ([close] + rest);
  }

  lemma {:induction false} ItemsTokens(j: Json, n: nat, l: Layout, current: indent, rest: Str)
    requires j.Arr? && n <= |j.items| && j.FloatFree() && (n > 0 ==> EndsNumber(rest))
    ensures Tokens(ItemsText(j, n, l, current) + rest) == YieldItems(TreeOf(j), n) + Tokens(rest)
    decreases j, 0, n
  {
    hide Tokens, ValueText, Yield, Lead;
    if n == 0 {
      assert [] + rest == rest && [] + Tokens(rest) == Tokens(rest);
    } else {
      var x := j.items[n - 1];
      var text, lead := ValueText(x, l, current), Lead(n == 1, l, current);
      LeadTokens(n == 1, l, current, text + rest);
      ValueTokens(x, l, current, rest);
      ItemsTokens(j, n - 1, l, current, lead + (text + rest));
      Rotate(ItemsText(j, n - 1, l, current), lead, text, rest);
      Rotate(YieldItems(TreeOf(j), n - 1), if n == 1 then [] else [ValueSeparator], Yield(TreeOf(x)), Tokens(rest));
    }
  }

  /** One more member, in the text and among the tokens. */
  lemma MemberLayer(j: Json, n: nat, l: Layout, current: indent)
    requires j.Obj? && 0 < n <= |SortedKeys(j.members.Keys)|
    ensures var ks := SortedKeys(j.members.Keys);
      && ks[n - 1] in j.members
      && MembersText(j, ks, n, l, current) ==
           MembersText(j, ks, n - 1, l, current)
           + (KeyLead(n == 1, ks[n - 1], l, current) + ValueText(j.members[ks[n - 1]], l, current))
      && TreeOf(j).ObjectTree? && n <= |TreeOf(j).members|
      && YieldMembers(TreeOf(j), n) ==
           YieldMembers(TreeOf(j), n - 1)
           + ((if n == 1 then [] else [ValueSeparator]) + [StringToken(Quoted(ks[n - 1])), NameSeparator]
              + Yield(TreeOf(j.members[ks[n - 1]])))
  {
    hide ValueText, KeyLead, Quoted, Yield, SortedKeys, Ascending;
    var ks := SortedKeys(j.members.Keys);
    assert ks[n - 1] in ks;
  }

  lemma NoMemberLayer(j: Json, l: Layout, current: indent)
    requires j.Obj?
    ensures MembersText(j, SortedKeys(j.members.Keys), 0, l, current) == []
    ensures TreeOf(j).ObjectTree? && YieldMembers(TreeOf(j), 0) == []
  {
    hide SortedKeys, Ascending;
  }

  lemma {:induction false} MembersTokens(j: Json, n: nat, l: Layout, current: indent, rest: Str)
    requires j.Obj? && n <= |SortedKeys(j.members.Keys)| && j.FloatFree() && (n > 0 ==> EndsNumber(rest))
    ensures TreeOf(j).ObjectTree? && n <= |TreeOf(j).members|
    ensures Tokens(MembersText(j, SortedKeys(j.members.Keys), n, l, current) + rest)
            == YieldMembers(TreeOf(j), n) + Tokens(rest)
    decreases j, 0, n
  {
    hide Tokens, ValueText, MembersText, Yield, YieldMembers, TreeOf, KeyLead, SortedKeys, Ascending, Quoted;
    var ks := SortedKeys(j.members.Keys);
    if n == 0 {
      NoMemberLayer(j, l, current);
      assert [] + rest == rest && [] + Tokens(rest) == Tokens(rest);
    } else {
      MemberLayer(j, n, l, current);
      var k := ks[n - 1];
      var x := j.members[k];
      var text, lead := ValueText(x, l, current), KeyLead(n == 1, k, l, current);
      KeyLeadTokens(n == 1, k, l, current, text + rest);
      ValueTokens(x, l, current, rest);
      MembersTokens(j, n - 1, l, current, lead + (text + rest));
      Rotate(MembersText(j, ks, n - 1, l, current), lead, text, rest);
      RotateMember(YieldMembers(TreeOf(j), n - 1), if n == 1 then [] else [ValueSeparator],
                   [StringToken(Quoted(k)), NameSeparator], Yield(TreeOf(x)), Tokens(rest));
    }
  }

  lemma RotateMember<T>(a: seq<T>, b: seq<T>, c: seq<T>, d: seq<T>, e: seq<T>)
    ensures a + (b + c + d) + e == a + (b + (c + (d + e)))
  {
  }

  // ----- and what it denotes -----

  lemma {:induction false} TreeMeaning(j: Json)
    requires j.FloatFree()
    ensures Meaning(TreeOf(j)) == Some(Norm(j))
    decreases j, 1, 0
  {
    hide MeaningItems, MeaningMembers, SortedKeys, Ascending;
    match j {
      case Arr(items) =>
        ItemsMeaning(j, |items|);
        assert Norm(j).items[..|items|] == Norm(j).items;
      case Obj(members) =>
        var ks := SortedKeys(members.Keys);
        MembersMeaning(j, |ks|);
        AllMembers(j);
      case Float(_) =>
      case _ => ScalarTokens(j, Layout(false, 0), 0, []);
    }
  }

  lemma {:induction false} ItemsMeaning(j: Json, n: nat)
    requires j.Arr? && n <= |j.items| && j.FloatFree()
    ensures MeaningItems(TreeOf(j), n) == Some(Norm(j).items[..n])
    decreases j, 0, n
  {
    hide Meaning;
    if n > 0 {
      ItemsMeaning(j, n - 1);
      TreeMeaning(j.items[n - 1]);
      assert Norm(j).items[..n] == Norm(j).items[..n - 1] + [Norm(j.items[n - 1])];
    }
  }

  /** The members whose keys are among the given ones. */
  function Restricted(m: map<Str, Json>, ks: seq<Str>): map<Str, Json> {
    map k | k in m && k in ks :: Norm(m[k])
  }

  lemma AllMembers(j: Json)
    requires j.Obj?
    ensures var ks := SortedKeys(j.members.Keys);
      Restricted(j.members, ks[..|ks|]) == Norm(j).members
  {
    hide SortedKeys, Ascending;
    var ks := SortedKeys(j.members.Keys);
    assert ks[..|ks|] == ks;
  }

  lemma OneMore(m: map<Str, Json>, ks: seq<Str>, n: nat)
    requires 0 < n <= |ks| && ks[n - 1] in m
    ensures Restricted(m, ks[..n]) == Restricted(m, ks[..n - 1])[ks[n - 1] := Norm(m[ks[n - 1]])]
  {
    hide Norm;
    assert ks[..n] == ks[..n - 1] + [ks[n - 1]];
  }

  lemma {:induction false} MembersMeaning(j: Json, n: nat)
    requires j.Obj? && n <= |SortedKeys(j.members.Keys)| && j.FloatFree()
    ensures MeaningMembers(TreeOf(j), n) == Some(Restricted(j.members, SortedKeys(j.members.Keys)[..n]))
    decreases j, 0, n
  {
    hide Meaning, KeyText, SortedKeys, Ascending, Quoted, Norm, Restricted;
    var ks := SortedKeys(j.members.Keys);
    if n > 0 {
      MembersMeaning(j, n - 1);
      var k := ks[n - 1];
      assert k in ks;
      TreeMeaning(j.members[k]);
      QuotedToken(k, []);
      OneMore(j.members, ks, n);
    } else {
      NoneRestricted(j.members, ks);
    }
  }

  lemma NoneRestricted(m: map<Str, Json>, ks: seq<Str>)
    ensures Restricted(m, ks[..0]) == map[]
  {
  }

  // ----- the theorems -----

  /** Parsing the text of a value, however it is laid out, gives back the value with its non-negative
      integers unsigned, which the library considers equal. White space may follow the text. */
  lemma ParseOfDump(j: Json, indent: int, blanks: Str)
    requires j.FloatFree() && indent < 0x8000_0000
    requires forall i | 0 <= i < |blanks| :: IsBlank(blanks[i])
    ensures ParseText(Dumped(j, indent) + blanks) == Ok(Norm(j)) && Eq(Norm(j), j)
  {
    hide Parse, Tokens, Yield, Meaning, ValueText;
    NormIsEqual(j);
    ValueTokens(j, LayoutOf(indent), 0, blanks);
    SkipBlanks(blanks, []);
    assert blanks + [] == blanks;
    LexBlank([]);
    TreeMeaning(j);
    ParseTextIsGrammar(Dumped(j, indent) + blanks, Norm(j));
  }

  /** Both ways of storing an integer are printed alike. */
  lemma {:induction false} NormTextSame(j: Json, l: Layout, current: indent)
    ensures ValueText(Norm(j), l, current) == ValueText(j, l, current)
    decreases j, 1, 0
  {
    hide ItemsText, MembersText, Spaces, SortedKeys, Ascending;
    match j {
      case Arr(items) => NormItemsSame(j, |items|, l, l.Deeper(current));
      case Obj(members) =>
        assert Norm(j).members.Keys == members.Keys;
        NormMembersSame(j, SortedKeys(members.Keys), |SortedKeys(members.Keys)|, l, l.Deeper(current));
      case _ =>
    }
  }

  lemma {:induction false} NormItemsSame(j: Json, n: nat, l: Layout, current: indent)
    requires j.Arr? && n <= |j.items|
    ensures ItemsText(Norm(j), n, l, current) == ItemsText(j, n, l, current)
    decreases j, 0, n
  {
    hide ValueText;
    if n > 0 {
      NormItemsSame(j, n - 1, l, current);
      NormTextSame(j.items[n - 1], l, current);
    }
  }

  lemma {:induction false} NormMembersSame(j: Json, ks: seq<Str>, n: nat, l: Layout, current: indent)
    requires j.Obj? && n <= |ks| && forall k | k in ks :: k in j.members
    ensures MembersText(Norm(j), ks, n, l, current) == MembersText(j, ks, n, l, current)
    decreases j, 0, n
  {
    hide ValueText, KeyLead;
    if n > 0 {
      NormMembersSame(j, ks, n - 1, l, current);
      NormTextSame(j.members[ks[n - 1]], l, current);
    }
  }

  /** Printing, parsing and printing again changes nothing, whichever layout was parsed in between. */
  lemma PrintParsePrint(j: Json, indent: int, again: int)
    requires j.FloatFree() && indent < 0x8000_0000 && again < 0x8000_0000
    ensures ParseText(Dumped(j, indent)).Ok?
    ensures Dumped(ParseText(Dumped(j, indent)).value, again) == Dumped(j, again)
  {
    ParseOfDump(j, indent, []);
    assert Dumped(j, indent) + [] == Dumped(j, indent);
    NormTextSame(j, LayoutOf(again), 0);
  }

  /** The printed text determines a value up to the signedness of its non-negative integers; in particular
      values with the same text are equal. */
  lemma TextDeterminesValue(a: Json, b: Json, indent: int)
    requires a.FloatFree() && b.FloatFree() && indent < 0x8000_0000
    ensures Dumped(a, indent) == Dumped(b, indent) <==> Norm(a) == Norm(b)
    ensures Dumped(a, indent) == Dumped(b, indent) ==> Eq(a, b)
  {
    hide Norm, ParseText, ValueText, Eq;
    ParseOfDump(a, indent, []);
    ParseOfDump(b, indent, []);
    assert Dumped(a, indent) + [] == Dumped(a, indent) && Dumped(b, indent) + [] == Dumped(b, indent);
    NormTextSame(a, LayoutOf(indent), 0);
    NormTextSame(b, LayoutOf(indent), 0);
    if Norm(a) == Norm(b) {
      NormIsFloatFree(a);
      EqSymmetric(Norm(a), a);
      EqTransitive(a, Norm(b), b);
    }
  }

  // ----- one line -----

  lemma {:induction false} EscapedHasNoNewline(s: Str)
    ensures NEWLINE !in EscapedText(s)
  {
    if s != [] {
      EscapedHasNoNewline(s[1..]);
    }
  }

  lemma IntegerHasNoNewline(n: int)
    ensures NEWLINE !in IntegerText(n)
  {
    hide Dec;
    var d := if n < 0 then Dec(-n) else Dec(n);
    assert forall i | 0 <= i < |d| :: IsDigit(d[i]);
  }

  /** The compact text of a value is one line: the newline that is sent behind it is the first one. */
  lemma {:induction false} CompactIsOneLine(j: Json, current: indent)
    requires j.FloatFree()
    ensures NEWLINE !in ValueText(j, Layout(false, 0), current)
    decreases j, 1, 0
  {
    hide EscapedText, IntegerText, ItemsText, MembersText, SortedKeys, Ascending;
    var l := Layout(false, 0);
    match j {
      case Arr(items) => ItemsAreOneLine(j, |items|, current);
      case Obj(members) => MembersAreOneLine(j, SortedKeys(members.Keys), |SortedKeys(members.Keys)|, current);
      case Text(s) => EscapedHasNoNewline(s);
      case Int(i) => IntegerHasNoNewline(i);
      case UInt(u) => IntegerHasNoNewline(u);
      case _ =>
    }
  }

  lemma {:induction false} ItemsAreOneLine(j: Json, n: nat, current: indent)
    requires j.Arr? && n <= |j.items| && j.FloatFree()
    ensures NEWLINE !in ItemsText(j, n, Layout(false, 0), current)
    decreases j, 0, n
  {
    hide ValueText;
    if n > 0 {
      ItemsAreOneLine(j, n - 1, current);
      CompactIsOneLine(j.items[n - 1], current);
    }
  }

  lemma KeyLeadIsOneLine(first: bool, k: Str, current: indent)
    ensures NEWLINE !in KeyLead(first, k, Layout(false, 0), current)
  {
    hide EscapedText;
    EscapedHasNoNewline(k);
    var lead := Lead(first, Layout(false, 0), current);
    assert NEWLINE !in lead;
    assert KeyLead(first, k, Layout(false, 0), current) == lead + Quoted(k) + [COLON] + [];
  }

  lemma {:induction false} MembersAreOneLine(j: Json, ks: seq<Str>, n: nat, current: indent)
    requires j.Obj? && n <= |ks| && j.FloatFree() && forall k | k in ks :: k in j.members
    ensures NEWLINE !in MembersText(j, ks, n, Layout(false, 0), current)
    decreases j, 0, n
  {
    hide ValueText, KeyLead;
    if n > 0 {
      MembersAreOneLine(j, ks, n - 1, current);
      CompactIsOneLine(j.members[ks[n - 1]], current);
      KeyLeadIsOneLine(n == 1, ks[n - 1], current);
    }
  }
}
