/** The recursive-descent parser: one token of lookahead over the scanner. */
module Parser {
  import opened Bytes
  import opened Json
  import opened Lexical
  import opened Scanner
  import opened Decode
  import opened Numbers
  import opened Grammar

  /** json::parse of a text. */
  function ParseText(s: Str): Result<Json> {
    ParseAll(Tokens(s))
  }

  /** Nothing is read behind these. */
  predicate Final(t: Token) {
    t == EndOfInput || t == ParseError
  }

  lemma {:induction false} LexSound(s: Str)
    ensures Lex(s).0.StringToken? ==> IsString(Lex(s).0.lexeme)
    ensures Lex(s).0.NumberToken? ==> IsNumber(Lex(s).0.lexeme)
    decreases |s|
  {
    hide BodyEnd, NumberLength, IsString, IsNumber;
    if s != [] {
      if s[0] != NUL && IsBlank(s[0]) { LexSound(s[1..]); }
      if StartsWith(s, BOM) { LexSound(s[3..]); }
      if s[0] == QUOTE && BodyEnd(s[1..]) != -1 { EndMakesString(s); }
      NumberIsLongest(s);
    }
  }

  lemma TokensStep(s: Str)
    ensures Tokens(s) == if Final(Lex(s).0) then [Lex(s).0] else [Lex(s).0] + Tokens(Lex(s).1)
  {
    if s == [] { assert Lex(s).0 == EndOfInput; }
  }

  class Machine {
    const lexer: Lexer
    var last: Token

    ghost predicate Valid()
      reads this, lexer
    {
      && lexer.cursor <= |lexer.buffer| + 1
      && (lexer.cursor == |lexer.buffer| + 1 ==> last == EndOfInput)
      && (last.StringToken? || last.NumberToken? ==>
            lexer.start < lexer.cursor <= |lexer.buffer| && last.lexeme == lexer.Lexeme())
      && (last.StringToken? ==> IsString(last.lexeme))
      && (last.NumberToken? ==> IsNumber(last.lexeme))
    }

    /** The tokens from the current one on. */
    ghost function Ahead(): (ts: seq<Token>)
      reads this, lexer
      ensures ts != [] && ts[0] == last
    {
      if Final(last) then [last] else [last] + Tokens(lexer.Rest())
    }

    /** Reads the first token. */
    constructor (s: Str)
      ensures Valid() && Ahead() == Tokens(s)
      ensures fresh(lexer)
    {
      lexer := new Lexer(s);
      last := ParseError;
      new;
      assert lexer.Rest() == s;
      LexSound(s);
      TokensStep(s);
      last := lexer.Scan();
    }

    /** get_token. The scanner is never asked for a token behind the end of the input. */
    method GetToken()
      requires Valid() && !Final(last)
      modifies this`last, lexer
      ensures Valid() && Ahead() == old(Ahead())[1..]
      ensures lexer.cursor > old(lexer.cursor)
    {
      LexSound(lexer.Rest());
      TokensStep(lexer.Rest());
      last := lexer.Scan();
    }

    ghost function Remaining(): int
      reads lexer
    {
      |lexer.buffer| + 1 - lexer.cursor
    }

    /** parse_internal: on success the tokens of one value have been read. */
    method ParseInternal() returns (r: Result<Json>)
      requires Valid()
      modifies this`last, lexer
      ensures Valid() && lexer.cursor >= old(lexer.cursor)
      ensures r.Ok? <==> Parse(old(Ahead())).Ok?
      ensures r.Ok? ==> Parse(old(Ahead())).value == (r.value, Ahead()) && lexer.cursor > old(lexer.cursor)
      ensures r.Err? ==> r.error == InvalidArgument
      decreases Remaining(), 1
    {
      if last == BeginObject {
        r := ParseObject();
      } else if last == BeginArray {
        r := ParseArray();
      } else {
        r := ParseScalar();
      }
    }

    method ParseScalar() returns (r: Result<Json>)
      requires Valid() && last != BeginObject && last != BeginArray
      modifies this`last, lexer
      ensures Valid() && lexer.cursor >= old(lexer.cursor)
      ensures r.Ok? <==> Parse(old(Ahead())).Ok?
      ensures r.Ok? ==> Parse(old(Ahead())).value == (r.value, Ahead()) && lexer.cursor > old(lexer.cursor)
      ensures r.Err? ==> r.error == InvalidArgument
    {
      hide StringValue, NumberValue, IsString, IsNumber, Tokens;
      match last {
        case NullLiteral => r := Ok(Null);
        case TrueLiteral => r := Ok(Bool(true));
        case FalseLiteral => r := Ok(Bool(false));
        case NumberToken(lexeme) =>
          var n := GetNumber(lexeme);
          r := Ok(n);
        case StringToken(lexeme) =>
          StringError(lexeme);
          var s := GetString(lexer);
          if s.Err? {
            return Err(s.error);
          }
          r := Ok(Text(s.value));
        case _ =>
          return Err(InvalidArgument);
      }
      GetToken();
    }

    lemma StringError(lexeme: Str)
      requires IsString(lexeme)
      ensures StringValue(lexeme).Err? ==> StringValue(lexeme).error == InvalidArgument
    {
      BodyValueError(lexeme[1..|lexeme| - 1]);
    }

    method ParseArray() returns (r: Result<Json>)
      requires Valid() && last == BeginArray
      modifies this`last, lexer
      ensures Valid() && lexer.cursor >= old(lexer.cursor)
      ensures r.Ok? <==> Parse(old(Ahead())).Ok?
      ensures r.Ok? ==> Parse(old(Ahead())).value == (r.value, Ahead()) && lexer.cursor > old(lexer.cursor)
      ensures r.Err? ==> r.error == InvalidArgument
      decreases Remaining(), 0
    {
      ghost var all := Ahead();
      GetToken();
      ghost var ts := Ahead();
      hide Parse, ParseItems, Tokens;
      assert all == [BeginArray] + ts;
      OpenArray(ts);
      if last == EndArray {
        GetToken();
        return Ok(Arr([]));
      }
      if last == ValueSeparator {
        ItemsNeedValue(ts, []);
        return Err(InvalidArgument);
      }
      var result: seq<Json> := [];
      var first, more := true, true;
      while more
        invariant Valid() && lexer.cursor > old(lexer.cursor)
        invariant more && first ==> last != ValueSeparator && ParseItems(ts, []) == ParseItems(Ahead(), result)
        invariant more && !first ==> last == ValueSeparator && ParseItems(ts, []) == ParseItems(Ahead()[1..], result)
        invariant !more ==> last != ValueSeparator
        invariant !more && last == EndArray ==> ParseItems(ts, []) == Ok((Arr(result), Ahead()[1..]))
        invariant !more && last != EndArray ==> ParseItems(ts, []).Err?
        decreases more, Remaining()
      {
        if last == ValueSeparator {
          GetToken();
        }
        var items := ParseItem(result);
        if items.Err? {
          return Err(items.error);
        }
        result := items.value;
        first := false;
        more := last == ValueSeparator;
      }
      if last != EndArray {
        return Err(InvalidArgument);
      }
      GetToken();
      return Ok(Arr(result));
    }

    /** One value: the items with it at their end. */
    method ParseItem(xs: seq<Json>) returns (r: Result<seq<Json>>)
      requires Valid()
      modifies this`last, lexer
      ensures Valid() && lexer.cursor >= old(lexer.cursor)
      ensures r.Err? ==> r.error == InvalidArgument && ParseItems(old(Ahead()), xs).Err?
      ensures r.Ok? ==> lexer.cursor > old(lexer.cursor)
      ensures r.Ok? ==>
                ParseItems(old(Ahead()), xs) == (
                  if last == ValueSeparator then ParseItems(Ahead()[1..], r.value)
                  else if last == EndArray then Ok((Arr(r.value), Ahead()[1..]))
                  else Err(InvalidArgument))
      decreases Remaining(), 2
    {
      hide Parse, ParseItems, Tokens;
      ghost var ts := Ahead();
      var value := ParseInternal();
      if value.Err? {
        ParseFails(ParseError, ts, xs, map[]);
        return Err(value.error);
      }
      Grammar.ParseItem(ts, xs);
      return Ok(xs + [value.value]);
    }

    lemma ItemsNeedValue(ts: seq<Token>, xs: seq<Json>)
      requires ts != [] && ts[0] == ValueSeparator
      ensures ParseItems(ts, xs) == Err(InvalidArgument)
    {
    }

    method ParseObject() returns (r: Result<Json>)
      requires Valid() && last == BeginObject
      modifies this`last, lexer
      ensures Valid() && lexer.cursor >= old(lexer.cursor)
      ensures r.Ok? <==> Parse(old(Ahead())).Ok?
      ensures r.Ok? ==> Parse(old(Ahead())).value == (r.value, Ahead()) && lexer.cursor > old(lexer.cursor)
      ensures r.Err? ==> r.error == InvalidArgument
      decreases Remaining(), 0
    {
      ghost var all := Ahead();
      GetToken();
      ghost var ts := Ahead();
      hide Parse, ParseMembers, Tokens, KeyText;
      assert all == [BeginObject] + ts;
      OpenObject(ts);
      if last == EndObject {
        GetToken();
        return Ok(Obj(map[]));
      }
      if last == ValueSeparator {
        assert ParseMembers(ts, map[]).Err? by { MembersNeedKey(ts, map[]); }
        return Err(InvalidArgument);
      }
      var result: map<Str, Json> := map[];
      var first, more := true, true;
      while more
        invariant Valid() && lexer.cursor > old(lexer.cursor)
        invariant more && first ==> last != ValueSeparator && ParseMembers(ts, map[]) == ParseMembers(Ahead(), result)
        invariant more && !first ==>
                    last == ValueSeparator && ParseMembers(ts, map[]) == ParseMembers(Ahead()[1..], result)
        invariant !more ==> last != ValueSeparator
        invariant !more && last == EndObject ==> ParseMembers(ts, map[]) == Ok((Obj(result), Ahead()[1..]))
        invariant !more && last != EndObject ==> ParseMembers(ts, map[]).Err?
        decreases more, Remaining()
      {
        if last == ValueSeparator {
          GetToken();
        }
        var member := ParseMember(result);
        if member.Err? {
          return Err(member.error);
        }
        result := member.value;
        first := false;
        more := last == ValueSeparator;
      }
      if last != EndObject {
        return Err(InvalidArgument);
      }
      GetToken();
      return Ok(Obj(result));
    }

    lemma MembersNeedKey(ts: seq<Token>, m: map<Str, Json>)
      requires ts != [] && KeyText(ts[0]).None?
      ensures ParseMembers(ts, m) == Err(InvalidArgument)
    {
    }

    /** One key, a colon and a value: the object with the member inserted. */
    method ParseMember(m: map<Str, Json>) returns (r: Result<map<Str, Json>>)
      requires Valid()
      modifies this`last, lexer
      ensures Valid() && lexer.cursor >= old(lexer.cursor)
      ensures r.Err? ==> r.error == InvalidArgument && ParseMembers(old(Ahead()), m).Err?
      ensures r.Ok? ==> lexer.cursor > old(lexer.cursor)
      ensures r.Ok? ==>
                ParseMembers(old(Ahead()), m) == (
                  if last == ValueSeparator then ParseMembers(Ahead()[1..], r.value)
                  else if last == EndObject then Ok((Obj(r.value), Ahead()[1..]))
                  else Err(InvalidArgument))
      decreases Remaining(), 2
    {
      hide Parse, ParseMembers, StringValue, IsString, Tokens;
      ghost var ts := Ahead();
      if !last.StringToken? {
        MembersNeedKey(ts, m);
        return Err(InvalidArgument);
      }
      StringError(last.lexeme);
      var key := GetString(lexer);
      if key.Err? {
        MembersNeedKey(ts, m);
        return Err(key.error);
      }
      GetToken();
      if last != NameSeparator {
        MembersNeedColon(ts, m);
        return Err(InvalidArgument);
      }
      GetToken();
      assert ts == [ts[0], NameSeparator] + Ahead();
      ghost var behind := Ahead();
      var value := ParseInternal();
      if value.Err? {
        ParseFails(ts[0], behind, [], m);
        return Err(value.error);
      }
      Grammar.ParseMember(ts[0], behind, m);
      return Ok(m[key.value := value.value]);
    }

    lemma MembersNeedColon(ts: seq<Token>, m: map<Str, Json>)
      requires |ts| < 2 || ts[1] != NameSeparator
      ensures ParseMembers(ts, m) == Err(InvalidArgument)
    {
    }
  }

  /** parse() */
  method ParseDocument(s: Str) returns (r: Result<Json>)
    ensures r == ParseText(s)
  {
    hide Parse, Tokens;
    var parser := new Machine(s);
    r := parser.ParseInternal();
    ErrorIsInvalid(Tokens(s));
    if r.Ok? && parser.last != EndOfInput {
      r := Err(InvalidArgument);
    }
  }

  lemma {:induction false} ErrorIsInvalid(ts: seq<Token>)
    ensures Parse(ts).Err? ==> Parse(ts).error == InvalidArgument
    decreases |ts|, 1
  {
    hide Scalar;
    if ts != [] && ts[0] == BeginObject && |ts| > 1 && ts[1] != EndObject {
      MembersErrorIsInvalid(ts[1..], map[]);
    } else if ts != [] && ts[0] == BeginArray && |ts| > 1 && ts[1] != EndArray {
      ItemsErrorIsInvalid(ts[1..], []);
    }
  }

  lemma {:induction false} ItemsErrorIsInvalid(ts: seq<Token>, xs: seq<Json>)
    ensures ParseItems(ts, xs).Err? ==> ParseItems(ts, xs).error == InvalidArgument
    decreases |ts|, 2
  {
    ErrorIsInvalid(ts);
    hide Parse;
    if Parse(ts).Ok? {
      var (v, rest) := Parse(ts).value;
      if rest != [] { ItemsErrorIsInvalid(rest[1..], xs + [v]); }
    }
  }

  lemma {:induction false} MembersErrorIsInvalid(ts: seq<Token>, m: map<Str, Json>)
    ensures ParseMembers(ts, m).Err? ==> ParseMembers(ts, m).error == InvalidArgument
    decreases |ts|, 0
  {
    hide KeyText;
    if |ts| >= 2 && KeyText(ts[0]).Some? {
      ErrorIsInvalid(ts[2..]);
      hide Parse;
      if Parse(ts[2..]).Ok? {
        var (v, rest) := Parse(ts[2..]).value;
        if rest != [] { MembersErrorIsInvalid(rest[1..], m[KeyText(ts[0]).value := v]); }
      }
    }
  }

  /** json::parse accepts a text exactly if its tokens, up to the end of the input, derive from the JSON
      grammar; it returns the value denoted, and every other text is refused with invalid_argument. */
  lemma ParseTextIsGrammar(s: Str, j: Json)
    ensures ParseText(s) == Ok(j) <==> exists t :: Tokens(s) == Yield(t) + [EndOfInput] && Meaning(t) == Some(j)
    ensures ParseText(s).Err? ==> ParseText(s).error == InvalidArgument
  {
    hide Parse, Tokens, Yield, Meaning;
    ErrorIsInvalid(Tokens(s));
    if ParseText(s) == Ok(j) {
      var t := ParseSound(Tokens(s));
      var rest := Parse(Tokens(s)).value.1;
      EndIsLast(s, |Yield(t)|);
      assert rest == [EndOfInput];
    }
    if t :| Tokens(s) == Yield(t) + [EndOfInput] && Meaning(t) == Some(j) {
      ParseComplete(t, [EndOfInput]);
    }
  }

  /** The end of the input is the last token, and only the last one is final. */
  lemma {:induction false} EndIsLast(s: Str, n: nat)
    requires n < |Tokens(s)| && Final(Tokens(s)[n])
    ensures n == |Tokens(s)| - 1
    decreases |s|
  {
    TokensStep(s);
    hide Lex, Tokens;
    if n > 0 {
      EndIsLast(Lex(s).1, n - 1);
    }
  }
}
