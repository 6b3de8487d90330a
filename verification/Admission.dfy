/** Which requests are admitted: the answer to any line, with every condition spelled out. */
module Admission {
  import opened Bytes
  import opened Json
  import opened Printer
  import opened Lexical
  import opened Parser
  import opened Message
  import opened Requests
  import opened Conversation
  import Calls
  import Names

  // ----- the conditions -----

  function Field(j: Json, name: Str): Json
    requires j.Obj?
  {
    if name in j.members then j.members[name] else Null
  }

  /** The low 32 bits of the time stamp, taken as a signed number, are at most half a minute behind the clock. */
  ghost predicate StampIsFresh(j: Json, now: int)
    requires j.Obj?
  {
    var t := Field(j, Ascii("timestamp"));
    (t.Int? && CutIsFresh(t.i, now)) || (t.UInt? && CutIsFresh(t.u, now))
  }

  ghost predicate CutIsFresh(n: int, now: int) {
    exists cut: int :: -0x8000_0000 <= cut <= 0x7FFF_FFFF && SameLow32(cut, n) && now - 30 <= cut
  }

  ghost predicate SameLow32(a: int, b: int) {
    (a - b) % 0x1_0000_0000 == 0
  }

  /** The signature is the digest of the five texts, in this order. */
  predicate IsSigned(digest: Digest, key: Str, j: Json)
    requires j.Obj?
  {
    Field(j, Ascii("sig")) ==
    Text(digest(
      Compact(Field(j, Ascii("jsonrpc"))) + Compact(Field(j, Ascii("method"))) + Compact(Field(j, Ascii("params")))
      + Compact(Field(j, Ascii("timestamp"))) + Compact(Field(j, Ascii("id"))), key))
  }

  function MethodName(j: Json): Json
    requires j.Obj?
  {
    Field(j, Ascii("method"))
  }

  function Arguments(j: Json): Json
    requires j.Obj?
  {
    Field(j, Ascii("params"))
  }

  function Identifier(j: Json): Json
    requires j.Obj?
  {
    Field(j, Ascii("id"))
  }

  /** A method is registered under the name that the request gives. */
  predicate IsKnown(methods: Methods, j: Json)
    requires j.Obj?
  {
    MethodName(j).Text? && MethodName(j).s in methods && methods[MethodName(j).s].Some?
  }

  function Declared(methods: Methods, j: Json): seq<ParamType>
    requires j.Obj? && IsKnown(methods, j)
  {
    methods[MethodName(j).s].value
  }

  /** One argument for each declared parameter, and each of its kind. */
  predicate ArgumentsMatch(types: seq<ParamType>, j: Json)
    requires j.Obj?
  {
    var args := Arguments(j);
    && args.Arr? && |args.items| == |types|
    && (forall i | 0 <= i < |types| && types[i] == StringParam :: args.items[i].Text?)
    && (forall i | 0 <= i < |types| && types[i] == BoolParam :: args.items[i].Bool?)
    && (forall i | 0 <= i < |types| && types[i] == IntParam :: args.items[i].Int? || args.items[i].UInt?)
    && (forall i | 0 <= i < |types| && types[i] == FloatParam ::
          args.items[i].Int? || args.items[i].UInt? || args.items[i].Float?)
  }

  predicate WantsReply(j: Json)
    requires j.Obj?
  {
    var id := Identifier(j);
    id.Int? || id.UInt? || id.Float? || id.Text?
  }

  /** An error reply, member by member. */
  function ErrorWith(code: int64, message: Str, id: Json): Json {
    Obj(map[
      Ascii("jsonrpc") := Text(Ascii("2.0")),
      Ascii("id") := id,
      Ascii("error") := Obj(map[Ascii("code") := Int(code), Ascii("message") := Text(message)])])
  }

  function ParseErrorReply(): Json {
    ErrorWith(-32700, Ascii("Parse error"), Null)
  }

  function InvalidRequestReply(): Json {
    ErrorWith(-32600, Ascii("Invalid Request"), Null)
  }

  /** Only a request that wants a reply is told about these. */
  function NotFoundOutcome(j: Json): Outcome
    requires j.Obj?
  {
    if WantsReply(j) then Replied(ErrorWith(-32601, Ascii("Method not found"), Identifier(j))) else Silent
  }

  function InvalidParamsOutcome(j: Json): Outcome
    requires j.Obj?
  {
    if WantsReply(j) then Replied(ErrorWith(-32602, Ascii("Invalid params"), Identifier(j))) else Silent
  }

  // ----- they are what the source checks -----

  lemma FieldIsGet(j: Json, k: Str)
    requires j.Obj?
    ensures Field(j, k) == Get(j, k)
  {
  }

  lemma FreshIsTimely(j: Json, now: int)
    requires j.Obj?
    ensures StampIsFresh(j, now) <==> Timely(j, now)
  {
    var t := Field(j, Ascii("timestamp"));
    assert t == Get(j, TIMESTAMP) by { Names.MessageMembers(); }
    hide Ascii, Truncated, CutIsFresh, Field, Get;
    if t.Int? { CutIsTruncated(t.i, now); }
    if t.UInt? { CutIsTruncated(t.u, now); }
  }

  lemma CutIsTruncated(n: int, now: int)
    ensures CutIsFresh(n, now) <==> Truncated(n) >= now - 30
  {
    hide Truncated, SameLow32;
    TruncatedIs(n, Truncated(n));
    forall cut: int | -0x8000_0000 <= cut <= 0x7FFF_FFFF && SameLow32(cut, n) ensures cut == Truncated(n) {
      TruncatedIs(n, cut);
    }
  }

  lemma TruncatedIs(n: int, cut: int)
    requires -0x8000_0000 <= cut <= 0x7FFF_FFFF
    ensures SameLow32(cut, n) <==> cut == Truncated(n)
  {
    var low := n % 0x1_0000_0000;
    var q := n / 0x1_0000_0000;
    assert n == q * 0x1_0000_0000 + low;
    assert (cut - n) % 0x1_0000_0000 == (cut - low) % 0x1_0000_0000 by {
      MultipleAway(cut - low, q);
    }
  }

  lemma {:induction false} MultipleAway(x: int, q: int)
    ensures (x - q * 0x1_0000_0000) % 0x1_0000_0000 == x % 0x1_0000_0000
    decreases if q < 0 then -q else q
  {
    if q > 0 {
      MultipleAway(x, q - 1);
      assert x - q * 0x1_0000_0000 == x - (q - 1) * 0x1_0000_0000 - 0x1_0000_0000;
    } else if q < 0 {
      MultipleAway(x, q + 1);
      assert x - q * 0x1_0000_0000 == x - (q + 1) * 0x1_0000_0000 + 0x1_0000_0000;
    }
  }

  lemma SignedIsAuthentic(digest: Digest, key: Str, j: Json)
    requires j.Obj?
    ensures IsSigned(digest, key, j) <==> RequestIsAuthentic(digest, key, j)
  {
    hide Ascii, Compact, Get, Field;
    Names.MessageMembers();
    forall k ensures Field(j, k) == Get(j, k) { FieldIsGet(j, k); }
  }

  lemma MatchIsFit(types: seq<ParamType>, j: Json)
    requires j.Obj?
    ensures ArgumentsMatch(types, j) <==> Get(j, PARAMS).Arr? && ArgumentsFit(types, Get(j, PARAMS).items)
  {
    hide Ascii, Field, Get;
    Names.MessageMembers();
    FieldIsGet(j, PARAMS);
  }

  lemma ErrorWithIs(code: int64, message: Str, id: Json)
    ensures ErrorWith(code, message, id) == ErrorReply(code, message, id)
  {
    hide Ascii;
    Names.MessageMembers();
    KeysDiffer();
  }

  // ----- the answer to any line -----

  /** What comes of an object. It is refused unless it is fresh, signed and has an array of arguments and the
      name of a method. Then the method runs exactly if it is known and the arguments match; if not, a request
      with a number or a string as identifier is told so, and any other is ignored. */
  lemma ObjectOutcome(digest: Digest, key: Str, methods: Methods, now: int, remote: Str, body: Str, j: Json)
    requires ParseText(body) == Ok(j) && j.Obj?
    ensures var outcome := Handled(digest, key, methods, now, remote, body);
      if !StampIsFresh(j, now) || !IsSigned(digest, key, j) || !Arguments(j).Arr? || !MethodName(j).Text? then
        outcome == Replied(InvalidRequestReply())
      else if !IsKnown(methods, j) then outcome == NotFoundOutcome(j)
      else if !ArgumentsMatch(Declared(methods, j), j) then outcome == InvalidParamsOutcome(j)
      else outcome == Invoked(Context(remote, Arguments(j), Identifier(j), !WantsReply(j)))
  {
    hide Ascii, ParseText, StampIsFresh, Timely, IsSigned, RequestIsAuthentic, IsKnown, ArgumentsMatch, Dispatched,
         ErrorWith, ErrorReply, Field, Get, Declared, WantsReply, NotFoundOutcome, InvalidParamsOutcome;
    Names.MessageMembers();
    Names.ErrorTexts();
    forall k ensures Field(j, k) == Get(j, k) { FieldIsGet(j, k); }
    FreshIsTimely(j, now);
    SignedIsAuthentic(digest, key, j);
    ErrorWithIs(-32600, INVALID_REQUEST_TEXT, Null);
    if WellShaped(j) { DispatchOutcome(methods, remote, j); }
  }

  lemma DispatchOutcome(methods: Methods, remote: Str, j: Json)
    requires j.Obj? && WellShaped(j)
    ensures MethodName(j).Text?
    ensures var outcome := Dispatched(methods, remote, j);
      if !IsKnown(methods, j) then outcome == NotFoundOutcome(j)
      else if !ArgumentsMatch(Declared(methods, j), j) then outcome == InvalidParamsOutcome(j)
      else outcome == Invoked(Context(remote, Arguments(j), Identifier(j), !WantsReply(j)))
  {
    hide Ascii, ArgumentsMatch, ArgumentsFit, ErrorWith, ErrorReply, Field, Get;
    Names.MessageMembers();
    Names.ErrorTexts();
    forall k ensures Field(j, k) == Get(j, k) { FieldIsGet(j, k); }
    ErrorWithIs(-32601, METHOD_NOT_FOUND_TEXT, Get(j, ID));
    ErrorWithIs(-32602, INVALID_PARAMS_TEXT, Get(j, ID));
    if IsKnown(methods, j) { MatchIsFit(methods[Get(j, METHOD).s].value, j); }
  }

  /** What comes of a line that is no object. */
  lemma OtherOutcome(digest: Digest, key: Str, methods: Methods, now: int, remote: Str, body: Str)
    ensures var outcome := Handled(digest, key, methods, now, remote, body);
      match ParseText(body)
      case Err(_) => outcome == Replied(ParseErrorReply())
      case Ok(j) => (j.Arr? ==> outcome == Silent) && (j.Primitive() ==> outcome == Replied(InvalidRequestReply()))
  {
    hide Ascii, ParseText, ErrorReply, ErrorWith, Answer;
    Names.ErrorTexts();
    ErrorWithIs(-32700, PARSE_ERROR_TEXT, Null);
    ErrorWithIs(-32600, INVALID_REQUEST_TEXT, Null);
  }

  /** A method runs only for a line that is an object, fresh, signed under the key, for a known method and
      with matching arguments; and for every such line it does. */
  lemma RunsExactlyIf(digest: Digest, key: Str, methods: Methods, now: int, remote: Str, body: Str)
    ensures Handled(digest, key, methods, now, remote, body).Invoked? <==>
      && ParseText(body).Ok? && ParseText(body).value.Obj?
      && var j := ParseText(body).value;
         && StampIsFresh(j, now) && IsSigned(digest, key, j) && IsKnown(methods, j)
         && ArgumentsMatch(Declared(methods, j), j)
  {
    hide Ascii, ParseText, StampIsFresh, IsSigned, Handled, ErrorWith, Field, WantsReply, Declared;
    OtherOutcome(digest, key, methods, now, remote, body);
    if ParseText(body).Ok? && ParseText(body).value.Obj? {
      ObjectOutcome(digest, key, methods, now, remote, body, ParseText(body).value);
    }
  }

  /** Whatever else it holds, an object whose signature is not the digest of its members is refused. */
  lemma ForgedIsRefused(digest: Digest, key: Str, methods: Methods, now: int, remote: Str, body: Str, j: Json)
    requires ParseText(body) == Ok(j) && j.Obj? && Get(j, SIG) != Text(digest(RequestText(j), key))
    ensures Handled(digest, key, methods, now, remote, body) == Replied(RESP_INVALID_REQUEST)
  {
    hide Ascii, ParseText, StampIsFresh, IsSigned, Handled, ErrorWith, ErrorReply, Field, Get, RequestText,
         ArgumentsMatch;
    ObjectOutcome(digest, key, methods, now, remote, body, j);
    SignedIsAuthentic(digest, key, j);
    Names.ErrorTexts();
    ErrorWithIs(-32600, INVALID_REQUEST_TEXT, Null);
  }

  // ----- arguments by their text -----

  /** Whether an argument passes, told from its text alone. */
  ghost predicate TextPasses(t: ParamType, text: Str) {
    match t
    case StringParam => text != [] && text[0] == 0x22
    case BoolParam => text == Ascii("true") || text == Ascii("false")
    case IntParam => IsNumber(text)
    case FloatParam => IsNumber(text)
    case JsonParam => true
  }

  lemma NumbersStart(text: Str)
    requires IsNumber(text)
    ensures text != [] && (text[0] == MINUS || IsDigit(text[0]))
  {
    if IsUnsigned(text) {
      var n :| 0 < n <= |text| && IsInt(text[..n]) && IsFracExp(text[n..]);
      assert text[..n][0] == text[0];
    }
  }

  lemma IntegersAreNumbers(n: int)
    ensures IsNumber(IntegerText(n))
  {
    hide Dec;
    if n < 0 {
      DecIsUnsigned(-n);
      assert IntegerText(n)[1..] == Dec(-n);
    } else {
      DecIsUnsigned(n);
    }
  }

  lemma DecIsUnsigned(n: nat)
    ensures IsUnsigned(Dec(n))
  {
    hide Dec;
    var s := Dec(n);
    assert s[..|s|] == s && s[|s|..] == [];
  }

  /** Of the values without floating-point numbers, those whose text starts with a quote pass as strings,
      the two words as booleans, numbers as integers and as floats, and all as JSON. */
  lemma TypeIsSeenInText(t: ParamType, a: Json)
    requires a.FloatFree()
    ensures HasType(t, a) <==> TextPasses(t, Compact(a))
  {
    hide ItemsText, MembersText, EscapedText, IntegerText, IsNumber, SortedKeys, Ascending;
    Names.Literals();
    Names.Punctuation();
    var text := Compact(a);
    if a.IsInteger() {
      IntegersAreNumbers(IntegerOf(a));
    }
    if IsNumber(text) { NumbersStart(text); }
    if a.IsInteger() { NumbersStart(text); }
  }

  ghost predicate TextsPass(types: seq<ParamType>, args: seq<Json>) {
    |args| == |types| && forall i | 0 <= i < |types| :: TextPasses(types[i], Compact(args[i]))
  }

  lemma FitIsSeenInTexts(types: seq<ParamType>, args: seq<Json>)
    requires Arr(args).FloatFree()
    ensures ArgumentsFit(types, args) <==> TextsPass(types, args)
  {
    hide HasType, TextPasses, Compact;
    forall i | 0 <= i < |types| && i < |args|
      ensures HasType(types[i], args[i]) <==> TextPasses(types[i], Compact(args[i]))
    {
      assert args[i] in args;
      TypeIsSeenInText(types[i], args[i]);
    }
  }

  /** A fresh call runs its method exactly if that is registered and the texts of the arguments pass. */
  lemma CallRunsByText(env: Env, methods: Methods, id: Option<Str>, name: Str, args: seq<Json>,
                       sentAt: int64, now: int, remote: Str)
    requires Arr(args).FloatFree() && Truncated(sentAt) >= now - MAX_AGE
    ensures var line := Line(env, CallMessage(id, name, Some(Arr(args))), sentAt) + [NEWLINE];
      Handled(env.digest, env.key, methods, now, remote, line).Invoked? <==>
      name in methods && methods[name].Some? && TextsPass(methods[name].value, args)
  {
    hide Handled, Line, CallMessage, ErrorReply, ArgumentsFit, TextsPass;
    Calls.SentIsAnswered(env, methods, id, name, args, sentAt, now, remote);
    if Lookup(methods, name).Some? { FitIsSeenInTexts(Lookup(methods, name).value, args); }
  }
}
