/** How a request is answered. */
module Requests {
  import opened Bytes
  import opened Json
  import opened Printer
  import opened Parser
  import opened RoundTrip
  import opened Message

  const PARSE_ERROR_TEXT: Str :=       // "Parse error"
    [0x50, 0x61, 0x72, 0x73, 0x65, 0x20, 0x65, 0x72, 0x72, 0x6F, 0x72]
  const INVALID_REQUEST_TEXT: Str :=   // "Invalid Request"
    [0x49, 0x6E, 0x76, 0x61, 0x6C, 0x69, 0x64, 0x20, 0x52, 0x65, 0x71, 0x75, 0x65, 0x73, 0x74]
  const METHOD_NOT_FOUND_TEXT: Str :=  // "Method not found"
    [0x4D, 0x65, 0x74, 0x68, 0x6F, 0x64, 0x20, 0x6E, 0x6F, 0x74, 0x20, 0x66, 0x6F, 0x75, 0x6E, 0x64]
  const INVALID_PARAMS_TEXT: Str :=    // "Invalid params"
    [0x49, 0x6E, 0x76, 0x61, 0x6C, 0x69, 0x64, 0x20, 0x70, 0x61, 0x72, 0x61, 0x6D, 0x73]

  const PARSE_ERROR := -32700
  const INVALID_REQUEST := -32600
  const METHOD_NOT_FOUND := -32601
  const INVALID_PARAMS := -32602

  /** An error reply is not signed. */
  function ErrorReply(code: int64, message: Str, id: Json): Json {
    Obj(map[
      JSONRPC := Text(VERSION),
      ERROR := Obj(map[CODE := Int(code), MESSAGE := Text(message)]),
      ID := id])
  }

  const RESP_PARSE_ERROR: Json := ErrorReply(PARSE_ERROR, PARSE_ERROR_TEXT, Null)
  const RESP_INVALID_REQUEST: Json := ErrorReply(INVALID_REQUEST, INVALID_REQUEST_TEXT, Null)

  // ----- parameters -----

  datatype ParamType = StringParam | IntParam | BoolParam | FloatParam | JsonParam

  /** checkType */
  predicate HasType(t: ParamType, j: Json) {
    match t
    case BoolParam => j.Bool?
    case IntParam => j.IsInteger()
    case FloatParam => j.IsNumber()
    case StringParam => j.Text?
    case JsonParam => true
  }

  /** One argument for each declared parameter, of its type. */
  predicate ArgumentsFit(types: seq<ParamType>, args: seq<Json>) {
    |args| == |types| && forall i | 0 <= i < |types| :: HasType(types[i], args[i])
  }

  /** Not so for floating-point numbers: 1.0 is printed as an integer. */
  lemma ArgumentsSurvive(types: seq<ParamType>, args: seq<Json>)
    requires Arr(args).FloatFree()
    ensures Norm(Arr(args)).Arr? && ArgumentsFit(types, Norm(Arr(args)).items) == ArgumentsFit(types, args)
  {
    forall i | 0 <= i < |types| && i < |args| ensures HasType(types[i], Norm(args[i])) == HasType(types[i], args[i]) {
    }
  }

  // ----- freshness -----

  const INT32_MAX := 0x7FFF_FFFF

  /** get<int>() of an integer: the low 32 bits, as a signed number. */
  function Truncated(n: int): (r: int)
    ensures -INT32_MAX - 1 <= r <= INT32_MAX
    ensures -INT32_MAX - 1 <= n <= INT32_MAX ==> r == n
  {
    var low := n % 0x1_0000_0000;
    if low <= INT32_MAX then low else low - 0x1_0000_0000
  }

  function IntegerOf(j: Json): int
    requires j.IsInteger()
  {
    if j.Int? then j.i else j.u
  }

  const MAX_AGE := 30

  /** The timestamp is an integer that, cut to 32 bits, is not too old. */
  predicate Timely(j: Json, now: int)
    requires Keyed(j)
  {
    Get(j, TIMESTAMP).IsInteger() && Truncated(IntegerOf(Get(j, TIMESTAMP))) >= now - MAX_AGE
  }

  /** Once the clock is half a minute beyond the 32-bit range, every request is too old. */
  lemma NothingIsTimelyAfter2038(j: Json, now: int)
    requires Keyed(j) && now - MAX_AGE > INT32_MAX
    ensures !Timely(j, now)
  {
  }

  /** An honest stamp, at most half a minute old when it arrives, passes exactly until the 32-bit range ends. */
  lemma HonestStampIsTimely(j: Json, now: int)
    requires Keyed(j) && Get(j, TIMESTAMP).IsInteger() && now >= 0
    requires now - MAX_AGE <= IntegerOf(Get(j, TIMESTAMP)) <= now
    ensures Timely(j, now) <==> IntegerOf(Get(j, TIMESTAMP)) <= INT32_MAX
  {
    hide Get;
    var stamp := IntegerOf(Get(j, TIMESTAMP));
    if -INT32_MAX - 1 <= stamp <= INT32_MAX {
      assert Truncated(stamp) == stamp;
    } else {
      TruncatedIsSmaller(stamp);
    }
  }

  /** Beyond the range, cutting to 32 bits loses at least 2^32. */
  lemma TruncatedIsSmaller(n: int)
    requires n > INT32_MAX
    ensures Truncated(n) <= n - 0x1_0000_0000
  {
    var q := n / 0x1_0000_0000;
    assert n == q * 0x1_0000_0000 + n % 0x1_0000_0000;
  }

  // ----- what HandleRequest decides -----

  predicate WellShaped(j: Json)
    requires Keyed(j)
  {
    Get(j, PARAMS).Arr? && Get(j, METHOD).Text?
  }

  /** A request that wants no reply: its id is neither a number nor a string. */
  predicate IsNotification(j: Json)
    requires Keyed(j)
  {
    !Get(j, ID).IsNumber() && !Get(j, ID).Text?
  }

  /** A running method: what it was given, and what its reply needs. */
  datatype Context = Context(remote: Str, params: Json, id: Json, notification: bool)

  datatype Outcome =
    | Silent
    | Replied(reply: Json)
    | Invoked(context: Context)

  /** Registered methods by name; looking a name up leaves a null pointer behind. */
  type Methods = map<Str, Option<seq<ParamType>>>

  function Lookup(methods: Methods, name: Str): Option<seq<ParamType>> {
    if name in methods then methods[name] else None
  }

  function Refusal(j: Json, code: int64, message: Str): Outcome
    requires Keyed(j)
  {
    if IsNotification(j) then Silent else Replied(ErrorReply(code, message, Get(j, ID)))
  }

  /** An authentic request: what comes of it depends on the method. */
  function Dispatched(methods: Methods, remote: Str, j: Json): Outcome
    requires Keyed(j) && WellShaped(j)
  {
    match Lookup(methods, Get(j, METHOD).s)
    case None => Refusal(j, METHOD_NOT_FOUND, METHOD_NOT_FOUND_TEXT)
    case Some(types) =>
      if ArgumentsFit(types, Get(j, PARAMS).items) then
        Invoked(Context(remote, Get(j, PARAMS), Get(j, ID), IsNotification(j)))
      else Refusal(j, INVALID_PARAMS, INVALID_PARAMS_TEXT)
  }

  function Answer(digest: Digest, key: Str, methods: Methods, now: int, remote: Str, j: Json): Outcome
    requires Keyed(j)
  {
    if Timely(j, now) && RequestIsAuthentic(digest, key, j) && WellShaped(j) then Dispatched(methods, remote, j)
    else Replied(RESP_INVALID_REQUEST)
  }

  /** What a line that was received is answered with. An array is not answered at all. */
  function Handled(digest: Digest, key: Str, methods: Methods, now: int, remote: Str, body: Str): Outcome {
    match ParseText(body)
    case Err(_) => Replied(RESP_PARSE_ERROR)
    case Ok(j) =>
      if j.Arr? then Silent
      else if j.Obj? then Answer(digest, key, methods, now, remote, j)
      else Replied(RESP_INVALID_REQUEST)
  }

  /** What the method replies once it is finished. */
  function Finished(digest: Digest, key: Str, context: Context, result: Json): Option<Json> {
    if context.notification then None else Some(SignedReply(digest, key, context.id, result))
  }

  // ----- requests that were sent -----

  /** A request of SendRequest, whatever it holds, is never refused for its signature: it is an invalid
      request exactly if it is too old or misshapen, which the sender can tell beforehand. */
  lemma SentRequestIsUnderstood(digest: Digest, key: Str, methods: Methods, req: Json,
                                sentAt: int64, now: int, remote: Str)
    requires Keyed(req) && req.FloatFree()
    ensures var line := Compact(SignedRequest(digest, key, req, sentAt)) + [NEWLINE];
      var outcome := Handled(digest, key, methods, now, remote, line);
      && (outcome == Replied(RESP_INVALID_REQUEST) <==>
            Truncated(sentAt) < now - MAX_AGE || !Get(req, PARAMS).Arr? || !Get(req, METHOD).Text?)
      && outcome != Replied(RESP_PARSE_ERROR)
  {
    hide Norm, Compact, ParseText, RequestIsAuthentic, SignedRequest, Dispatched, ErrorReply;
    var sent := SignedRequest(digest, key, req, sentAt);
    RequestSurvives(digest, key, req, sentAt);
    KeysDiffer();
    var j := Norm(sent);
    NormOfTime(sentAt);
    NormKeepsTypes(Get(req, PARAMS));
    NormKeepsTypes(Get(req, METHOD));
    assert Get(j, PARAMS) == Norm(Get(req, PARAMS)) && Get(j, METHOD) == Norm(Get(req, METHOD));
    if WellShaped(j) { ErrorsDiffer(methods, remote, j); }
    ErrorCode(INVALID_REQUEST, INVALID_REQUEST_TEXT, Null);
    ErrorCode(PARSE_ERROR, PARSE_ERROR_TEXT, Null);
  }

  lemma NormOfTime(t: int64)
    ensures Norm(Int(t)).IsInteger() && IntegerOf(Norm(Int(t))) == t
  {
  }

  lemma NormKeepsTypes(j: Json)
    ensures Norm(j).Arr? == j.Arr? && Norm(j).Text? == j.Text? && Norm(j).IsNumber() == j.IsNumber()
    ensures Norm(j).IsInteger() == j.IsInteger() && Norm(j).Null? == j.Null?
  {
  }

  lemma ErrorCode(code: int64, message: Str, id: Json)
    ensures var r := ErrorReply(code, message, id);
      r.Obj? && Get(r, ERROR).Obj? && Get(Get(r, ERROR), CODE) == Int(code) && Get(r, ID) == id
  {
    KeysDiffer();
  }

  lemma ErrorsDiffer(methods: Methods, remote: Str, j: Json)
    requires Keyed(j) && WellShaped(j)
    ensures Dispatched(methods, remote, j) != Replied(RESP_INVALID_REQUEST)
    ensures Dispatched(methods, remote, j) != Replied(RESP_PARSE_ERROR)
  {
    hide ErrorReply;
    ErrorCode(INVALID_REQUEST, INVALID_REQUEST_TEXT, Null);
    ErrorCode(PARSE_ERROR, PARSE_ERROR_TEXT, Null);
    ErrorCode(METHOD_NOT_FOUND, METHOD_NOT_FOUND_TEXT, Get(j, ID));
    ErrorCode(INVALID_PARAMS, INVALID_PARAMS_TEXT, Get(j, ID));
  }
}
