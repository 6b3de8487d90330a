/** Calls and notifications from end to end, between two processors with the same key. */
module Calls {
  import opened Bytes
  import opened Json
  import opened Printer
  import opened Parser
  import opened RoundTrip
  import opened Message
  import opened Requests
  import opened Conversation

  /** The answer to a call or a notification that is fresh and has an array of arguments, in terms of what
      the caller gave: the method runs exactly if it is registered and every argument has the declared type;
      a call is otherwise answered with an error under its own identifier, a notification not at all. */
  lemma SentIsAnswered(env: Env, methods: Methods, id: Option<Str>, name: Str, args: seq<Json>,
                       sentAt: int64, now: int, remote: Str)
    requires Arr(args).FloatFree() && Truncated(sentAt) >= now - MAX_AGE
    ensures var line := Line(env, CallMessage(id, name, Some(Arr(args))), sentAt) + [NEWLINE];
      var types := Lookup(methods, name);
      Handled(env.digest, env.key, methods, now, remote, line) ==
        if types.Some? && ArgumentsFit(types.value, args) then
          Invoked(Context(remote, Norm(Arr(args)), IdOf(id), id.None?))
        else if id.None? then Silent
        else if types.None? then Replied(ErrorReply(METHOD_NOT_FOUND, METHOD_NOT_FOUND_TEXT, Text(id.value)))
        else Replied(ErrorReply(INVALID_PARAMS, INVALID_PARAMS_TEXT, Text(id.value)))
  {
    hide Norm, ParseText, Compact, SignedRequest, CallMessage, RequestIsAuthentic, ArgumentsFit, Lookup, ErrorReply;
    var req := CallMessage(id, name, Some(Arr(args)));
    CallMessageMembers(id, name, Some(Arr(args)));
    RequestSurvives(env.digest, env.key, req, sentAt);
    KeysDiffer();
    var j := Norm(SignedRequest(env.digest, env.key, req, sentAt));
    NormOfTime(sentAt);
    NormOfText(Text(name));
    NormOfText(IdOf(id));
    assert Get(j, PARAMS) == Norm(Arr(args)) && Get(j, METHOD) == Text(name) && Get(j, ID) == IdOf(id);
    forall types: seq<ParamType> {
      ArgumentsSurvive(types, args);
    }
    NormKeepsTypes(Arr(args));
  }

  /** A notification is not answered, neither at once nor when its method is finished. */
  lemma NotificationHasNoReply(env: Env, methods: Methods, name: Str, args: seq<Json>,
                               sentAt: int64, now: int, remote: Str, result: Json)
    requires Arr(args).FloatFree() && Truncated(sentAt) >= now - MAX_AGE
    ensures var line := Line(env, CallMessage(None, name, Some(Arr(args))), sentAt) + [NEWLINE];
      var outcome := Handled(env.digest, env.key, methods, now, remote, line);
      !outcome.Replied? && (outcome.Invoked? ==> Finished(env.digest, env.key, outcome.context, result).None?)
  {
    hide Handled, Line, CallMessage;
    SentIsAnswered(env, methods, None, name, args, sentAt, now, remote);
  }

  /** A call is answered once, under its identifier: at once with an error, or when its method is finished. */
  lemma CallHasOneReply(env: Env, methods: Methods, id: Str, name: Str, args: seq<Json>,
                        sentAt: int64, now: int, remote: Str, result: Json)
    requires Arr(args).FloatFree() && Truncated(sentAt) >= now - MAX_AGE
    ensures var line := Line(env, CallMessage(Some(id), name, Some(Arr(args))), sentAt) + [NEWLINE];
      var outcome := Handled(env.digest, env.key, methods, now, remote, line);
      && (outcome.Replied? ==>
            Keyed(outcome.reply) && Get(outcome.reply, ID) == Text(id) && !Get(outcome.reply, ERROR).Null?)
      && (!outcome.Replied? ==>
            outcome.Invoked? &&
            var reply := Finished(env.digest, env.key, outcome.context, result);
            reply.Some? && Keyed(reply.value) && Get(reply.value, ID) == Text(id) && Get(reply.value, RESULT) == result)
  {
    hide Handled, Line, CallMessage, ErrorReply, SignedReply;
    SentIsAnswered(env, methods, Some(id), name, args, sentAt, now, remote);
    ErrorCode(METHOD_NOT_FOUND, METHOD_NOT_FOUND_TEXT, Text(id));
    ErrorCode(INVALID_PARAMS, INVALID_PARAMS_TEXT, Text(id));
    SignedReplyMembers(env.digest, env.key, Text(id), result);
  }

  lemma SignedReplyMembers(digest: Digest, key: Str, id: Json, result: Json)
    ensures var r := SignedReply(digest, key, id, result); Keyed(r) && Get(r, ID) == id && Get(r, RESULT) == result
  {
    KeysDiffer();
  }

  /** A call that runs: the method is given the arguments, and the reply with its result is accepted. */
  lemma CallComesBack(env: Env, s: State, methods: Methods, id: Str, name: Str, args: seq<Json>,
                      sentAt: int64, now: int, remote: Str, result: Json)
    requires Arr(args).FloatFree() && Truncated(sentAt) >= now - MAX_AGE && result.FloatFree()
    requires Lookup(methods, name).Some? && ArgumentsFit(Lookup(methods, name).value, args)
    ensures var line := Line(env, CallMessage(Some(id), name, Some(Arr(args))), sentAt) + [NEWLINE];
      var reply := SignedReply(env.digest, env.key, Text(id), result);
      var outcome := Handled(env.digest, env.key, methods, now, remote, line);
      && outcome == Invoked(Context(remote, Norm(Arr(args)), Text(id), false))
      && Finished(env.digest, env.key, outcome.context, result) == Some(reply)
      && Keyed(Norm(reply)) && Get(Norm(reply), RESULT) == Norm(result)
      && Delivered(env, s, Compact(reply) + [NEWLINE]) ==
           if id in s.outstanding then Accepted(env, s, id, Norm(reply)) else s
  {
    hide Norm, ParseText, Compact, SignedReply, ReplyIsAuthentic, Handled, Line, Accepted;
    SentIsAnswered(env, methods, Some(id), name, args, sentAt, now, remote);
    ReplySurvives(env.digest, env.key, Text(id), result);
    NormOfText(Text(id));
  }

  /** What an accepted reply does to the table and the callbacks. */
  lemma AcceptedOnce(env: Env, s: State, id: Str, reply: Json)
    requires Fresh(env.uuid) && Good(env, s) && Keyed(reply) && id in s.outstanding
    ensures var t := Accepted(env, s, id, reply);
      && (!t.crashed ==> id !in t.outstanding)
      && (forall x | x in s.outstanding && x != id :: x in t.outstanding)
      && t.fired == s.fired + (if s.outstanding[id] then [Firing(id, Get(reply, RESULT))] else [])
  {
    hide TableIsExact, ReceiptsAreSound, AllDone, Firings, Fresh, Get;
    var fired := s.fired + [Firing(id, Get(reply, RESULT))];
    var busy := s.(fired := fired);
    TableIgnoresFirings(env, s, fired);
    AllDoneKeeps(env, busy, env.plugin(fired));
    var t := if s.outstanding[id] then AllDone(env, busy, env.plugin(fired)) else s;
    forall x | x in s.outstanding ensures x in t.outstanding {
      StillOutstanding(env, s, t, x);
    }
    assert s.fired + [] == s.fired;
  }

  /** A call from beginning to end, between two processors with the same key: the line that is sent makes
      the other side run the method with the arguments; the line that comes back when it is finished makes
      the callback run with the result, once, and takes the call, and no other, out of the table. Both sides
      see values equal to what was given. (A broadcast in the callback may end the run before that.) */
  lemma WholeCall(env: Env, s: State, methods: Methods, target: Str, name: Str, args: seq<Json>, callback: bool,
                  sentAt: int64, now: int, remote: Str, result: Json)
    requires Fresh(env.uuid) && Good(env, s) && !s.crashed && Registered(s.servers, target)
    requires Arr(args).FloatFree() && Truncated(sentAt) >= now - MAX_AGE && result.FloatFree()
    requires Lookup(methods, name).Some? && ArgumentsFit(Lookup(methods, name).value, args)
    ensures var id := env.uuid(s.drawn);
      var waiting := Done(env, s, Call(Request(target, name, Some(Arr(args)), callback), sentAt));
      var line := Line(env, CallMessage(Some(id), name, Some(Arr(args))), sentAt);
      var outcome := Handled(env.digest, env.key, methods, now, remote, line + [NEWLINE]);
      && waiting.servers[target] == Some(s.servers[target].value + [line])
      && outcome.Invoked? && Eq(outcome.context.params, Arr(args))
      && Finished(env.digest, env.key, outcome.context, result).Some?
      && var reply := Compact(Finished(env.digest, env.key, outcome.context, result).value) + [NEWLINE];
         var answered := Delivered(env, waiting, reply);
         && id in waiting.outstanding
         && (forall x | x in s.outstanding :: x in answered.outstanding)
         && answered.fired == s.fired + (if callback then [Firing(id, Norm(result))] else [])
         && Eq(Norm(result), result)
         && (!answered.crashed ==> id !in answered.outstanding && Delivered(env, answered, reply) == answered)
  {
    hide TableIsExact, ReceiptsAreSound, Norm, Handled, Finished, Delivered, Accepted, Line, CallMessage, SignedReply,
         Compact, Firings, Fresh, Get;
    var id := env.uuid(s.drawn);
    var c := Call(Request(target, name, Some(Arr(args)), callback), sentAt);
    var waiting := Done(env, s, c);
    var reply := SignedReply(env.digest, env.key, Text(id), result);
    DoneIsGood(env, s, c);
    assert id !in s.outstanding by { NotOutstanding(env, s); }
    CallComesBack(env, waiting, methods, id, name, args, sentAt, now, remote, result);
    AcceptedOnce(env, waiting, id, Norm(reply));
    CallComesBack(env, Accepted(env, waiting, id, Norm(reply)), methods, id, name, args, sentAt, now, remote, result);
    NormIsEqual(Arr(args));
    NormIsEqual(result);
  }

  lemma NotOutstanding(env: Env, s: State)
    requires Fresh(env.uuid) && TableIsExact(env, s)
    ensures env.uuid(s.drawn) !in s.outstanding
  {
  }

  /** An error reply is dropped without a trace: the call stays outstanding for good. */
  lemma ErrorIsDropped(env: Env, s: State, code: int64, message: Str, id: Json)
    requires id.FloatFree()
    ensures Delivered(env, s, Compact(ErrorReply(code, message, id)) + [NEWLINE]) == s
  {
    hide Norm, ParseText, Compact, ErrorReply, ReplyIsAuthentic;
    var reply := ErrorReply(code, message, id);
    ErrorCode(code, message, id);
    ErrorReplyFloatFree(code, message, id);
    Received(reply);
    GetNorm(reply, ERROR);
    NormKeepsTypes(Get(reply, ERROR));
    NormOfObject(reply);
  }

  lemma ErrorReplyFloatFree(code: int64, message: Str, id: Json)
    requires id.FloatFree()
    ensures ErrorReply(code, message, id).FloatFree()
  {
    var e := Obj(map[CODE := Int(code), MESSAGE := Text(message)]);
    assert e.FloatFree();
  }
}
