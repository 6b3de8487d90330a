/** The objects of the RPC layer: calls, and the processor that sends and receives for them. */
module Rpc {
  import opened Bytes
  import opened Json
  import opened Printer
  import opened Parser
  import opened Message
  import opened Requests
  import opened Conversation

  datatype SendResult = UnknownServer | WasSent

  /** ValidateArguments: as many arguments as declared parameters, each of its type. */
  method ValidateArguments(types: seq<ParamType>, j: Json) returns (r: Result<bool>)
    ensures j.Arr? ==> r == Ok(ArgumentsFit(types, j.items))
    ensures !j.Arr? ==>
              r == (if Size(j) != |types| then Ok(false) else if types == [] then Ok(true) else Err(DomainError))
  {
    if Size(j) != |types| {
      return Ok(false);
    }
    for c := 0 to |types|
      invariant j.Arr? ==> forall i | 0 <= i < c :: HasType(types[i], j.items[i])
      invariant !j.Arr? ==> c == 0
    {
      if !j.Arr? {
        return Err(DomainError);
      }
      if !HasType(types[c], j.items[c]) {
        return Ok(false);
      }
    }
    return Ok(true);
  }

  /** size() */
  function Size(j: Json): nat {
    match j
    case Null => 0
    case Arr(items) => |items|
    case Obj(members) => |members|
    case _ => 1
  }

  // ----- what the table says about callbacks -----

  ghost function Callbacks(calls: map<Str, RPCCall>): map<Str, bool>
    reads calls.Values
  {
    map x | x in calls :: calls[x].callback
  }

  lemma CallbacksPlus(calls: map<Str, RPCCall>, id: Str, call: RPCCall)
    ensures Callbacks(calls[id := call]) == Callbacks(calls)[id := call.callback]
  {
  }

  lemma CallbacksMinus(calls: map<Str, RPCCall>, id: Str)
    ensures Callbacks(calls - {id}) == Callbacks(calls) - {id}
  {
  }

  lemma CallbackOf(calls: map<Str, RPCCall>, id: Str)
    ensures id in Callbacks(calls) <==> id in calls
    ensures id in calls ==> Callbacks(calls)[id] == calls[id].callback
  {
  }

  twostate lemma CallbacksSame(calls: map<Str, RPCCall>)
    requires forall x | x in calls :: calls[x].callback == old(calls[x].callback)
    ensures Callbacks(calls) == old(Callbacks(calls))
  {
  }

  /** A call of a plugin. Its handle is freed by the extension, which deletes the call. */
  class RPCCall {
    var id: Str
    var name: Str
    var args: Option<Json>
    var callback: bool
    var freed: bool

    constructor ()
      ensures !freed && !callback && args == Some(Null)
    {
      id, name, args, callback, freed := [], [], Some(Null), false, false;
    }

    method SetCallback(callback: bool)
      modifies this`callback
      ensures this.callback == callback
    {
      this.callback := callback;
    }

    method SetMethod(name: Str)
      modifies this`name
      ensures this.name == name
    {
      this.name := name;
    }

    method SetArgs(args: Option<Json>)
      modifies this`args
      ensures this.args == args
    {
      this.args := args;
    }

    /** The request, built up member by member: these members and no others. */
    method Build(id: Option<Str>) returns (req: Json)
      ensures req.Obj? && Get(req, JSONRPC) == Text(VERSION) && Get(req, METHOD) == Text(name)
      ensures Get(req, ID) == IdOf(id) && Get(req, PARAMS) == OrNull(args)
      ensures req.members.Keys ==
              {JSONRPC, METHOD} + (if id.Some? then {ID} else {}) + (if args.Some? then {PARAMS} else {})
    {
      KeysDiffer();
      GetNothing(ID);
      GetNothing(PARAMS);
      req := Set(Null, JSONRPC, Text(VERSION));
      if id.Some? {
        req := Set(req, ID, Text(id.value));
      }
      req := Set(req, METHOD, Text(name));
      if args.Some? {
        req := Set(req, PARAMS, args.value);
      }
    }

    method MakeRequest(id: Option<Str>) returns (req: Json)
      ensures req == CallMessage(id, name, args)
    {
      req := Build(id);
      CallMessageIs(req, id, name, args);
    }

    /** A call that is sent while it is outstanding is in the table twice, under both identifiers. */
    method Send(rpc: CommandProcessor, target: Str, now: int64) returns (res: SendResult)
      requires rpc.Ready() && !freed
      modifies this`id, rpc
      ensures rpc.Ready() && rpc.SameSetup(old(rpc.apiKey), old(rpc.methods))
      ensures old(rpc.Valid()) && this !in old(rpc.outstandingCalls.Values) ==> rpc.Valid()
      ensures res == if Registered(old(rpc.servers), target) then WasSent else UnknownServer
      ensures res == WasSent ==>
                id !in old(rpc.outstandingCalls) && rpc.outstandingCalls == old(rpc.outstandingCalls)[id := this]
      ensures res == UnknownServer ==> rpc.outstandingCalls == old(rpc.outstandingCalls)
      ensures var c := Call(Request(target, name, args, callback), now);
        rpc.Abstract() == Done(rpc.Surroundings(), old(rpc.Abstract()), c)
    {
      hide Callbacks, Line, Transmitted, Registered, CallMessage, Fresh, Drawn;
      res := Issue(rpc, target, now);
      CallbacksSame(old(rpc.outstandingCalls));
      CallbacksPlus(old(rpc.outstandingCalls), id, this);
      rpc.commands := rpc.commands + [Call(Request(target, name, args, callback), now)];
    }

    /** Draws an identifier, builds the request and hands it on. */
    method Issue(rpc: CommandProcessor, target: Str, now: int64) returns (res: SendResult)
      requires rpc.Ready()
      modifies this`id, rpc`drawn, rpc`servers, rpc`outstandingCalls, rpc`issued
      ensures rpc.Ready() && rpc.drawn == old(rpc.drawn) + 1 && id == rpc.uuid(old(rpc.drawn))
      ensures id !in old(rpc.outstandingCalls)
      ensures rpc.servers ==
              Transmitted(old(rpc.servers), target, Line(rpc.Surroundings(), CallMessage(Some(id), name, args), now))
      ensures var sent := Registered(old(rpc.servers), target);
        && res == (if sent then WasSent else UnknownServer)
        && rpc.outstandingCalls == (if sent then old(rpc.outstandingCalls)[id := this] else old(rpc.outstandingCalls))
        && rpc.issued == (if sent then old(rpc.issued)[id := callback] else old(rpc.issued))
    {
      hide Line, Transmitted, Registered, CallMessage, Fresh, Drawn;
      id := rpc.DrawId();
      var req := MakeRequest(Some(id));
      res := rpc.SendRequest(target, req, this, now);
    }

    /** A notification; the call is not needed any more. */
    method Notify(rpc: CommandProcessor, target: Str, now: int64) returns (res: SendResult)
      requires rpc.Ready() && !freed
      modifies this`freed, rpc
      ensures rpc.Ready() && rpc.SameSetup(old(rpc.apiKey), old(rpc.methods)) && freed
      ensures old(rpc.Valid()) && this !in old(rpc.outstandingCalls.Values) ==> rpc.Valid()
      ensures res == if Registered(old(rpc.servers), target) then WasSent else UnknownServer
      ensures rpc.outstandingCalls == old(rpc.outstandingCalls)
      ensures var c := Notice(Request(target, name, args, callback), now);
        rpc.Abstract() == Done(rpc.Surroundings(), old(rpc.Abstract()), c)
    {
      hide Callbacks, Line, Transmitted, Registered, CallMessage, Fresh, Drawn, Get;
      var req := MakeRequest(None);
      rpc.commands := rpc.commands + [Notice(Request(target, name, args, callback), now)];
      res := rpc.SendRequest(target, req, null, now);
      FreeHandle();
      CallbacksSame(rpc.outstandingCalls);
    }

    /** The same notification to every server, unless a null pointer among them ends the run. */
    method Broadcast(rpc: CommandProcessor, now: int64)
      requires rpc.Ready() && !freed
      modifies this`freed, rpc
      ensures rpc.SameSetup(old(rpc.apiKey), old(rpc.methods)) && rpc.outstandingCalls == old(rpc.outstandingCalls)
      ensures var t := Done(rpc.Surroundings(), old(rpc.Abstract()), Command.Broadcast(name, args, now));
        rpc.crashed == t.crashed && (!rpc.crashed ==> freed && rpc.Ready() && rpc.Abstract() == t)
      ensures old(rpc.Valid()) && this !in old(rpc.outstandingCalls.Values) && !rpc.crashed ==> rpc.Valid()
    {
      hide Callbacks, Line, Everywhere, HasNull, CallMessage, Fresh, Drawn, Get;
      var req := MakeRequest(None);
      rpc.commands := rpc.commands + [Command.Broadcast(name, args, now)];
      rpc.SendBroadcast(req, now);
      if rpc.crashed {
        return;
      }
      FreeHandle();
      CallbacksSame(rpc.outstandingCalls);
    }

    /** The callback is run with the result, and may send more calls; then the call is freed. Reading the
        result without inserting it needs the member to be there. */
    method HandleReply(rpc: CommandProcessor, res: Json)
      requires rpc.Valid() && !freed && res.Obj? && RESULT in res.members
      modifies this`freed, rpc
      ensures rpc.SameSetup(old(rpc.apiKey), old(rpc.methods))
      ensures var s := old(rpc.Abstract());
        var fired := s.fired + [Firing(id, Get(res, RESULT))];
        var t := if callback then AllDone(rpc.Surroundings(), s.(fired := fired), rpc.plugin(fired)) else s;
        rpc.crashed == t.crashed &&
        (!rpc.crashed ==> freed && rpc.ValidBut(this) && rpc.OnlyAdded() && rpc.Abstract() == t)
    {
      hide Callbacks, AllDone, Get, Fresh, Drawn;
      GetMember(res, RESULT);
      if callback {
        rpc.Fire(Firing(id, res.members[RESULT]));
        if rpc.crashed {
          return;
        }
      }
      label Called:
      FreeHandle();
      CallbacksSame@Called(rpc.outstandingCalls);
    }

    lemma GetMember(j: Json, k: Str)
      requires j.Obj? && k in j.members
      ensures Get(j, k) == j.members[k]
    {
    }

    method FreeHandle()
      requires !freed
      modifies this`freed
      ensures freed
    {
      freed := true;
    }
  }

  class CommandProcessor {
    // the surroundings
    const digest: Digest
    const uuid: nat -> Str
    const plugin: seq<Firing> -> seq<Command>
    var drawn: nat
    var fired: seq<Firing>

    var apiKey: Str
    var methods: Methods
    var servers: Servers
    var outstandingCalls: map<Str, RPCCall>

    // the history
    ghost var issued: map<Str, bool>
    ghost var receipts: seq<Receipt>
    ghost var commands: seq<Command>

    /** A null pointer was dereferenced: nothing is known of what happens then. */
    var crashed: bool

    /** The process runs, and no identifier in the table is drawn again. */
    ghost predicate Ready()
      reads this
    {
      !crashed && Fresh(uuid) && forall x | x in outstandingCalls :: Drawn(uuid, drawn, x)
    }

    ghost predicate ValidBut(call: RPCCall?)
      reads this, outstandingCalls.Values
    {
      Ready() &&
      forall x | x in outstandingCalls ::
        outstandingCalls[x].id == x && (outstandingCalls[x] == call || !outstandingCalls[x].freed)
    }

    /** Every outstanding call is alive and knows its identifier: none is in the table twice. */
    ghost predicate Valid()
      reads this, outstandingCalls.Values
    {
      ValidBut(null)
    }

    ghost predicate SameSetup(apiKey: Str, methods: Methods)
      reads this
    {
      this.apiKey == apiKey && this.methods == methods
    }

    ghost function Abstract(): State
      reads this, outstandingCalls.Values
    {
      State(servers, Callbacks(outstandingCalls), drawn, issued, receipts, fired, commands, crashed)
    }

    ghost function Surroundings(): Env
      reads this
    {
      Env(digest, apiKey, uuid, plugin)
    }

    constructor (env: Env, methods: Methods, servers: Servers)
      requires Fresh(env.uuid)
      ensures Valid() && Abstract() == Initial(servers)
      ensures Surroundings() == env && this.methods == methods
    {
      digest, uuid, plugin := env.digest, env.uuid, env.plugin;
      drawn, fired := 0, [];
      apiKey, this.methods, this.servers, outstandingCalls := env.key, methods, servers, map[];
      issued, receipts, commands, crashed := map[], [], [], false;
    }

    /** uuidGenerator */
    method DrawId() returns (id: Str)
      requires Ready()
      modifies this`drawn
      ensures drawn == old(drawn) + 1 && id == uuid(old(drawn))
      ensures Ready() && Drawn(uuid, drawn, id) && id !in outstandingCalls
    {
      ghost var n := drawn;
      id := uuid(drawn);
      drawn := drawn + 1;
      assert n < drawn && uuid(n) == id;
      forall x | x in outstandingCalls ensures Drawn(uuid, drawn, x) && x != id {
        assert Drawn(uuid, n, x);
        var k: nat :| k < n && uuid(k) == x;
        assert k < drawn;
      }
    }

    /** The message goes out stamped, completed and signed; the call, if there is one, enters the table first. */
    method SendRequest(target: Str, req: Json, call: RPCCall?, now: int64) returns (res: SendResult)
      requires Keyed(req)
      modifies this`servers, this`outstandingCalls, this`issued
      ensures res == if Registered(old(servers), target) then WasSent else UnknownServer
      ensures servers == Transmitted(old(servers), target, Line(Surroundings(), req, now))
      ensures res == WasSent && call != null ==>
                && outstandingCalls == old(outstandingCalls)[call.id := call]
                && issued == old(issued)[call.id := call.callback]
      ensures res == UnknownServer || call == null ==>
                outstandingCalls == old(outstandingCalls) && issued == old(issued)
    {
      hide Fresh, Drawn, Set, Get, WithNulls, RequestText, Dumped, Members;
      if !Registered(servers, target) {
        servers := servers[target := None];
        return UnknownServer;
      }
      if call != null {
        outstandingCalls := outstandingCalls[call.id := call];
        issued := issued[call.id := call.callback];
      }
      var r := Set(req, TIMESTAMP, Int(now));
      var sig;
      sig, r := GetReqSig(r);
      r := Set(r, SIG, Text(sig));
      var line := Dump(r, -1);
      servers := servers[target := Some(servers[target].value + [line])];
      return WasSent;
    }

    /** Every server is sent the same message, in any order. A null pointer that a lookup has left behind is
        dereferenced, and then nothing is claimed about the servers. */
    method SendBroadcast(req: Json, now: int64)
      requires Keyed(req)
      modifies this`servers, this`crashed
      ensures crashed == (old(crashed) || HasNull(old(servers)))
      ensures !HasNull(old(servers)) ==> servers == Everywhere(old(servers), Line(Surroundings(), req, now))
    {
      hide Set, Get, WithNulls, RequestText, Dumped, Members;
      var r := Set(req, TIMESTAMP, Int(now));
      var sig;
      sig, r := GetReqSig(r);
      r := Set(r, SIG, Text(sig));
      var body := Dump(r, -1);
      HandToAll(body);
    }

    /** The loop over the servers. */
    method HandToAll(body: Str)
      modifies this`servers, this`crashed
      ensures crashed == (old(crashed) || HasNull(old(servers)))
      ensures !HasNull(old(servers)) ==> servers == Everywhere(old(servers), body)
    {
      var rest := servers.Keys;
      while rest != {}
        invariant rest <= servers.Keys == old(servers).Keys
        invariant crashed == old(crashed)
        invariant forall t | t in rest :: servers[t] == old(servers)[t]
        invariant forall t | t in servers && t !in rest ::
                    old(servers)[t].Some? && servers[t] == Some(old(servers)[t].value + [body])
      {
        var t :| t in rest;
        if servers[t].None? {
          crashed := true;
          return;
        }
        servers := servers[t := Some(servers[t].value + [body])];
        rest := rest - {t};
      }
    }

    /** j[k].dump() */
    method ReadText(j: Json, k: Str) returns (text: Str, r: Json)
      requires Keyed(j)
      ensures text == Compact(Get(j, k)) && r == Touch(j, k)
    {
      r := Touch(j, k);
      text := Dump(Get(r, k), -1);
    }

    /** Reading the members that are signed inserts them where they are missing. */
    method GetReqSig(req: Json) returns (sig: Str, r: Json)
      requires Keyed(req)
      ensures sig == digest(RequestText(req), apiKey)
      ensures r == WithNulls(req, SIGNED_IN_REQUEST)
    {
      hide Touch, Compact, WithNulls, Get;
      TouchFirst(req, JSONRPC);
      TouchAdds(req, {JSONRPC}, METHOD);
      TouchAdds(req, {JSONRPC} + {METHOD}, PARAMS);
      TouchAdds(req, {JSONRPC} + {METHOD} + {PARAMS}, TIMESTAMP);
      TouchAdds(req, {JSONRPC} + {METHOD} + {PARAMS} + {TIMESTAMP}, ID);
      assert {JSONRPC} + {METHOD} + {PARAMS} + {TIMESTAMP} + {ID} == SIGNED_IN_REQUEST;
      var ss, text;
      ss, r := ReadText(req, JSONRPC);
      text, r := ReadText(r, METHOD);
      ss := ss + text;
      text, r := ReadText(r, PARAMS);
      ss := ss + text;
      text, r := ReadText(r, TIMESTAMP);
      ss := ss + text;
      text, r := ReadText(r, ID);
      ss := ss + text;
      sig := digest(ss, apiKey);
    }

    method GetReplySig(reply: Json) returns (sig: Str, r: Json)
      requires Keyed(reply)
      ensures sig == digest(ReplyText(reply), apiKey)
      ensures r == WithNulls(reply, SIGNED_IN_REPLY)
    {
      hide Touch, Compact, WithNulls, Get;
      TouchFirst(reply, JSONRPC);
      TouchAdds(reply, {JSONRPC}, ID);
      TouchAdds(reply, {JSONRPC} + {ID}, RESULT);
      assert {JSONRPC} + {ID} + {RESULT} == SIGNED_IN_REPLY;
      var ss, text;
      ss, r := ReadText(reply, JSONRPC);
      text, r := ReadText(r, ID);
      ss := ss + text;
      text, r := ReadText(r, RESULT);
      ss := ss + text;
      sig := digest(ss, apiKey);
    }

    // ----- callbacks -----

    /** The table after more calls were sent. */
    twostate predicate OnlyAdded()
      reads this
    {
      && (forall x | x in old(outstandingCalls) ::
            x in outstandingCalls && outstandingCalls[x] == old(outstandingCalls[x]))
      && (forall x | x in outstandingCalls :: x in old(outstandingCalls) || fresh(outstandingCalls[x]))
    }

    /** Calls that were there before or that a callback has made. */
    twostate predicate OldOrNew()
      reads this
    {
      forall x | x in outstandingCalls ::
        outstandingCalls[x] in old(outstandingCalls.Values) || fresh(outstandingCalls[x])
    }

    /** What a plugin asks for while its callback runs. */
    method Execute(c: Command)
      requires Valid()
      modifies this
      ensures SameSetup(old(apiKey), old(methods))
      ensures var t := Done(Surroundings(), old(Abstract()), c);
        crashed == t.crashed && (!crashed ==> Valid() && OnlyAdded() && Abstract() == t)
    {
      hide Callbacks, Done, Fresh, Drawn;
      match c {
        case Call(r, now) =>
          var call := Prepare(r.name, r.args, r.callback);
          var _ := call.Send(this, r.target, now);
        case Notice(r, now) =>
          var call := Prepare(r.name, r.args, r.callback);
          var _ := call.Notify(this, r.target, now);
        case Broadcast(name, args, now) =>
          var call := Prepare(name, args, false);
          call.Broadcast(this, now);
      }
    }

    /** A call as a plugin makes it. */
    method Prepare(name: Str, args: Option<Json>, callback: bool) returns (call: RPCCall)
      ensures fresh(call) && !call.freed && call.name == name && call.args == args && call.callback == callback
    {
      call := new RPCCall();
      call.SetMethod(name);
      call.SetArgs(args);
      call.SetCallback(callback);
    }

    /** A callback is run. */
    method Fire(firing: Firing)
      requires Valid()
      modifies this
      ensures SameSetup(old(apiKey), old(methods))
      ensures var f := old(fired) + [firing];
        var t := AllDone(Surroundings(), old(Abstract()).(fired := f), plugin(f));
        crashed == t.crashed && (!crashed ==> Valid() && OnlyAdded() && Abstract() == t)
    {
      hide Callbacks, Fresh, Drawn, Done, AllDone;
      fired := fired + [firing];
      var cs := plugin(fired);
      ghost var start, env := Abstract(), Surroundings();
      NothingDone(env, start);
      for n := 0 to |cs|
        invariant Valid() && SameSetup(old(apiKey), old(methods)) && OnlyAdded()
        invariant cs == plugin(old(fired) + [firing]) && Abstract() == AllDone(env, start, cs[..n])
      {
        OneDone(env, start, cs, n);
        Execute(cs[n]);
        if crashed {
          CrashStays(env, start, cs, n + 1);
          return;
        }
      }
      assert cs[..|cs|] == cs;
    }

    // ----- replies -----

    /** The checks of a reply, which insert the members that they read. */
    method CheckReply(reply: Json) returns (ok: bool, j: Json)
      requires Keyed(reply)
      ensures ok == Acceptable(Surroundings(), reply)
      ensures ok ==>
                j.Obj? && RESULT in j.members && Get(j, ID) == Get(reply, ID) && Get(j, RESULT) == Get(reply, RESULT)
    {
      hide Get, Touch, WithNulls, ReplyText;
      j := Touch(reply, ERROR);
      if !Get(j, ERROR).Null? {
        return false, j;
      }
      j := Touch(j, SIG);
      if !Get(j, SIG).Text? {
        return false, j;
      }
      SameReplyText(reply, j);
      var sig;
      sig, j := GetReplySig(j);
      if Get(j, SIG).s != sig {
        return false, j;
      }
      j := Touch(j, ID);
      return Get(j, ID).Text?, j;
    }

    lemma SameReplyText(a: Json, b: Json)
      requires Keyed(a) && Keyed(b) && forall k :: Get(a, k) == Get(b, k)
      ensures ReplyText(a) == ReplyText(b)
    {
    }

    /** A value that cannot be indexed with a key throws; a reply that is not accepted leaves no trace. */
    method ProcessCommandReply(reply: Json) returns (r: Result<Json>)
      requires Valid()
      modifies this, outstandingCalls.Values
      ensures SameSetup(old(apiKey), old(methods))
      ensures r.Ok? <==> Keyed(reply)
      ensures r.Err? ==> r.error == DomainError && Valid() && OldOrNew() && Abstract() == old(Abstract())
      ensures r.Ok? ==>
                var t := Processed(Surroundings(), old(Abstract()), reply);
                crashed == t.crashed && (!crashed ==> Valid() && OldOrNew() && Abstract() == t)
    {
      hide Callbacks, Acceptable, Accepted, Get, Fresh, Drawn;
      if !Keyed(reply) {
        return Err(DomainError);
      }
      AcceptableNamesCall(Surroundings(), reply);
      var ok, j := CheckReply(reply);
      if ok {
        var id := Get(j, ID).s;
        CallbackOf(outstandingCalls, id);
        if id in outstandingCalls {
          Settle(id, j, reply);
        }
      }
      return Ok(j);
    }

    /** The call handles its reply and leaves the table; `reply` is what was received. */
    method Settle(id: Str, j: Json, ghost reply: Json)
      requires Valid() && id in outstandingCalls && j.Obj? && RESULT in j.members
      requires Keyed(reply) && Get(j, RESULT) == Get(reply, RESULT)
      modifies this, outstandingCalls[id]
      ensures SameSetup(old(apiKey), old(methods))
      ensures id in old(Abstract()).outstanding
      ensures var t := Accepted(Surroundings(), old(Abstract()), id, reply);
        crashed == t.crashed && (!crashed ==> Valid() && OldOrNew() && Abstract() == t)
    {
      hide Callbacks, AllDone, Get, Fresh, Drawn;
      CallbackOf(outstandingCalls, id);
      var call := outstandingCalls[id];
      call.HandleReply(this, j);
      if crashed {
        return;
      }
      CallbacksMinus(outstandingCalls, id);
      outstandingCalls := outstandingCalls - {id};
      receipts := receipts + [Receipt(id, reply)];
    }

    /** A line of replies: one reply, or a batch. The exception of an element that cannot be indexed is not
        caught, and the elements behind it are lost. */
    method HandleReply(body: Str) returns (r: Result<Json>)
      requires Valid()
      modifies this, outstandingCalls.Values
      ensures SameSetup(old(apiKey), old(methods))
      ensures var t := Delivered(Surroundings(), old(Abstract()), body);
        crashed == t.crashed && (!crashed ==> Valid() && Abstract() == t)
      ensures !crashed ==> (r.Err? <==> Throws(body))
      ensures r.Err? ==> r.error == DomainError
    {
      hide ParseText, Processed, Callbacks, Fresh, Drawn;
      var parsed := ParseDocument(body);
      if parsed.Err? {
        return Ok(Null);
      }
      var j := parsed.value;
      if j.Arr? {
        r := HandleBatch(j.items);
      } else if j.Obj? {
        r := ProcessCommandReply(j);
      } else {
        return Ok(Null);
      }
    }

    ghost predicate Throws(body: Str) {
      ParseText(body).Ok? && ParseText(body).value.Arr? && exists x | x in ParseText(body).value.items :: !Keyed(x)
    }

    method HandleBatch(items: seq<Json>) returns (r: Result<Json>)
      requires Valid()
      modifies this, outstandingCalls.Values
      ensures SameSetup(old(apiKey), old(methods))
      ensures var t := AllProcessed(Surroundings(), old(Abstract()), items);
        crashed == t.crashed && (!crashed ==> Valid() && Abstract() == t)
      ensures !crashed ==> (r.Err? <==> exists x | x in items :: !Keyed(x))
      ensures r.Err? ==> r.error == DomainError
    {
      hide Processed, Callbacks, Fresh, Drawn;
      assert items[0..] == items;
      ghost var env := Surroundings();
      for i := 0 to |items|
        invariant Valid() && SameSetup(old(apiKey), old(methods))
        invariant OldOrNew()
        invariant forall k | 0 <= k < i :: Keyed(items[k])
        invariant AllProcessed(env, Abstract(), items[i..]) == AllProcessed(env, old(Abstract()), items)
      {
        assert items[i..][0] == items[i] && items[i..][1..] == items[i + 1..];
        var reply := items[i];
        r := ProcessCommandReply(reply);
        if r.Err? || crashed {
          return;
        }
      }
      assert items[|items|..] == [];
      r := Ok(Null);
    }

    // ----- requests -----

    /** Every request that is refused is answered with an error, except a notification whose method does not
        exist or is given wrong arguments, and an array. */
    method HandleRequest(remote: Str, body: Str, now: int) returns (outcome: Outcome)
      modifies this`methods
      ensures outcome == Handled(digest, apiKey, old(methods), now, remote, body)
      ensures forall n :: Lookup(methods, n) == Lookup(old(methods), n)
    {
      hide ParseText, Lookup, ErrorReply;
      var parsed := ParseDocument(body);
      if parsed.Err? {
        return Replied(RESP_PARSE_ERROR);
      }
      var j := parsed.value;
      if j.Arr? {
        return Silent;
      } else if j.Obj? {
        outcome := AnswerRequest(remote, j, now);
      } else {
        return Replied(RESP_INVALID_REQUEST);
      }
    }

    method AnswerRequest(remote: Str, request: Json, now: int) returns (outcome: Outcome)
      requires request.Obj?
      modifies this`methods
      ensures outcome == Answer(digest, apiKey, old(methods), now, remote, request)
      ensures forall n :: Lookup(methods, n) == Lookup(old(methods), n)
    {
      hide Get, Touch, WithNulls, RequestText, Lookup, ErrorReply, Dispatched, Truncated;
      var j := Touch(request, TIMESTAMP);
      if Get(j, TIMESTAMP).Null? {
        return Replied(RESP_INVALID_REQUEST);
      } else if !Get(j, TIMESTAMP).IsInteger() {
        return Replied(RESP_INVALID_REQUEST);
      } else if Truncated(IntegerOf(Get(j, TIMESTAMP))) < now - MAX_AGE {
        return Replied(RESP_INVALID_REQUEST);
      }
      j := Touch(j, SIG);
      if Get(j, SIG).Null? {
        return Replied(RESP_INVALID_REQUEST);
      }
      if !Get(j, SIG).Text? {  // the conversion to a string throws
        return Replied(RESP_INVALID_REQUEST);
      }
      SameRequestText(request, j);
      var sig := Get(j, SIG).s;
      var expected;
      expected, j := GetReqSig(j);
      if sig != expected {
        return Replied(RESP_INVALID_REQUEST);
      }
      j := Touch(j, PARAMS);
      if !Get(j, PARAMS).Arr? {
        return Replied(RESP_INVALID_REQUEST);
      }
      j := Touch(j, METHOD);
      if !Get(j, METHOD).Text? {
        return Replied(RESP_INVALID_REQUEST);
      }
      SameDispatch(methods, remote, request, j);
      outcome := Dispatch(remote, j);
    }

    lemma SameRequestText(a: Json, b: Json)
      requires Keyed(a) && Keyed(b) && forall k :: Get(a, k) == Get(b, k)
      ensures RequestText(a) == RequestText(b)
    {
    }

    lemma SameDispatch(methods: Methods, remote: Str, a: Json, b: Json)
      requires Keyed(a) && Keyed(b) && (forall k :: Get(a, k) == Get(b, k)) && WellShaped(a)
      ensures WellShaped(b) && Dispatched(methods, remote, a) == Dispatched(methods, remote, b)
    {
    }

    /** Looking up the method leaves a null pointer under its name if there is none. */
    method Dispatch(remote: Str, j: Json) returns (outcome: Outcome)
      requires j.Obj? && WellShaped(j)
      modifies this`methods
      ensures outcome == Dispatched(old(methods), remote, j)
      ensures forall n :: Lookup(methods, n) == Lookup(old(methods), n)
    {
      hide Get, Set, ErrorReply, ArgumentsFit;
      var notification := !(Get(j, ID).IsNumber() || Get(j, ID).Text?);
      var name := Get(j, METHOD).s;
      if name !in methods {
        methods := methods[name := None];
      }
      var types := methods[name];
      if types.None? {
        if !notification {
          var reply := RespError(METHOD_NOT_FOUND, METHOD_NOT_FOUND_TEXT, Get(j, ID));
          return Replied(reply);
        }
        return Silent;
      }
      var valid := ValidateArguments(types.value, Get(j, PARAMS));
      if valid == Ok(false) {
        if !notification {
          var reply := RespError(INVALID_PARAMS, INVALID_PARAMS_TEXT, Get(j, ID));
          return Replied(reply);
        }
        return Silent;
      }
      return Invoked(Context(remote, Get(j, PARAMS), Get(j, ID), notification));
    }

    method RespError(code: int64, message: Str, id: Json) returns (resp: Json)
      ensures resp == ErrorReply(code, message, id)
    {
      KeysDiffer();
      resp := Set(Null, JSONRPC, Text(VERSION));
      resp := Set(resp, ERROR, Set(Get(resp, ERROR), CODE, Int(code)));
      resp := Set(resp, ERROR, Set(Get(resp, ERROR), MESSAGE, Text(message)));
      resp := Set(resp, ID, id);
      assert resp.members[ERROR].members == map[CODE := Int(code), MESSAGE := Text(message)];
      assert resp.members == ErrorReply(code, message, id).members;
    }

    /** The method is finished: a notification gets no reply. */
    method Finish(context: Context, retval: Json) returns (reply: Option<Json>)
      ensures reply == Finished(digest, apiKey, context, retval)
    {
      hide Get, Set, WithNulls, ReplyText;
      if context.notification {
        return None;
      }
      var resp := Set(Null, JSONRPC, Text(VERSION));
      resp := Set(resp, ID, context.id);
      resp := Set(resp, RESULT, retval);
      ghost var unsigned := resp;
      var sig;
      sig, resp := GetReplySig(resp);
      assert resp == unsigned by { NothingMissing(context.id, retval); }
      resp := Set(resp, SIG, Text(sig));
      return Some(resp);
    }

    /** The reply has every member that is signed, so signing inserts none. */
    lemma NothingMissing(id: Json, retval: Json)
      ensures var r := Set(Set(Set(Null, JSONRPC, Text(VERSION)), ID, id), RESULT, retval);
        WithNulls(r, SIGNED_IN_REPLY) == r
    {
      var r := Set(Set(Set(Null, JSONRPC, Text(VERSION)), ID, id), RESULT, retval);
      assert WithNulls(r, SIGNED_IN_REPLY).members == r.members;
    }
  }
}
