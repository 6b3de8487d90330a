/** The caller's side: the table of outstanding calls over whole runs. */
module Conversation {
  import opened Bytes
  import opened Json
  import opened Printer
  import opened Parser
  import opened Message

  // ----- what happens around the table -----

  datatype Request = Request(target: Str, name: Str, args: Option<Json>, callback: bool)

  /** What a plugin asks for: a call or a notification of a method on a server, or a notification of a
      method on every server. */
  datatype Command =
    | Call(request: Request, now: int64)
    | Notice(request: Request, now: int64)
    | Broadcast(name: Str, args: Option<Json>, now: int64)

  datatype Event =
    | Do(command: Command)
    | Deliver(body: Str)

  /** A callback was run with the result of a call. */
  datatype Firing = Firing(id: Str, result: Json)

  /** A reply was accepted for a call. */
  datatype Receipt = Receipt(id: Str, reply: Json)

  /** Registered servers with the lines handed to them; looking a name up leaves a null pointer behind. */
  type Servers = map<Str, Option<seq<Str>>>

  /** The table, with the history of the run: `issued` holds every call that was sent. A broadcast that meets
      a null pointer has no defined outcome: the run is over, and `crashed` records that. */
  datatype State = State(
    servers: Servers,
    outstanding: map<Str, bool>,  // has the call a callback?
    drawn: nat,                   // identifiers drawn so far
    issued: map<Str, bool>,
    receipts: seq<Receipt>,
    fired: seq<Firing>,
    commands: seq<Command>,       // everything that plugins have asked for
    crashed: bool)

  /** What is not known of the surroundings: the digest and the key, the generator of identifiers, and the
      plugins, which may ask for more whenever one of their callbacks is run. */
  datatype Env = Env(
    digest: Digest,
    key: Str,
    uuid: nat -> Str,
    plugin: seq<Firing> -> seq<Command>)

  /** Identifiers are never drawn twice. */
  ghost predicate Fresh(uuid: nat -> Str) {
    forall i, j | i != j :: uuid(i) != uuid(j)
  }

  /** One of the first n identifiers. */
  ghost predicate Drawn(uuid: nat -> Str, n: nat, id: Str) {
    exists k: nat :: k < n && uuid(k) == id
  }

  lemma DrawnMore(uuid: nat -> Str, m: nat, n: nat)
    requires m <= n
    ensures forall id | Drawn(uuid, m, id) :: Drawn(uuid, n, id)
    ensures m < n ==> Drawn(uuid, n, uuid(m))
  {
    forall id | Drawn(uuid, m, id) ensures Drawn(uuid, n, id) {
      var k: nat :| k < m && uuid(k) == id;
      assert k < n;
    }
  }

  // ----- sending -----

  /** The request that a call builds; a notification has no identifier. */
  function CallMessage(id: Option<Str>, name: Str, args: Option<Json>): (j: Json)
    ensures j.Obj?
  {
    Obj(map[JSONRPC := Text(VERSION), METHOD := Text(name)]
        + (if id.Some? then map[ID := Text(id.value)] else map[])
        + (if args.Some? then map[PARAMS := args.value] else map[]))
  }

  function OrNull(j: Option<Json>): Json {
    if j.Some? then j.value else Null
  }

  function IdOf(id: Option<Str>): Json {
    if id.Some? then Text(id.value) else Null
  }

  lemma CallMessageMembers(id: Option<Str>, name: Str, args: Option<Json>)
    ensures var j := CallMessage(id, name, args);
      Get(j, ID) == IdOf(id) && Get(j, METHOD) == Text(name) && Get(j, PARAMS) == OrNull(args)
    ensures OrNull(args).FloatFree() ==> CallMessage(id, name, args).FloatFree()
  {
    KeysDiffer();
  }

  /** The members of a request determine it. */
  lemma CallMessageIs(j: Json, id: Option<Str>, name: Str, args: Option<Json>)
    requires j.Obj? && Get(j, JSONRPC) == Text(VERSION) && Get(j, METHOD) == Text(name)
    requires j.members.Keys ==
             {JSONRPC, METHOD} + (if id.Some? then {ID} else {}) + (if args.Some? then {PARAMS} else {})
    requires Get(j, ID) == IdOf(id) && Get(j, PARAMS) == OrNull(args)
    ensures j == CallMessage(id, name, args)
  {
    KeysDiffer();
    var m := CallMessage(id, name, args).members;
    assert j.members.Keys == m.Keys;
    forall k | k in m ensures j.members[k] == m[k] {
      assert k in {JSONRPC, METHOD, ID, PARAMS};
    }
    assert j.members == m;
  }

  predicate Registered(servers: Servers, target: Str) {
    target in servers && servers[target].Some?
  }

  function Transmitted(servers: Servers, target: Str, line: Str): Servers {
    if Registered(servers, target) then servers[target := Some(servers[target].value + [line])]
    else servers[target := None]
  }

  function Line(env: Env, req: Json, now: int64): Str
    requires Keyed(req)
  {
    Compact(SignedRequest(env.digest, env.key, req, now))
  }

  predicate HasNull(servers: Servers) {
    exists t | t in servers :: servers[t].None?
  }

  /** Every registered server is handed the line. */
  function Everywhere(servers: Servers, line: Str): Servers {
    map t | t in servers :: match servers[t] case Some(lines) => Some(lines + [line]) case None => None
  }

  /** One command; a call enters the table unless its server is unknown. */
  function Done(env: Env, s: State, c: Command): State {
    var u := s.(commands := s.commands + [c]);
    match c
    case Notice(r, now) =>
      u.(servers := Transmitted(s.servers, r.target, Line(env, CallMessage(None, r.name, r.args), now)))
    case Broadcast(name, args, now) =>
      if HasNull(s.servers) then u.(crashed := true)
      else u.(servers := Everywhere(s.servers, Line(env, CallMessage(None, name, args), now)))
    case Call(r, now) =>
      var id := env.uuid(s.drawn);
      var line := Line(env, CallMessage(Some(id), r.name, r.args), now);
      var t := u.(servers := Transmitted(s.servers, r.target, line), drawn := s.drawn + 1);
      if Registered(s.servers, r.target) then
        t.(outstanding := s.outstanding[id := r.callback], issued := s.issued[id := r.callback])
      else t
  }

  /** Several commands; nothing is done any more once the run is over. */
  function AllDone(env: Env, s: State, cs: seq<Command>): State {
    if cs == [] then s else
      var t := AllDone(env, s, cs[..|cs| - 1]);
      if t.crashed then t else Done(env, t, cs[|cs| - 1])
  }

  lemma NothingDone(env: Env, s: State)
    ensures AllDone(env, s, []) == s
  {
  }

  lemma OneDone(env: Env, s: State, cs: seq<Command>, n: nat)
    requires n < |cs| && !AllDone(env, s, cs[..n]).crashed
    ensures AllDone(env, s, cs[..n + 1]) == Done(env, AllDone(env, s, cs[..n]), cs[n])
  {
    hide Done;
    assert cs[..n + 1][..n] == cs[..n];
  }

  /** What a plugin still asks for when the run is over is not done. */
  lemma {:induction false} CrashStays(env: Env, s: State, cs: seq<Command>, n: nat)
    requires n <= |cs| && AllDone(env, s, cs[..n]).crashed
    ensures AllDone(env, s, cs).crashed
    decreases |cs|
  {
    hide Done;
    if n < |cs| {
      assert cs[..|cs| - 1][..n] == cs[..n];
      CrashStays(env, s, cs[..|cs| - 1], n);
    } else {
      assert cs[..n] == cs;
    }
  }

  // ----- receiving -----

  /** No error, signed, and with an identifier that can be looked up. */
  predicate Acceptable(env: Env, reply: Json)
    requires Keyed(reply)
  {
    Get(reply, ERROR).Null? && ReplyIsAuthentic(env.digest, env.key, reply) && Get(reply, ID).Text?
  }

  /** The call leaves the table. */
  function Settled(t: State, id: Str, reply: Json): State {
    t.(outstanding := t.outstanding - {id}, receipts := t.receipts + [Receipt(id, reply)])
  }

  /** The callback, if there is one, is run and may send again; then the call leaves the table. */
  function Accepted(env: Env, s: State, id: Str, reply: Json): State
    requires Keyed(reply) && id in s.outstanding
  {
    var fired := s.fired + [Firing(id, Get(reply, RESULT))];
    var t := if s.outstanding[id] then AllDone(env, s.(fired := fired), env.plugin(fired)) else s;
    if t.crashed then t else Settled(t, id, reply)
  }

  function Processed(env: Env, s: State, reply: Json): State
    requires Keyed(reply)
  {
    if Acceptable(env, reply) && Get(reply, ID).s in s.outstanding then Accepted(env, s, Get(reply, ID).s, reply)
    else s
  }

  /** A batch; an element that is neither null nor an object throws, and nothing behind it is processed. */
  function AllProcessed(env: Env, s: State, replies: seq<Json>): State
    decreases |replies|
  {
    if replies == [] || s.crashed || !Keyed(replies[0]) then s
    else AllProcessed(env, Processed(env, s, replies[0]), replies[1..])
  }

  function Delivered(env: Env, s: State, body: Str): State {
    match ParseText(body)
    case Err(_) => s
    case Ok(j) => if j.Arr? then AllProcessed(env, s, j.items) else if j.Obj? then Processed(env, s, j) else s
  }

  function Step(env: Env, s: State, e: Event): State {
    if s.crashed then s else
      match e
      case Do(c) => Done(env, s, c)
      case Deliver(body) => Delivered(env, s, body)
  }

  function Initial(servers: Servers): State {
    State(servers, map[], 0, map[], [], [], [], false)
  }

  function Run(env: Env, servers: Servers, es: seq<Event>): State {
    if es == [] then Initial(servers) else Step(env, Run(env, servers, es[..|es| - 1]), es[|es| - 1])
  }

  // ----- what every run keeps -----

  ghost predicate Answered(s: State, id: Str) {
    exists i :: 0 <= i < |s.receipts| && s.receipts[i].id == id
  }

  /** The table holds exactly the calls that were issued and not yet answered. */
  ghost predicate TableIsExact(env: Env, s: State) {
    && (forall id | id in s.issued :: Drawn(env.uuid, s.drawn, id))
    && (forall id :: id in s.outstanding <==> id in s.issued && !Answered(s, id))
    && (forall id | id in s.outstanding :: s.outstanding[id] == s.issued[id])
  }

  /** No call is answered twice, and each by an acceptable reply with its identifier. */
  ghost predicate ReceiptsAreSound(env: Env, s: State) {
    && NoneTwice(s.receipts)
    && (forall i | 0 <= i < |s.receipts| :: IsSound(env, s.issued, s.receipts[i]))
  }

  ghost predicate NoneTwice(receipts: seq<Receipt>) {
    forall i, j | 0 <= i < j < |receipts| :: receipts[i].id != receipts[j].id
  }

  ghost predicate IsSound(env: Env, issued: map<Str, bool>, r: Receipt) {
    r.id in issued && Keyed(r.reply) && Acceptable(env, r.reply) && Get(r.reply, ID) == Text(r.id)
  }

  /** The callbacks that the receipts call for, in order. */
  ghost function Firings(issued: map<Str, bool>, receipts: seq<Receipt>): seq<Firing> {
    if receipts == [] then [] else
      var r := receipts[|receipts| - 1];
      Firings(issued, receipts[..|receipts| - 1])
      + (if r.id in issued && issued[r.id] && Keyed(r.reply) then [Firing(r.id, Get(r.reply, RESULT))] else [])
  }

  ghost predicate Good(env: Env, s: State) {
    && TableIsExact(env, s) && ReceiptsAreSound(env, s)
    && (!s.crashed ==> s.fired == Firings(s.issued, s.receipts))
  }

  /** A later state in which only calls were added. */
  ghost predicate Extends(t: State, s: State) {
    && t.receipts == s.receipts && t.fired == s.fired && s.drawn <= t.drawn
    && (forall id | id in s.issued :: id in t.issued && t.issued[id] == s.issued[id])
  }

  lemma DoneKeeps(env: Env, s: State, c: Command)
    requires Fresh(env.uuid) && TableIsExact(env, s) && ReceiptsAreSound(env, s)
    ensures var t := Done(env, s, c); TableIsExact(env, t) && ReceiptsAreSound(env, t) && Extends(t, s)
  {
    hide TableIsExact, ReceiptsAreSound, Fresh, Acceptable, Transmitted, Everywhere, HasNull, Line, CallMessage;
    var t := Done(env, s, c);
    if c.Call? && Registered(s.servers, c.request.target) {
      Enters(env, s, t, c.request.callback);
    } else {
      OnlyServers(env, s, t);
    }
  }

  lemma OnlyServers(env: Env, s: State, t: State)
    requires TableIsExact(env, s) && ReceiptsAreSound(env, s)
    requires s.drawn <= t.drawn
    requires t == s.(servers := t.servers, drawn := t.drawn, commands := t.commands, crashed := t.crashed)
    ensures TableIsExact(env, t) && ReceiptsAreSound(env, t)
  {
    hide Acceptable, Drawn;
    SameAnswered(s, t);
    DrawnMore(env.uuid, s.drawn, t.drawn);
  }

  lemma SameAnswered(s: State, t: State)
    requires s.receipts == t.receipts
    ensures forall id :: Answered(t, id) == Answered(s, id)
  {
  }

  /** A call with a fresh identifier enters the table. */
  lemma Enters(env: Env, s: State, t: State, callback: bool)
    requires Fresh(env.uuid) && TableIsExact(env, s) && ReceiptsAreSound(env, s)
    requires var id := env.uuid(s.drawn);
      t == s.(servers := t.servers, drawn := s.drawn + 1, commands := t.commands,
              outstanding := s.outstanding[id := callback], issued := s.issued[id := callback])
    ensures TableIsExact(env, t) && ReceiptsAreSound(env, t) && Extends(t, s)
  {
    hide TableIsExact, Acceptable;
    var drawn := env.uuid(s.drawn);
    assert drawn !in s.issued by { Undrawn(env, s); }
    NotAnswered(env, s, drawn);
    DrawnMore(env.uuid, s.drawn, t.drawn);
    EntersTable(env, s, t, drawn, callback);
  }

  lemma Undrawn(env: Env, s: State)
    requires Fresh(env.uuid) && TableIsExact(env, s)
    ensures env.uuid(s.drawn) !in s.issued
  {
  }

  lemma EntersTable(env: Env, s: State, t: State, id: Str, callback: bool)
    requires TableIsExact(env, s) && id !in s.issued && !Answered(s, id) && Drawn(env.uuid, t.drawn, id)
    requires s.drawn <= t.drawn && t.receipts == s.receipts
    requires t.outstanding == s.outstanding[id := callback] && t.issued == s.issued[id := callback]
    ensures TableIsExact(env, t)
  {
    hide Drawn;
    SameAnswered(s, t);
    DrawnMore(env.uuid, s.drawn, t.drawn);
    hide Answered;
  }

  lemma NotAnswered(env: Env, s: State, id: Str)
    requires ReceiptsAreSound(env, s) && id !in s.issued
    ensures !Answered(s, id)
  {
  }

  lemma {:induction false} AllDoneKeeps(env: Env, s: State, cs: seq<Command>)
    requires Fresh(env.uuid) && TableIsExact(env, s) && ReceiptsAreSound(env, s)
    ensures var t := AllDone(env, s, cs); TableIsExact(env, t) && ReceiptsAreSound(env, t) && Extends(t, s)
  {
    hide TableIsExact, ReceiptsAreSound, Done, Fresh;
    if cs != [] {
      AllDoneKeeps(env, s, cs[..|cs| - 1]);
      DoneKeeps(env, AllDone(env, s, cs[..|cs| - 1]), cs[|cs| - 1]);
    }
  }

  /** Later calls do not change what earlier receipts called for. */
  lemma {:induction false} FiringsStay(issued: map<Str, bool>, later: map<Str, bool>, receipts: seq<Receipt>)
    requires forall id | id in issued :: id in later && later[id] == issued[id]
    requires forall i | 0 <= i < |receipts| :: receipts[i].id in issued
    ensures Firings(later, receipts) == Firings(issued, receipts)
  {
    if receipts != [] {
      FiringsStay(issued, later, receipts[..|receipts| - 1]);
    }
  }

  lemma DoneIsGood(env: Env, s: State, c: Command)
    requires Fresh(env.uuid) && Good(env, s) && !s.crashed
    ensures Good(env, Done(env, s, c))
  {
    hide TableIsExact, Done, Acceptable, Fresh;
    DoneKeeps(env, s, c);
    FiringsStay(s.issued, Done(env, s, c).issued, s.receipts);
  }

  lemma NowAnswered(t: State, id: Str, reply: Json)
    ensures forall x :: Answered(Settled(t, id, reply), x) <==> Answered(t, x) || x == id
  {
    var u, n := Settled(t, id, reply), |t.receipts|;
    assert u.receipts[n].id == id;
    forall x ensures Answered(u, x) <==> Answered(t, x) || x == id {
      if Answered(t, x) {
        var i :| 0 <= i < n && t.receipts[i].id == x;
        assert u.receipts[i].id == x;
      }
      if Answered(u, x) {
        var i :| 0 <= i <= n && u.receipts[i].id == x;
        assert i < n ==> t.receipts[i].id == x;
      }
    }
  }

  lemma SettledTable(env: Env, t: State, id: Str, reply: Json)
    requires TableIsExact(env, t) && id in t.outstanding
    ensures TableIsExact(env, Settled(t, id, reply))
  {
    hide Answered;
    NowAnswered(t, id, reply);
  }

  lemma SettledReceipts(env: Env, t: State, id: Str, reply: Json)
    requires TableIsExact(env, t) && ReceiptsAreSound(env, t) && id in t.outstanding
    requires Keyed(reply) && Acceptable(env, reply) && Get(reply, ID) == Text(id)
    ensures ReceiptsAreSound(env, Settled(t, id, reply))
  {
    hide Acceptable, Get, Drawn, NoneTwice;
    var u, n := Settled(t, id, reply), |t.receipts|;
    assert forall i | 0 <= i < n :: t.receipts[i].id != id by {
      assert !Answered(t, id);
    }
    NoneTwiceMore(t.receipts, Receipt(id, reply));
    assert IsSound(env, u.issued, Receipt(id, reply));
    hide TableIsExact, IsSound;
    assert u.receipts == t.receipts + [Receipt(id, reply)];
  }

  lemma NoneTwiceMore(receipts: seq<Receipt>, r: Receipt)
    requires NoneTwice(receipts) && forall i | 0 <= i < |receipts| :: receipts[i].id != r.id
    ensures NoneTwice(receipts + [r])
  {
  }

  lemma SettledFirings(t: State, id: Str, reply: Json)
    requires id in t.issued && Keyed(reply)
    ensures Firings(t.issued, Settled(t, id, reply).receipts) ==
            Firings(t.issued, t.receipts) + (if t.issued[id] then [Firing(id, Get(reply, RESULT))] else [])
  {
    var u, n := Settled(t, id, reply), |t.receipts|;
    assert u.receipts[..n] == t.receipts;
  }

  lemma ProcessedIsGood(env: Env, s: State, reply: Json)
    requires Fresh(env.uuid) && Good(env, s) && !s.crashed && Keyed(reply)
    ensures Good(env, Processed(env, s, reply))
  {
    AcceptableNamesCall(env, reply);
    hide TableIsExact, ReceiptsAreSound, Acceptable, AllDone, Firings, Fresh, Settled, Get;
    if Acceptable(env, reply) && Get(reply, ID).s in s.outstanding {
      var id := Get(reply, ID).s;
      var fired := s.fired + [Firing(id, Get(reply, RESULT))];
      var busy := s.(fired := fired);
      TableIgnoresFirings(env, s, fired);
      AllDoneKeeps(env, busy, env.plugin(fired));
      var t := if s.outstanding[id] then AllDone(env, busy, env.plugin(fired)) else s;
      if !t.crashed { SettledIsGood(env, s, t, id, reply); }
    }
  }

  /** `s` is the state before the callback, `t` the one behind it. */
  lemma SettledIsGood(env: Env, s: State, t: State, id: Str, reply: Json)
    requires Good(env, s) && !s.crashed && TableIsExact(env, t) && ReceiptsAreSound(env, t) && id in s.outstanding
    requires Keyed(reply) && Acceptable(env, reply) && Get(reply, ID) == Text(id)
    requires t.receipts == s.receipts && forall x | x in s.issued :: x in t.issued && t.issued[x] == s.issued[x]
    requires t.fired == if s.outstanding[id] then s.fired + [Firing(id, Get(reply, RESULT))] else s.fired
    ensures Good(env, Settled(t, id, reply))
  {
    hide TableIsExact, ReceiptsAreSound, Acceptable, Firings, Settled, Get;
    StillOutstanding(env, s, t, id);
    IssuedBefore(env, s);
    FiringsStay(s.issued, t.issued, s.receipts);
    SettledTable(env, t, id, reply);
    SettledReceipts(env, t, id, reply);
    SettledFirings(t, id, reply);
    SettledKeeps(t, id, reply);
    assert s.fired + [] == s.fired;
  }

  lemma AcceptableNamesCall(env: Env, reply: Json)
    requires Keyed(reply)
    ensures Acceptable(env, reply) ==> Get(reply, ID).Text?
  {
  }

  lemma IssuedBefore(env: Env, s: State)
    requires ReceiptsAreSound(env, s)
    ensures forall i | 0 <= i < |s.receipts| :: s.receipts[i].id in s.issued
  {
  }

  lemma SettledKeeps(t: State, id: Str, reply: Json)
    ensures var u := Settled(t, id, reply); u.issued == t.issued && u.fired == t.fired
  {
  }

  lemma TableIgnoresFirings(env: Env, s: State, fired: seq<Firing>)
    requires TableIsExact(env, s) && ReceiptsAreSound(env, s)
    ensures TableIsExact(env, s.(fired := fired)) && ReceiptsAreSound(env, s.(fired := fired))
  {
    var t := s.(fired := fired);
    assert forall id :: Answered(t, id) == Answered(s, id);
  }

  /** Sending from a callback does not disturb the call that is being answered. */
  lemma StillOutstanding(env: Env, s: State, t: State, id: Str)
    requires TableIsExact(env, s) && TableIsExact(env, t) && id in s.outstanding
    requires t.receipts == s.receipts && forall x | x in s.issued :: x in t.issued && t.issued[x] == s.issued[x]
    ensures id in t.outstanding && id in t.issued && t.outstanding[id] == t.issued[id] == s.outstanding[id]
  {
    assert Answered(t, id) == Answered(s, id);
  }

  lemma {:induction false} AllProcessedIsGood(env: Env, s: State, replies: seq<Json>)
    requires Fresh(env.uuid) && Good(env, s)
    ensures Good(env, AllProcessed(env, s, replies))
    decreases |replies|
  {
    hide Good, Processed, Fresh;
    if replies != [] && !s.crashed && Keyed(replies[0]) {
      ProcessedIsGood(env, s, replies[0]);
      AllProcessedIsGood(env, Processed(env, s, replies[0]), replies[1..]);
    }
  }

  lemma {:induction false} RunIsGood(env: Env, servers: Servers, es: seq<Event>)
    requires Fresh(env.uuid)
    ensures Good(env, Run(env, servers, es))
  {
    if es != [] {
      hide Good, Fresh, Done, Processed, AllProcessed, ParseText;
      var s, e := Run(env, servers, es[..|es| - 1]), es[|es| - 1];
      RunIsGood(env, servers, es[..|es| - 1]);
      if s.crashed {
      } else if e.Do? {
        DoneIsGood(env, s, e.command);
      } else if ParseText(e.body).Ok? {
        var j := ParseText(e.body).value;
        if j.Arr? { AllProcessedIsGood(env, s, j.items); }
        if j.Obj? { ProcessedIsGood(env, s, j); }
      }
    } else {
      NothingIsGood(env, servers);
    }
  }

  lemma NothingIsGood(env: Env, servers: Servers)
    ensures Good(env, Initial(servers))
  {
    assert forall id :: !Answered(Initial(servers), id);
  }

  // ----- the theorem about runs -----

  /** A delivered line holds this reply, on its own or in a batch. */
  ghost predicate Holds(body: Str, reply: Json) {
    ParseText(body).Ok? &&
    var j := ParseText(body).value;
    (j.Obj? && j == reply) || (j.Arr? && reply in j.items)
  }

  ghost predicate CameIn(es: seq<Event>, reply: Json) {
    exists i :: 0 <= i < |es| && es[i].Deliver? && Holds(es[i].body, reply)
  }

  lemma DoneReceipts(env: Env, s: State, c: Command)
    ensures Done(env, s, c).receipts == s.receipts
  {
  }

  lemma {:induction false} AllDoneReceipts(env: Env, s: State, cs: seq<Command>)
    ensures AllDone(env, s, cs).receipts == s.receipts
  {
    if cs != [] {
      DoneReceipts(env, AllDone(env, s, cs[..|cs| - 1]), cs[|cs| - 1]);
      hide Done;
      AllDoneReceipts(env, s, cs[..|cs| - 1]);
    }
  }

  lemma ProcessedReceipts(env: Env, s: State, reply: Json)
    requires Keyed(reply)
    ensures var rs := Processed(env, s, reply).receipts;
      rs == s.receipts ||
      (|rs| == |s.receipts| + 1 && rs[..|s.receipts|] == s.receipts && rs[|s.receipts|].reply == reply)
  {
    hide AllDone;
    if Acceptable(env, reply) && Get(reply, ID).s in s.outstanding {
      var fired := s.fired + [Firing(Get(reply, ID).s, Get(reply, RESULT))];
      AllDoneReceipts(env, s.(fired := fired), env.plugin(fired));
    }
  }

  /** Receipts beyond the first n come from these replies. */
  ghost predicate NewFrom(s: State, n: nat, replies: seq<Json>) {
    forall i | n <= i < |s.receipts| :: s.receipts[i].reply in replies
  }

  lemma {:induction false} AllProcessedReceipts(env: Env, s: State, replies: seq<Json>, n: nat, all: seq<Json>)
    requires NewFrom(s, n, all) && n <= |s.receipts| && forall r | r in replies :: r in all
    ensures var t := AllProcessed(env, s, replies);
      NewFrom(t, n, all) && |t.receipts| >= |s.receipts| && t.receipts[..n] == s.receipts[..n]
    decreases |replies|
  {
    hide Processed;
    if replies != [] && !s.crashed && Keyed(replies[0]) {
      ProcessedReceipts(env, s, replies[0]);
      var t := Processed(env, s, replies[0]);
      assert replies[0] in replies;
      assert t.receipts[..n] == t.receipts[..|s.receipts|][..n] == s.receipts[..n];
      assert forall i | n <= i < |s.receipts| :: t.receipts[i] == t.receipts[..|s.receipts|][i];
      AllProcessedReceipts(env, t, replies[1..], n, all);
    }
  }

  lemma {:induction false} ReceiptsCameIn(env: Env, servers: Servers, es: seq<Event>, i: nat)
    requires i < |Run(env, servers, es).receipts|
    ensures CameIn(es, Run(env, servers, es).receipts[i].reply)
  {
    var init := es[..|es| - 1];
    var s, e := Run(env, servers, init), es[|es| - 1];
    var t := Run(env, servers, es);
    if i < |s.receipts| && s.receipts[i] == t.receipts[i] {
      ReceiptsCameIn(env, servers, init, i);
      var k :| 0 <= k < |init| && init[k].Deliver? && Holds(init[k].body, s.receipts[i].reply);
      assert es[k] == init[k];
    } else {
      hide Run, Holds, AllProcessed, Processed, Done, ParseText;
      NewReceipt(env, s, e, i);
      assert es[|es| - 1] == e;
    }
  }

  lemma ReceiptCameIn(env: Env, servers: Servers, es: seq<Event>, r: Receipt)
    requires r in Run(env, servers, es).receipts
    ensures CameIn(es, r.reply)
  {
    hide Run, CameIn;
    var receipts := Run(env, servers, es).receipts;
    var i :| 0 <= i < |receipts| && receipts[i] == r;
    ReceiptsCameIn(env, servers, es, i);
  }

  lemma NewReceipt(env: Env, s: State, e: Event, i: nat)
    requires i < |Step(env, s, e).receipts|
    requires i >= |s.receipts| || s.receipts[i] != Step(env, s, e).receipts[i]
    ensures e.Deliver? && Holds(e.body, Step(env, s, e).receipts[i].reply)
  {
    hide AllProcessed, Processed, ParseText;
    var t, n := Step(env, s, e), |s.receipts|;
    if !s.crashed && e.Deliver? && ParseText(e.body).Ok? {
      var j := ParseText(e.body).value;
      if j.Arr? {
        AllProcessedReceipts(env, s, j.items, n, j.items);
        SamePrefix(s.receipts, t.receipts);
      } else if j.Obj? {
        ProcessedReceipts(env, s, j);
        SamePrefix(s.receipts, t.receipts);
      }
    }
  }

  lemma SamePrefix<T>(a: seq<T>, b: seq<T>)
    requires |a| <= |b| && b[..|a|] == a[..|a|]
    ensures forall k | 0 <= k < |a| :: b[k] == a[k]
  {
    forall k | 0 <= k < |a| ensures b[k] == a[k] {
      assert b[..|a|][k] == a[..|a|][k];
    }
  }

  /** What a callback is run with. */
  ghost predicate Justifies(issued: map<Str, bool>, r: Receipt, f: Firing) {
    f.id == r.id && r.id in issued && issued[r.id] && Keyed(r.reply) && f.result == Get(r.reply, RESULT)
  }

  lemma {:induction false} FiringsSound(issued: map<Str, bool>, receipts: seq<Receipt>)
    ensures forall f | f in Firings(issued, receipts) :: exists r :: r in receipts && Justifies(issued, r, f)
    ensures forall r, f | r in receipts && Justifies(issued, r, f) :: f in Firings(issued, receipts)
  {
    if receipts != [] {
      var n := |receipts| - 1;
      var init, last := receipts[..n], receipts[n];
      assert receipts == init + [last];
      FiringsSound(issued, init);
      forall f | f in Firings(issued, receipts) ensures exists r :: r in receipts && Justifies(issued, r, f) {
        if f in Firings(issued, init) {
          var r :| r in init && Justifies(issued, r, f);
          assert r in receipts;
        } else {
          assert last in receipts && Justifies(issued, last, f);
        }
      }
    }
  }

  ghost predicate Distinct(fs: seq<Firing>) {
    forall i, j | 0 <= i < j < |fs| :: fs[i].id != fs[j].id
  }

  lemma {:induction false} FiringsDistinct(issued: map<Str, bool>, receipts: seq<Receipt>)
    requires NoneTwice(receipts)
    ensures Distinct(Firings(issued, receipts))
  {
    if receipts != [] {
      var n := |receipts| - 1;
      var init := receipts[..n];
      FiringsDistinct(issued, init);
      FiringsSound(issued, init);
      var fs := Firings(issued, init);
      forall i | 0 <= i < |fs| ensures fs[i].id != receipts[n].id {
        assert fs[i] in fs;
        var r :| r in init && Justifies(issued, r, fs[i]);
        var k :| 0 <= k < n && init[k] == r;
        assert receipts[k] == r;
      }
      FiringsLast(issued, receipts);
    }
  }

  lemma FiringsLast(issued: map<Str, bool>, receipts: seq<Receipt>)
    requires receipts != []
    ensures var n := |receipts| - 1;
      var fs, all := Firings(issued, receipts[..n]), Firings(issued, receipts);
      all == fs || (|all| == |fs| + 1 && all[..|fs|] == fs && all[|fs|].id == receipts[n].id)
  {
  }

  /** Over every run: the outstanding calls are those that were sent and not yet answered. A call is
      answered at most once, by a reply that was delivered, reports no error, is signed and names the call;
      unless the run ended with a null pointer, the callbacks that were run are those of the answered calls
      that have one, once each and with the result of the reply. */
  lemma EveryRun(env: Env, servers: Servers, es: seq<Event>)
    requires Fresh(env.uuid)
    ensures var s := Run(env, servers, es);
      && (forall id :: id in s.outstanding <==> id in s.issued && forall r | r in s.receipts :: r.id != id)
      && (forall i, j | 0 <= i < j < |s.receipts| :: s.receipts[i].id != s.receipts[j].id)
      && (forall r | r in s.receipts ::
            && r.id in s.issued && CameIn(es, r.reply) && Keyed(r.reply) && Get(r.reply, ERROR).Null?
            && Get(r.reply, ID) == Text(r.id) && Get(r.reply, SIG) == Text(env.digest(ReplyText(r.reply), env.key)))
      && (!s.crashed ==>
            && Distinct(s.fired)
            && (forall f :: f in s.fired <==> exists r :: r in s.receipts && Justifies(s.issued, r, f)))
  {
    hide Run, CameIn, Acceptable, Firings, Fresh, Justifies, Drawn, Get, Distinct;
    var s := Run(env, servers, es);
    RunIsGood(env, servers, es);
    assert !s.crashed ==> s.fired == Firings(s.issued, s.receipts);
    FiringsSound(s.issued, s.receipts);
    FiringsDistinct(s.issued, s.receipts);
    forall r | r in s.receipts
      ensures r.id in s.issued && CameIn(es, r.reply) && Keyed(r.reply) && Get(r.reply, ERROR).Null?
              && Get(r.reply, ID) == Text(r.id) && Get(r.reply, SIG) == Text(env.digest(ReplyText(r.reply), env.key))
    {
      ReceiptCameIn(env, servers, es, r);
      AcceptableIs(env, r.reply);
    }
    forall id ensures Answered(s, id) <==> exists r :: r in s.receipts && r.id == id {
      if Answered(s, id) {
        var i :| 0 <= i < |s.receipts| && s.receipts[i].id == id;
        assert s.receipts[i] in s.receipts;
      }
    }
  }

  // ----- which replies are accepted, and what becomes of the others -----

  lemma AcceptableIs(env: Env, reply: Json)
    ensures Keyed(reply) ==>
              (Acceptable(env, reply) <==>
                 Get(reply, ERROR).Null? && Get(reply, ID).Text?
                 && Get(reply, SIG) == Text(env.digest(ReplyText(reply), env.key)))
  {
  }

  /** A reply that reports an error, is not signed with the digest of its members, or does not name an
      outstanding call leaves everything as it was. */
  lemma OtherReplyIsDropped(env: Env, s: State, reply: Json)
    requires Keyed(reply)
    requires !Get(reply, ERROR).Null? || Get(reply, SIG) != Text(env.digest(ReplyText(reply), env.key))
             || !Get(reply, ID).Text? || Get(reply, ID).s !in s.outstanding
    ensures Processed(env, s, reply) == s
  {
    hide ReplyText, Get, Accepted;
  }

  /** And every other reply is accepted: its call is answered with it, under the name that it gives. */
  lemma SignedReplyIsAccepted(env: Env, s: State, reply: Json)
    requires Keyed(reply) && Get(reply, ERROR).Null? && Get(reply, ID).Text? && Get(reply, ID).s in s.outstanding
    requires Get(reply, SIG) == Text(env.digest(ReplyText(reply), env.key))
    requires !Processed(env, s, reply).crashed
    ensures var t, id := Processed(env, s, reply), Get(reply, ID).s;
      t.receipts == s.receipts + [Receipt(id, reply)] && id !in t.outstanding
  {
    hide ReplyText, Get;
    var fired := s.fired + [Firing(Get(reply, ID).s, Get(reply, RESULT))];
    AllDoneReceipts(env, s.(fired := fired), env.plugin(fired));
    hide AllDone;
  }

  /** The callback runs before the call is taken out of the table: if a command of it ends the run, the call is
      still there, unanswered, although its callback has run. */
  lemma CallbackRunsFirst(env: Env, s: State, reply: Json)
    requires Keyed(reply) && Get(reply, ERROR).Null? && Get(reply, ID).Text? && Get(reply, ID).s in s.outstanding
    requires Get(reply, SIG) == Text(env.digest(ReplyText(reply), env.key)) && s.outstanding[Get(reply, ID).s]
    requires Processed(env, s, reply).crashed && !s.crashed
    ensures var t, id := Processed(env, s, reply), Get(reply, ID).s;
      id in t.outstanding && t.receipts == s.receipts && t.fired == s.fired + [Firing(id, Get(reply, RESULT))]
  {
    hide ReplyText, Get;
    var fired := s.fired + [Firing(Get(reply, ID).s, Get(reply, RESULT))];
    AllDoneReceipts(env, s.(fired := fired), env.plugin(fired));
    AllDoneKeepsCalls(env, s.(fired := fired), env.plugin(fired));
    hide AllDone;
  }

  lemma {:induction false} AllDoneKeepsCalls(env: Env, s: State, cs: seq<Command>)
    ensures var t := AllDone(env, s, cs); t.fired == s.fired && forall id | id in s.outstanding :: id in t.outstanding
  {
    if cs != [] {
      AllDoneKeepsCalls(env, s, cs[..|cs| - 1]);
      DoneKeepsCalls(env, AllDone(env, s, cs[..|cs| - 1]), cs[|cs| - 1]);
      hide Done;
    }
  }

  lemma DoneKeepsCalls(env: Env, s: State, c: Command)
    ensures var t := Done(env, s, c); t.fired == s.fired && forall id | id in s.outstanding :: id in t.outstanding
  {
    hide Line, CallMessage, Transmitted, Everywhere, HasNull;
  }

  /** A delivered object that is not signed with the digest of its members changes nothing. */
  lemma ForgedReplyIsDropped(env: Env, s: State, body: Str, j: Json)
    requires ParseText(body) == Ok(j) && j.Obj? && Get(j, SIG) != Text(env.digest(ReplyText(j), env.key))
    ensures Delivered(env, s, body) == s
  {
    hide ParseText, ReplyText, Get, Processed;
    OtherReplyIsDropped(env, s, j);
  }

  /** A batch is processed one reply after the other, up to an element that cannot be indexed. */
  lemma {:induction false} BatchOneByOne(env: Env, s: State, before: seq<Json>, rest: seq<Json>)
    requires forall x | x in before :: Keyed(x)
    ensures AllProcessed(env, s, before + rest) == AllProcessed(env, AllProcessed(env, s, before), rest)
    decreases |before|
  {
    hide Processed;
    if before == [] {
      assert before + rest == rest;
    } else {
      assert (before + rest)[0] == before[0] && (before + rest)[1..] == before[1..] + rest;
      if !s.crashed { BatchOneByOne(env, Processed(env, s, before[0]), before[1..], rest); }
    }
  }

  /** A forged element of a batch changes nothing, and the others are processed as if it were not there. */
  lemma ForgedElementIsDropped(env: Env, s: State, before: seq<Json>, x: Json, rest: seq<Json>)
    requires (forall y | y in before :: Keyed(y)) && Keyed(x)
    requires Get(x, SIG) != Text(env.digest(ReplyText(x), env.key))
    ensures AllProcessed(env, s, before + ([x] + rest)) == AllProcessed(env, s, before + rest)
  {
    hide ReplyText, Get, Processed;
    var t := AllProcessed(env, s, before);
    BatchOneByOne(env, s, before, [x] + rest);
    BatchOneByOne(env, s, before, rest);
    OtherReplyIsDropped(env, t, x);
    assert ([x] + rest)[0] == x && ([x] + rest)[1..] == rest;
    AllProcessedStep(env, t, [x] + rest);
    if t.crashed {
      AllProcessedStep(env, t, rest);
    }
  }

  lemma AllProcessedStep(env: Env, s: State, replies: seq<Json>)
    ensures s.crashed ==> AllProcessed(env, s, replies) == s
    ensures replies != [] && !s.crashed && Keyed(replies[0]) ==>
              AllProcessed(env, s, replies) == AllProcessed(env, Processed(env, s, replies[0]), replies[1..])
  {
    hide Processed;
  }

  /** A text that is not JSON, or a value that is neither an object nor an array, changes nothing. */
  lemma OtherTextIsIgnored(env: Env, s: State, body: Str)
    requires ParseText(body).Err? || ParseText(body).value.Primitive()
    ensures Delivered(env, s, body) == s
  {
    hide ParseText;
  }

  /** Several deliveries in turn. */
  function AllDelivered(env: Env, s: State, bodies: seq<Str>): State
    decreases |bodies|
  {
    if bodies == [] then s else AllDelivered(env, Step(env, s, Deliver(bodies[0])), bodies[1..])
  }

  lemma OneDelivered(env: Env, s: State, body: Str, j: Json)
    requires ParseText(body) == Ok(j) && Keyed(j) && !s.crashed
    ensures Step(env, s, Deliver(body)) == Processed(env, s, j)
  {
    hide ParseText, Processed;
    if j.Null? { OtherReplyIsDropped(env, s, j); }
  }

  lemma {:induction false} NothingDelivered(env: Env, s: State, bodies: seq<Str>)
    requires s.crashed
    ensures AllDelivered(env, s, bodies) == s
    decreases |bodies|
  {
    if bodies != [] { NothingDelivered(env, s, bodies[1..]); }
  }

  lemma {:induction false} ElementsDelivered(env: Env, s: State, items: seq<Json>, bodies: seq<Str>)
    requires |items| == |bodies|
    requires forall i | 0 <= i < |items| :: Keyed(items[i]) && ParseText(bodies[i]) == Ok(items[i])
    ensures AllProcessed(env, s, items) == AllDelivered(env, s, bodies)
    decreases |items|
  {
    hide ParseText, Processed, Step;
    AllProcessedStep(env, s, items);
    if s.crashed {
      NothingDelivered(env, s, bodies);
    } else if items != [] {
      OneDelivered(env, s, bodies[0], items[0]);
      ElementsDelivered(env, Processed(env, s, items[0]), items[1..], bodies[1..]);
    }
  }

  /** A batch has the effect of its elements delivered one by one, up to the first that is neither null nor
      an object; that one and all behind it are lost. */
  lemma BatchIsItsElements(env: Env, s: State, body: Str, items: seq<Json>, n: nat, bodies: seq<Str>)
    requires !s.crashed && ParseText(body) == Ok(Arr(items)) && n <= |items| && |bodies| == n
    requires forall i | 0 <= i < n :: Keyed(items[i]) && ParseText(bodies[i]) == Ok(items[i])
    requires n < |items| ==> !Keyed(items[n])
    ensures Step(env, s, Deliver(body)) == AllDelivered(env, s, bodies)
  {
    var before, rest := items[..n], items[n..];
    assert before + rest == items;
    BatchOneByOne(env, s, before, rest);
    hide ParseText, Processed;
    ElementsDelivered(env, s, before, bodies);
  }
}
