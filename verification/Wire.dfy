/** What is handed to the servers over whole runs, and when a run meets a null pointer. */
module Wire {
  import opened Bytes
  import opened Json
  import opened Printer
  import opened Parser
  import opened Message
  import opened Conversation

  // ----- an induction principle: what every command keeps, every run keeps -----

  /** A property of the servers and of what plugins have asked for. */
  type Property = (Servers, nat, seq<Command>, bool) -> bool

  ghost predicate Has(q: Property, s: State) {
    q(s.servers, s.drawn, s.commands, s.crashed)
  }

  /** Commands of the given kind keep the property. */
  ghost predicate IsKept(env: Env, kind: Command -> bool, q: Property) {
    forall s: State, c: Command | !s.crashed && kind(c) && Has(q, s) :: Has(q, Done(env, s, c))
  }

  /** Plugins ask for nothing else, neither by themselves nor in their callbacks. */
  ghost predicate Only(env: Env, kind: Command -> bool, es: seq<Event>) {
    && (forall fired, c | c in env.plugin(fired) :: kind(c))
    && (forall e | e in es && e.Do? :: kind(e.command))
  }

  lemma {:induction false} AllDoneHas(env: Env, kind: Command -> bool, q: Property, s: State, cs: seq<Command>)
    requires IsKept(env, kind, q) && Has(q, s) && forall c | c in cs :: kind(c)
    ensures Has(q, AllDone(env, s, cs))
  {
    hide Done, Has;
    if cs != [] {
      var n := |cs| - 1;
      assert cs[n] in cs;
      AllDoneHas(env, kind, q, s, cs[..n]);
    }
  }

  lemma ProcessedHas(env: Env, kind: Command -> bool, q: Property, s: State, reply: Json)
    requires IsKept(env, kind, q) && Has(q, s) && Keyed(reply)
    requires forall fired, c | c in env.plugin(fired) :: kind(c)
    ensures Has(q, Processed(env, s, reply))
  {
    AcceptableNamesCall(env, reply);
    hide IsKept, AllDone, Acceptable, Get;
    if Acceptable(env, reply) && Get(reply, ID).s in s.outstanding {
      var fired := s.fired + [Firing(Get(reply, ID).s, Get(reply, RESULT))];
      AllDoneHas(env, kind, q, s.(fired := fired), env.plugin(fired));
    }
  }

  lemma {:induction false} AllProcessedHas(env: Env, kind: Command -> bool, q: Property, s: State, replies: seq<Json>)
    requires IsKept(env, kind, q) && Has(q, s)
    requires forall fired, c | c in env.plugin(fired) :: kind(c)
    ensures Has(q, AllProcessed(env, s, replies))
    decreases |replies|
  {
    hide IsKept, Has, Processed;
    if replies != [] && !s.crashed && Keyed(replies[0]) {
      ProcessedHas(env, kind, q, s, replies[0]);
      AllProcessedHas(env, kind, q, Processed(env, s, replies[0]), replies[1..]);
    }
  }

  lemma {:induction false} RunHas(env: Env, kind: Command -> bool, q: Property, servers: Servers, es: seq<Event>)
    requires IsKept(env, kind, q) && Has(q, Initial(servers)) && Only(env, kind, es)
    ensures Has(q, Run(env, servers, es))
  {
    hide Has, Done, Processed, AllProcessed, ParseText;
    if es != [] {
      var init, e := es[..|es| - 1], es[|es| - 1];
      var s := Run(env, servers, init);
      assert e in es;
      RunHas(env, kind, q, servers, init);
      if s.crashed {
      } else if e.Do? {
        assert Has(q, Done(env, s, e.command));
      } else if ParseText(e.body).Ok? {
        var j := ParseText(e.body).value;
        if j.Arr? { AllProcessedHas(env, kind, q, s, j.items); }
        if j.Obj? { ProcessedHas(env, kind, q, s, j); }
      }
    }
  }

  // ----- every line is authentic -----

  function Args(c: Command): Json {
    match c
    case Call(r, _) => OrNull(r.args)
    case Notice(r, _) => OrNull(r.args)
    case Broadcast(_, args, _) => OrNull(args)
  }

  /** The arguments hold no floating-point number. */
  ghost predicate Exact(c: Command) {
    Args(c).FloatFree()
  }

  /** A line that a receiver with the same key finds authentic, and that really is one line. */
  ghost predicate IsAuthentic(env: Env, line: Str) {
    NEWLINE !in line && ParseText(line + [NEWLINE]).Ok? &&
    var j := ParseText(line + [NEWLINE]).value;
    j.Obj? && RequestIsAuthentic(env.digest, env.key, j)
  }

  ghost predicate AllAuthentic(env: Env, servers: Servers) {
    forall t | Registered(servers, t) :: forall line | line in servers[t].value :: IsAuthentic(env, line)
  }

  lemma LineIsAuthentic(env: Env, id: Option<Str>, name: Str, args: Option<Json>, now: int64)
    requires OrNull(args).FloatFree()
    ensures IsAuthentic(env, Line(env, CallMessage(id, name, args), now))
  {
    hide ParseText, Compact, SignedRequest, RequestIsAuthentic, CallMessage;
    var req := CallMessage(id, name, args);
    CallMessageMembers(id, name, args);
    RequestSurvives(env.digest, env.key, req, now);
    Received(SignedRequest(env.digest, env.key, req, now));
  }

  lemma DoneIsAuthentic(env: Env, s: State, c: Command)
    requires AllAuthentic(env, s.servers) && Exact(c)
    ensures AllAuthentic(env, Done(env, s, c).servers)
  {
    hide IsAuthentic, Line, CallMessage, HasNull;
    match c {
      case Notice(r, now) => LineIsAuthentic(env, None, r.name, r.args, now);
      case Broadcast(name, args, now) => LineIsAuthentic(env, None, name, args, now);
      case Call(r, now) => LineIsAuthentic(env, Some(env.uuid(s.drawn)), r.name, r.args, now);
    }
  }

  /** Over every run, whatever is delivered and whatever the callbacks send: every line that was handed to a
      server is authentic to a receiver with the same key. */
  lemma EveryLineIsAuthentic(env: Env, servers: Servers, es: seq<Event>)
    requires Only(env, c => Exact(c), es) && AllAuthentic(env, servers)
    ensures AllAuthentic(env, Run(env, servers, es).servers)
  {
    hide AllAuthentic, Run, Done, Exact;
    var kind := c => Exact(c);
    var q := (ss: Servers, n: nat, cs: seq<Command>, crashed: bool) => AllAuthentic(env, ss);
    forall s: State, c: Command | !s.crashed && kind(c) && Has(q, s) ensures Has(q, Done(env, s, c)) {
      DoneIsAuthentic(env, s, c);
    }
    RunHas(env, kind, q, servers, es);
  }

  // ----- null pointers -----

  /** The command names a server that is not registered: the lookup leaves a null pointer behind. */
  predicate Misses(servers: Servers, c: Command) {
    !c.Broadcast? && !Registered(servers, c.request.target)
  }

  /** There was a null pointer from the start, or one of these commands left one. */
  ghost predicate NullAmong(servers: Servers, cs: seq<Command>) {
    HasNull(servers) || exists c | c in cs :: Misses(servers, c)
  }

  /** Some broadcast came when there was a null pointer. */
  ghost predicate BroadcastHitsNull(servers: Servers, cs: seq<Command>) {
    exists i :: 0 <= i < |cs| && HitsNullAt(servers, cs, i)
  }

  ghost predicate HitsNullAt(servers: Servers, cs: seq<Command>, i: nat)
    requires i < |cs|
  {
    cs[i].Broadcast? && NullAmong(servers, cs[..i])
  }

  /** How the servers stand after the given commands, compared with the servers at the start. */
  ghost predicate ServersAre(start: Servers, servers: Servers, cs: seq<Command>, crashed: bool) {
    && (forall t :: Registered(servers, t) <==> Registered(start, t))
    && (HasNull(servers) <==> NullAmong(start, cs))
    && (crashed <==> BroadcastHitsNull(start, cs))
  }

  lemma NullAmongNext(start: Servers, cs: seq<Command>, c: Command)
    ensures NullAmong(start, cs + [c]) <==> NullAmong(start, cs) || Misses(start, c)
  {
    hide Misses, HasNull;
    assert forall x :: x in cs + [c] <==> x in cs || x == c;
  }

  lemma BroadcastHitsNext(start: Servers, cs: seq<Command>, c: Command)
    ensures BroadcastHitsNull(start, cs + [c]) <==>
            BroadcastHitsNull(start, cs) || (c.Broadcast? && NullAmong(start, cs))
  {
    var all, n := cs + [c], |cs|;
    forall i | 0 <= i < n ensures HitsNullAt(start, all, i) == HitsNullAt(start, cs, i) {
      hide NullAmong;
      assert all[i] == cs[i] && all[..i] == cs[..i];
    }
    assert HitsNullAt(start, all, n) <==> c.Broadcast? && NullAmong(start, cs) by {
      hide NullAmong;
      assert all[n] == c && all[..n] == cs;
    }
    hide HitsNullAt, NullAmong;
    if BroadcastHitsNull(start, cs) {
      var i :| 0 <= i < n && HitsNullAt(start, cs, i);
      assert HitsNullAt(start, all, i);
    }
  }

  lemma TransmittedServers(servers: Servers, target: Str, line: Str)
    ensures forall t :: Registered(Transmitted(servers, target, line), t) <==> Registered(servers, t)
    ensures HasNull(Transmitted(servers, target, line)) <==> HasNull(servers) || !Registered(servers, target)
  {
    var after := Transmitted(servers, target, line);
    if Registered(servers, target) {
      if t :| t in servers && servers[t].None? { assert t in after && after[t].None?; }
    } else {
      assert target in after && after[target].None?;
    }
  }

  lemma EverywhereServers(servers: Servers, line: Str)
    ensures forall t :: Registered(Everywhere(servers, line), t) <==> Registered(servers, t)
    ensures HasNull(Everywhere(servers, line)) <==> HasNull(servers)
  {
    var after := Everywhere(servers, line);
    if t :| t in servers && servers[t].None? { assert t in after && after[t].None?; }
  }

  lemma DoneServers(start: Servers, env: Env, s: State, c: Command)
    requires !s.crashed && ServersAre(start, s.servers, s.commands, s.crashed)
    ensures var t := Done(env, s, c); ServersAre(start, t.servers, t.commands, t.crashed)
  {
    hide Transmitted, Everywhere, Registered, HasNull, NullAmong, BroadcastHitsNull, Line, CallMessage;
    NullAmongNext(start, s.commands, c);
    BroadcastHitsNext(start, s.commands, c);
    match c {
      case Notice(r, now) =>
        TransmittedServers(s.servers, r.target, Line(env, CallMessage(None, r.name, r.args), now));
      case Broadcast(name, args, now) =>
        EverywhereServers(s.servers, Line(env, CallMessage(None, name, args), now));
      case Call(r, now) =>
        TransmittedServers(s.servers, r.target, Line(env, CallMessage(Some(env.uuid(s.drawn)), r.name, r.args), now));
    }
  }

  /** A run meets a null pointer exactly if a broadcast came after a command for a server that is not
      registered, or there was one from the start; and then, and only then, there are null pointers. Servers
      stay registered as they were. */
  lemma WhenNullIsMet(env: Env, servers: Servers, es: seq<Event>)
    ensures var s := Run(env, servers, es);
      && (s.crashed <==> BroadcastHitsNull(servers, s.commands))
      && (HasNull(s.servers) <==> NullAmong(servers, s.commands))
      && (forall t :: Registered(s.servers, t) <==> Registered(servers, t))
  {
    hide ServersAre, Run, Done, NullAmong, BroadcastHitsNull;
    var kind := (c: Command) => true;
    var q := (ss: Servers, n: nat, cs: seq<Command>, crashed: bool) => ServersAre(servers, ss, cs, crashed);
    forall s: State, c: Command | !s.crashed && kind(c) && Has(q, s) ensures Has(q, Done(env, s, c)) {
      DoneServers(servers, env, s, c);
    }
    StartServers(servers);
    RunHas(env, kind, q, servers, es);
    ServersAreSo(servers, Run(env, servers, es));
  }

  lemma ServersAreSo(start: Servers, s: State)
    requires ServersAre(start, s.servers, s.commands, s.crashed)
    ensures s.crashed <==> BroadcastHitsNull(start, s.commands)
    ensures HasNull(s.servers) <==> NullAmong(start, s.commands)
    ensures forall t :: Registered(s.servers, t) <==> Registered(start, t)
  {
  }

  lemma StartServers(servers: Servers)
    ensures ServersAre(servers, servers, [], false)
  {
  }

  /** In particular no run ends early if every server that is named is registered. */
  lemma NamedServersSuffice(env: Env, servers: Servers, es: seq<Event>)
    requires !HasNull(servers) && Only(env, c => !Misses(servers, c), es)
    ensures !Run(env, servers, es).crashed && !HasNull(Run(env, servers, es).servers)
  {
    hide ServersAre, Run, Done, HasNull;
    var kind := c => !Misses(servers, c);
    var q := (ss: Servers, n: nat, cs: seq<Command>, crashed: bool) => forall c | c in cs :: !Misses(servers, c);
    forall s: State, c: Command | !s.crashed && kind(c) && Has(q, s) ensures Has(q, Done(env, s, c)) {
      CommandsGrow(env, s, c);
    }
    RunHas(env, kind, q, servers, es) by { StartsWithoutCommands(servers); }
    WhenNullIsMet(env, servers, es);
    var cs := Run(env, servers, es).commands;
    forall i | 0 <= i <= |cs| ensures !NullAmong(servers, cs[..i]) {
      assert forall c | c in cs[..i] :: c in cs;
    }
    assert cs[..|cs|] == cs;
  }

  lemma CommandsGrow(env: Env, s: State, c: Command)
    ensures Done(env, s, c).commands == s.commands + [c]
  {
  }

  lemma StartsWithoutCommands(servers: Servers)
    ensures Initial(servers).commands == []
  {
  }

  // ----- every line arrives at its server once, in order -----

  /** How many calls there are: as many identifiers have been drawn. */
  ghost function CallsIn(cs: seq<Command>): nat {
    if cs == [] then 0 else CallsIn(cs[..|cs| - 1]) + (if cs[|cs| - 1].Call? then 1 else 0)
  }

  /** What a command hands to a server, with the given number of identifiers drawn before. */
  ghost function LineFor(env: Env, drawn: nat, c: Command, target: Str): seq<Str> {
    match c
    case Call(r, now) =>
      if r.target == target then [Line(env, CallMessage(Some(env.uuid(drawn)), r.name, r.args), now)] else []
    case Notice(r, now) =>
      if r.target == target then [Line(env, CallMessage(None, r.name, r.args), now)] else []
    case Broadcast(name, args, now) => [Line(env, CallMessage(None, name, args), now)]
  }

  ghost function LinesFor(env: Env, cs: seq<Command>, target: Str): seq<Str> {
    if cs == [] then [] else
      var init := cs[..|cs| - 1];
      LinesFor(env, init, target) + LineFor(env, CallsIn(init), cs[|cs| - 1], target)
  }

  ghost predicate LinesAre(env: Env, start: Servers, servers: Servers, drawn: nat, cs: seq<Command>, crashed: bool) {
    && drawn == CallsIn(cs)
    && (!crashed ==>
          forall t | Registered(start, t) ::
            Registered(servers, t) && servers[t].value == start[t].value + LinesFor(env, cs, t))
  }

  lemma DoneLines(start: Servers, env: Env, s: State, c: Command)
    requires !s.crashed && LinesAre(env, start, s.servers, s.drawn, s.commands, s.crashed)
    ensures var t := Done(env, s, c); LinesAre(env, start, t.servers, t.drawn, t.commands, t.crashed)
  {
    CommandsGrow(env, s, c);
    DrawnGrows(env, s, c);
    var t := Done(env, s, c);
    hide Done, LinesFor, LineFor, CallsIn;
    if !t.crashed {
      forall x | Registered(start, x)
        ensures Registered(t.servers, x) && t.servers[x].value == start[x].value + LinesFor(env, t.commands, x)
      {
        DoneLine(env, s, c, x);
        LinesForNext(env, s.commands, c, x);
        Regroup(start[x].value, LinesFor(env, s.commands, x), LineFor(env, s.drawn, c, x));
      }
    }
  }

  lemma Regroup<T>(a: seq<T>, b: seq<T>, c: seq<T>)
    ensures a + b + c == a + (b + c)
  {
  }

  lemma LinesForNext(env: Env, cs: seq<Command>, c: Command, target: Str)
    ensures LinesFor(env, cs + [c], target) == LinesFor(env, cs, target) + LineFor(env, CallsIn(cs), c, target)
  {
    hide LineFor, CallsIn;
    assert (cs + [c])[..|cs|] == cs;
  }

  lemma DrawnGrows(env: Env, s: State, c: Command)
    requires s.drawn == CallsIn(s.commands)
    ensures Done(env, s, c).drawn == CallsIn(s.commands + [c])
  {
    hide Line, CallMessage, HasNull, Transmitted, Everywhere;
    assert (s.commands + [c])[..|s.commands|] == s.commands;
  }

  /** What one command does to one registered server. */
  lemma DoneLine(env: Env, s: State, c: Command, t: Str)
    requires Registered(s.servers, t) && !Done(env, s, c).crashed
    ensures Registered(Done(env, s, c).servers, t)
    ensures Done(env, s, c).servers[t].value == s.servers[t].value + LineFor(env, s.drawn, c, t)
  {
    hide Line, CallMessage, HasNull;
    assert s.servers[t].value + [] == s.servers[t].value;
  }

  /** Over every run that meets no null pointer, each registered server has been handed exactly the lines of
      the calls and notifications for it and of the broadcasts, once each and in order, each call under the
      next identifier. */
  lemma LinesArriveInOrder(env: Env, servers: Servers, es: seq<Event>)
    ensures var s := Run(env, servers, es);
      && s.drawn == CallsIn(s.commands)
      && (!s.crashed ==>
            forall t | Registered(servers, t) ::
              Registered(s.servers, t) && s.servers[t].value == servers[t].value + LinesFor(env, s.commands, t))
  {
    hide LinesAre, Run, Done, LinesFor, CallsIn;
    var kind := (c: Command) => true;
    var q := (ss: Servers, n: nat, cs: seq<Command>, crashed: bool) => LinesAre(env, servers, ss, n, cs, crashed);
    forall s: State, c: Command | !s.crashed && kind(c) && Has(q, s) ensures Has(q, Done(env, s, c)) {
      DoneLines(servers, env, s, c);
    }
    StartLines(env, servers);
    RunHas(env, kind, q, servers, es);
    LinesAreSo(env, servers, Run(env, servers, es));
  }

  lemma StartLines(env: Env, servers: Servers)
    ensures LinesAre(env, servers, servers, 0, [], false)
  {
    forall t | Registered(servers, t) ensures servers[t].value == servers[t].value + LinesFor(env, [], t) {
    }
  }

  lemma LinesAreSo(env: Env, start: Servers, s: State)
    requires LinesAre(env, start, s.servers, s.drawn, s.commands, s.crashed)
    ensures s.drawn == CallsIn(s.commands)
    ensures !s.crashed ==>
              forall t | Registered(start, t) ::
                Registered(s.servers, t) && s.servers[t].value == start[t].value + LinesFor(env, s.commands, t)
  {
  }
}
