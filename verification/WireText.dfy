/** The lines of the protocol, byte by byte. */
module WireText {
  import opened Bytes
  import opened Json
  import opened Printer
  import opened Message
  import opened Requests
  import opened Conversation
  import Names

  // ----- the fixed parts of a line -----

  const FIRST_ID: Str := Ascii("{\"id\":")
  const FIRST_ERROR: Str := Ascii("{\"error\":")
  const FIRST_CODE: Str := Ascii("{\"code\":")
  const AND_ID: Str := Ascii(",\"id\":")
  const AND_VERSION: Str := Ascii(",\"jsonrpc\":\"2.0\"")
  const AND_METHOD: Str := Ascii(",\"method\":")
  const AND_PARAMS: Str := Ascii(",\"params\":")
  const AND_SIG: Str := Ascii(",\"sig\":")
  const AND_TIMESTAMP: Str := Ascii(",\"timestamp\":")
  const AND_RESULT: Str := Ascii(",\"result\":")
  const AND_MESSAGE: Str := Ascii(",\"message\":")
  const VERSION_TEXT: Str := Ascii("\"2.0\"")

  // ----- compact objects -----

  /** No byte is escaped. */
  predicate Plain(s: Str) {
    forall i | 0 <= i < |s| :: s[i] >= 0x20 && s[i] != QUOTE && s[i] != BACKSLASH
  }

  lemma {:induction false} PlainText(s: Str)
    requires Plain(s)
    ensures EscapedText(s) == s
  {
    if s != [] {
      PlainText(s[1..]);
      assert s == [s[0]] + s[1..];
    }
  }

  /** A member in compact text, behind what was written before. */
  function Member(before: Str, key: Str, value: Json): Str {
    before + ((if before == [] then [LBRACE] else [COMMA]) + ([QUOTE] + key + [QUOTE, COLON]) + Compact(value))
  }

  /** Members in the order of the given keys. */
  function Written(ks: seq<Str>, m: map<Str, Json>): Str
    requires forall k | k in ks :: k in m
  {
    if ks == [] then [] else Member(Written(ks[..|ks| - 1], m), ks[|ks| - 1], m[ks[|ks| - 1]])
  }

  predicate AllPlain(ks: seq<Str>) {
    forall k | k in ks :: Plain(k)
  }

  lemma {:induction false} WrittenIs(j: Json, ks: seq<Str>, n: nat)
    requires j.Obj? && 0 < n <= |ks| && AllPlain(ks) && forall k | k in ks :: k in j.members
    ensures Written(ks[..n], j.members) == [LBRACE] + MembersText(j, ks, n, Layout(false, 0), 0)
    decreases n
  {
    hide ValueText, EscapedText;
    var k := ks[n - 1];
    var text := ValueText(j.members[k], Layout(false, 0), 0);
    assert k in ks;
    PlainText(k);
    assert ks[..n][..n - 1] == ks[..n - 1] && ks[..n][n - 1] == k;
    assert KeyLead(n == 1, k, Layout(false, 0), 0) == (if n == 1 then [] else [COMMA]) + ([QUOTE] + k + [QUOTE, COLON]);
    if n == 1 {
      assert ks[..0] == [];
      Regroup([LBRACE], [], [QUOTE] + k + [QUOTE, COLON], text);
    } else {
      WrittenIs(j, ks, n - 1);
      Grow([LBRACE], MembersText(j, ks, n - 1, Layout(false, 0), 0), [COMMA] + ([QUOTE] + k + [QUOTE, COLON]), text);
    }
  }

  lemma Regroup(a: Str, none: Str, b: Str, c: Str)
    requires none == []
    ensures none + (a + b + c) == a + (none + ((none + b) + c))
  {
  }

  lemma Grow(a: Str, b: Str, c: Str, d: Str)
    ensures (a + b) + (c + d) == a + (b + (c + d))
  {
  }

  /** An object is written in the order of its keys. */
  lemma ObjectIsWritten(m: map<Str, Json>, ks: seq<Str>)
    requires ks != [] && Ascending(ks) && AllPlain(ks) && forall k :: k in ks <==> k in m
    ensures Compact(Obj(m)) == Written(ks, m) + [RBRACE]
  {
    hide LexLt, Ascending, MembersText, AllPlain;
    AscendingIsUnique(SortedKeys(m.Keys), ks);
    assert ks[0] in m;
    WrittenIs(Obj(m), ks, |ks|);
    assert ks[..|ks|] == ks;
    Close([LBRACE], MembersText(Obj(m), ks, |ks|, Layout(false, 0), 0), [RBRACE]);
  }

  lemma Close(a: Str, b: Str, c: Str)
    ensures a + [] + b + [] + [] + c == a + b + c
  {
  }

  // ----- the lines -----

  /** What is digested for a request and for a reply. */
  function RequestDigested(id: Json, name: Str, params: Json, timestamp: Json): Str {
    VERSION_TEXT + Compact(Text(name)) + Compact(params) + Compact(timestamp) + Compact(id)
  }

  function ReplyDigested(id: Json, result: Json): Str {
    VERSION_TEXT + Compact(id) + Compact(result)
  }

  lemma VersionText()
    ensures Compact(Text(VERSION)) == VERSION_TEXT
  {
    PlainText(VERSION);
  }

  lemma RequestKeysAreSorted()
    ensures Ascending([ID, JSONRPC, METHOD, PARAMS, SIG, TIMESTAMP])
    ensures AllPlain([ID, JSONRPC, METHOD, PARAMS, SIG, TIMESTAMP])
  {
  }

  lemma ReplyKeysAreSorted()
    ensures Ascending([ID, JSONRPC, RESULT, SIG]) && AllPlain([ID, JSONRPC, RESULT, SIG])
  {
  }

  lemma ErrorKeysAreSorted()
    ensures Ascending([ERROR, ID, JSONRPC]) && AllPlain([ERROR, ID, JSONRPC])
    ensures Ascending([CODE, MESSAGE]) && AllPlain([CODE, MESSAGE])
  {
  }

  lemma FirstTexts()
    ensures [LBRACE] + ([QUOTE] + ID + [QUOTE, COLON]) == FIRST_ID
    ensures [LBRACE] + ([QUOTE] + ERROR + [QUOTE, COLON]) == FIRST_ERROR
    ensures [LBRACE] + ([QUOTE] + CODE + [QUOTE, COLON]) == FIRST_CODE
  {
  }

  lemma RequestTexts()
    ensures [COMMA] + ([QUOTE] + METHOD + [QUOTE, COLON]) == AND_METHOD
    ensures [COMMA] + ([QUOTE] + PARAMS + [QUOTE, COLON]) == AND_PARAMS
    ensures [COMMA] + ([QUOTE] + TIMESTAMP + [QUOTE, COLON]) == AND_TIMESTAMP
  {
  }

  lemma OtherTexts()
    ensures [COMMA] + ([QUOTE] + ID + [QUOTE, COLON]) == AND_ID
    ensures [COMMA] + ([QUOTE] + SIG + [QUOTE, COLON]) == AND_SIG
    ensures [COMMA] + ([QUOTE] + RESULT + [QUOTE, COLON]) == AND_RESULT
    ensures [COMMA] + ([QUOTE] + MESSAGE + [QUOTE, COLON]) == AND_MESSAGE
  {
  }

  lemma WrittenNext(ks: seq<Str>, k: Str, m: map<Str, Json>, before: Str)
    requires forall x | x in ks + [k] :: x in m
    requires Written(ks, m) == before
    ensures k in m && Written(ks + [k], m) == Member(before, k, m[k])
  {
    assert (ks + [k])[..|ks|] == ks;
    assert k in ks + [k];
  }

  /** A first member, and one behind others. */
  lemma MemberFirst(lead: Str, key: Str, value: Json)
    requires [LBRACE] + ([QUOTE] + key + [QUOTE, COLON]) == lead
    ensures Member([], key, value) == lead + Compact(value)
  {
    hide Compact;
    assert [] + (lead + Compact(value)) == lead + Compact(value);
  }

  lemma MemberLater(before: Str, lead: Str, key: Str, value: Json)
    requires before != [] && [COMMA] + ([QUOTE] + key + [QUOTE, COLON]) == lead
    ensures Member(before, key, value) == before + lead + Compact(value)
  {
    hide Compact;
    assert before + (lead + Compact(value)) == before + lead + Compact(value);
  }

  /** Six members. */
  lemma WrittenSix(m: map<Str, Json>, a: Str, b: Str, c: Str, d: Str, e: Str, f: Str)
    requires m.Keys == {a, b, c, d, e, f}
    ensures Written([a, b, c, d, e, f], m) ==
            Member(Member(Member(Member(Member(Member([], a, m[a]), b, m[b]), c, m[c]), d, m[d]), e, m[e]), f, m[f])
  {
    hide Written, Member;
    NoneWritten(m);
    WrittenNext([], a, m, []);
    WrittenNext([a], b, m, Written([a], m));
    WrittenNext([a, b], c, m, Written([a, b], m));
    WrittenNext([a, b, c], d, m, Written([a, b, c], m));
    WrittenNext([a, b, c, d], e, m, Written([a, b, c, d], m));
    WrittenNext([a, b, c, d, e], f, m, Written([a, b, c, d, e], m));
    assert [] + [a] == [a] && [a] + [b] == [a, b] && [a, b] + [c] == [a, b, c] && [a, b, c] + [d] == [a, b, c, d];
    assert [a, b, c, d] + [e] == [a, b, c, d, e] && [a, b, c, d, e] + [f] == [a, b, c, d, e, f];
  }

  lemma WrittenFour(m: map<Str, Json>, a: Str, b: Str, c: Str, d: Str)
    requires m.Keys == {a, b, c, d}
    ensures Written([a, b, c, d], m) == Member(Member(Member(Member([], a, m[a]), b, m[b]), c, m[c]), d, m[d])
  {
    hide Written, Member;
    NoneWritten(m);
    WrittenNext([], a, m, []);
    WrittenNext([a], b, m, Written([a], m));
    WrittenNext([a, b], c, m, Written([a, b], m));
    WrittenNext([a, b, c], d, m, Written([a, b, c], m));
    assert [] + [a] == [a] && [a] + [b] == [a, b] && [a, b] + [c] == [a, b, c] && [a, b, c] + [d] == [a, b, c, d];
  }

  lemma NoneWritten(m: map<Str, Json>)
    ensures Written([], m) == []
  {
  }

  /** The line of a call: six members in the order of their keys, an absent identifier or argument list as
      null, and a signature over five of them in another order. */
  lemma CallLine(env: Env, id: Option<Str>, name: Str, args: Option<Json>, now: int64)
    ensures var sig := env.digest(RequestDigested(IdOf(id), name, OrNull(args), Int(now)), env.key);
      Line(env, CallMessage(id, name, args), now) ==
      FIRST_ID + Compact(IdOf(id)) + AND_VERSION + AND_METHOD + Compact(Text(name))
      + AND_PARAMS + Compact(OrNull(args)) + AND_SIG + Compact(Text(sig))
      + AND_TIMESTAMP + Compact(Int(now)) + [RBRACE]
  {
    hide Compact, Ascii, Written, Member, Plain, Ascending;
    var req := CallMessage(id, name, args);
    var m := SignedRequest(env.digest, env.key, req, now).members;
    SignedMembers(env, id, name, args, now);
    RequestKeysAreSorted();
    ObjectIsWritten(m, [ID, JSONRPC, METHOD, PARAMS, SIG, TIMESTAMP]);
    WrittenSix(m, ID, JSONRPC, METHOD, PARAMS, SIG, TIMESTAMP);
    SixTexts(m[ID], m[METHOD], m[PARAMS], m[SIG], m[TIMESTAMP]);
  }

  lemma SixTexts(id: Json, name: Json, params: Json, sig: Json, timestamp: Json)
    ensures Member(Member(Member(Member(Member(Member([], ID, id), JSONRPC, Text(VERSION)), METHOD, name),
                                 PARAMS, params), SIG, sig), TIMESTAMP, timestamp) ==
            FIRST_ID + Compact(id) + AND_VERSION + AND_METHOD + Compact(name)
            + AND_PARAMS + Compact(params) + AND_SIG + Compact(sig)
            + AND_TIMESTAMP + Compact(timestamp)
  {
    hide Compact, Ascii, Member;
    FirstTexts();
    RequestTexts();
    OtherTexts();
    var a := FIRST_ID + Compact(id);
    MemberFirst(FIRST_ID, ID, id);
    var b := a + AND_VERSION;
    VersionLater(a);
    var c := b + AND_METHOD + Compact(name);
    MemberLater(b, AND_METHOD, METHOD, name);
    var d := c + AND_PARAMS + Compact(params);
    MemberLater(c, AND_PARAMS, PARAMS, params);
    var e := d + AND_SIG + Compact(sig);
    MemberLater(d, AND_SIG, SIG, sig);
    MemberLater(e, AND_TIMESTAMP, TIMESTAMP, timestamp);
  }

  lemma VersionLater(before: Str)
    requires before != []
    ensures Member(before, JSONRPC, Text(VERSION)) == before + AND_VERSION
  {
    hide Compact;
    VersionText();
    var lead := [COMMA] + ([QUOTE] + JSONRPC + [QUOTE, COLON]);
    assert lead + VERSION_TEXT == AND_VERSION;
    MemberLater(before, lead, JSONRPC, Text(VERSION));
    assert before + lead + VERSION_TEXT == before + (lead + VERSION_TEXT);
  }

  lemma SignedMembers(env: Env, id: Option<Str>, name: Str, args: Option<Json>, now: int64)
    ensures var m := SignedRequest(env.digest, env.key, CallMessage(id, name, args), now).members;
      && m.Keys == {ID, JSONRPC, METHOD, PARAMS, SIG, TIMESTAMP}
      && m[ID] == IdOf(id) && m[JSONRPC] == Text(VERSION) && m[METHOD] == Text(name) && m[PARAMS] == OrNull(args)
      && m[TIMESTAMP] == Int(now)
      && m[SIG] == Text(env.digest(RequestDigested(IdOf(id), name, OrNull(args), Int(now)), env.key))
  {
    var call := CallMessage(id, name, args);
    KeysDiffer();
    CallMessageMembers(id, name, args);
    assert Get(call, JSONRPC) == Text(VERSION);
    hide RequestText, RequestDigested, Get, Set, WithNulls, CallMessage, SIGNED_IN_REQUEST;
    var stamped := Set(call, TIMESTAMP, Int(now));
    var signed := SignedRequest(env.digest, env.key, call, now);
    RequestTextIs(stamped, id, name, args, now);
    SignedKeys(env, id, name, args, now);
    assert forall k | k != SIG :: Get(signed, k) == Get(stamped, k);
    forall k | k in signed.members ensures signed.members[k] == Get(signed, k) { MemberIsGot(signed, k); }
  }

  lemma MemberIsGot(j: Json, k: Str)
    requires j.Obj? && k in j.members
    ensures j.members[k] == Get(j, k)
  {
  }

  lemma SignedKeys(env: Env, id: Option<Str>, name: Str, args: Option<Json>, now: int64)
    ensures SignedRequest(env.digest, env.key, CallMessage(id, name, args), now).members.Keys ==
            {ID, JSONRPC, METHOD, PARAMS, SIG, TIMESTAMP}
  {
    hide RequestText;
  }

  lemma RequestTextIs(j: Json, id: Option<Str>, name: Str, args: Option<Json>, now: int64)
    requires j.Obj? && Get(j, JSONRPC) == Text(VERSION) && Get(j, METHOD) == Text(name)
    requires Get(j, PARAMS) == OrNull(args) && Get(j, TIMESTAMP) == Int(now) && Get(j, ID) == IdOf(id)
    ensures RequestText(j) == RequestDigested(IdOf(id), name, OrNull(args), Int(now))
  {
    hide Compact, Get;
    VersionText();
  }

  /** The line of a result. */
  lemma ResultLine(digest: Digest, key: Str, id: Json, result: Json)
    ensures Compact(SignedReply(digest, key, id, result)) ==
            FIRST_ID + Compact(id) + AND_VERSION + AND_RESULT + Compact(result)
            + AND_SIG + Compact(Text(digest(ReplyDigested(id, result), key))) + [RBRACE]
  {
    hide Compact, Ascii, Written, Member, Plain, Ascending;
    var m := SignedReply(digest, key, id, result).members;
    ReplyMembers(digest, key, id, result);
    ReplyKeysAreSorted();
    ObjectIsWritten(m, [ID, JSONRPC, RESULT, SIG]);
    WrittenFour(m, ID, JSONRPC, RESULT, SIG);
    FourTexts(id, result, m[SIG]);
  }

  lemma ReplyMembers(digest: Digest, key: Str, id: Json, result: Json)
    ensures var m := SignedReply(digest, key, id, result).members;
      && m.Keys == {ID, JSONRPC, RESULT, SIG}
      && m[ID] == id && m[JSONRPC] == Text(VERSION) && m[RESULT] == result
      && m[SIG] == Text(digest(ReplyDigested(id, result), key))
  {
    hide Compact, Ascii;
    VersionText();
    KeysDiffer();
  }

  lemma FourTexts(id: Json, result: Json, sig: Json)
    ensures Member(Member(Member(Member([], ID, id), JSONRPC, Text(VERSION)), RESULT, result), SIG, sig) ==
            FIRST_ID + Compact(id) + AND_VERSION + AND_RESULT + Compact(result)
            + AND_SIG + Compact(sig)
  {
    hide Compact, Ascii, Member;
    FirstTexts();
    OtherTexts();
    var a := FIRST_ID + Compact(id);
    MemberFirst(FIRST_ID, ID, id);
    var b := a + AND_VERSION;
    VersionLater(a);
    var c := b + AND_RESULT + Compact(result);
    MemberLater(b, AND_RESULT, RESULT, result);
    MemberLater(c, AND_SIG, SIG, sig);
  }

  /** The line of an error. */
  lemma ErrorLine(code: int64, message: Str, id: Json)
    ensures Compact(ErrorReply(code, message, id)) ==
            FIRST_ERROR + (FIRST_CODE + Compact(Int(code)) + AND_MESSAGE
                                    + Compact(Text(message)) + [RBRACE])
            + AND_ID + Compact(id) + AND_VERSION + [RBRACE]
  {
    hide Compact, Ascii, Written, Member, Plain, Ascending;
    var m := ErrorReply(code, message, id).members;
    var inner := m[ERROR].members;
    KeysDiffer();
    ErrorKeysAreSorted();
    FirstTexts();
    OtherTexts();
    ObjectIsWritten(inner, [CODE, MESSAGE]);
    WrittenTwo(inner, CODE, MESSAGE);
    MemberFirst(FIRST_CODE, CODE, Int(code));
    MemberLater(FIRST_CODE + Compact(Int(code)), AND_MESSAGE, MESSAGE, Text(message));
    ObjectIsWritten(m, [ERROR, ID, JSONRPC]);
    WrittenThree(m, ERROR, ID, JSONRPC);
    var a := FIRST_ERROR + Compact(m[ERROR]);
    MemberFirst(FIRST_ERROR, ERROR, m[ERROR]);
    MemberLater(a, AND_ID, ID, id);
    VersionLater(a + AND_ID + Compact(id));
  }

  lemma WrittenTwo(m: map<Str, Json>, a: Str, b: Str)
    requires m.Keys == {a, b}
    ensures Written([a, b], m) == Member(Member([], a, m[a]), b, m[b])
  {
    hide Written, Member;
    NoneWritten(m);
    WrittenNext([], a, m, []);
    WrittenNext([a], b, m, Written([a], m));
    assert [] + [a] == [a] && [a] + [b] == [a, b];
  }

  lemma WrittenThree(m: map<Str, Json>, a: Str, b: Str, c: Str)
    requires m.Keys == {a, b, c}
    ensures Written([a, b, c], m) == Member(Member(Member([], a, m[a]), b, m[b]), c, m[c])
  {
    hide Written, Member;
    NoneWritten(m);
    WrittenNext([], a, m, []);
    WrittenNext([a], b, m, Written([a], m));
    WrittenNext([a, b], c, m, Written([a, b], m));
    assert [] + [a] == [a] && [a] + [b] == [a, b] && [a, b] + [c] == [a, b, c];
  }

  /** What is digested to check a reply: three of its members, in this order, a missing one as null. */
  lemma ReplyTextIs(j: Json)
    requires j.Obj?
    ensures ReplyText(j) ==
            Compact(Get(j, Ascii("jsonrpc"))) + Compact(Get(j, Ascii("id"))) + Compact(Get(j, Ascii("result")))
  {
    hide Compact, Ascii;
    Names.MessageMembers();
  }
}
