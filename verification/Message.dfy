/** The messages of the RPC protocol: their members, and what is signed. */
module Message {
  import opened Bytes
  import opened Json
  import opened Printer
  import opened Parser
  import opened RoundTrip

  const JSONRPC: Str := [0x6A, 0x73, 0x6F, 0x6E, 0x72, 0x70, 0x63]                // "jsonrpc"
  const METHOD: Str := [0x6D, 0x65, 0x74, 0x68, 0x6F, 0x64]                       // "method"
  const PARAMS: Str := [0x70, 0x61, 0x72, 0x61, 0x6D, 0x73]                       // "params"
  const TIMESTAMP: Str := [0x74, 0x69, 0x6D, 0x65, 0x73, 0x74, 0x61, 0x6D, 0x70]  // "timestamp"
  const ID: Str := [0x69, 0x64]                                                   // "id"
  const SIG: Str := [0x73, 0x69, 0x67]                                            // "sig"
  const RESULT: Str := [0x72, 0x65, 0x73, 0x75, 0x6C, 0x74]                       // "result"
  const ERROR: Str := [0x65, 0x72, 0x72, 0x6F, 0x72]                              // "error"
  const CODE: Str := [0x63, 0x6F, 0x64, 0x65]                                     // "code"
  const MESSAGE: Str := [0x6D, 0x65, 0x73, 0x73, 0x61, 0x67, 0x65]                // "message"
  const VERSION: Str := [0x32, 0x2E, 0x30]                                        // "2.0"

  lemma KeysDiffer()
    ensures var ks := [JSONRPC, METHOD, PARAMS, TIMESTAMP, ID, SIG, RESULT, ERROR];
      forall i, j | 0 <= i < j < |ks| :: ks[i] != ks[j]
    ensures CODE != MESSAGE
  {
    assert METHOD[0] != PARAMS[0] && METHOD[0] != RESULT[0] && PARAMS[0] != RESULT[0];
  }

  // ----- operator[] with a key -----

  /** A value that may be indexed with a key: a null value becomes an object. Any other value throws
      std::domain_error. */
  predicate Keyed(j: Json) {
    j.Null? || j.Obj?
  }

  function Members(j: Json): map<Str, Json>
    requires Keyed(j)
  {
    if j.Null? then map[] else j.members
  }

  /** What a read through operator[] sees: a missing member reads as null. */
  function Get(j: Json, k: Str): Json
    requires Keyed(j)
  {
    if k in Members(j) then Members(j)[k] else Null
  }

  /** The assignment j[k] = v. */
  function Set(j: Json, k: Str, v: Json): (r: Json)
    requires Keyed(j)
    ensures r.Obj? && Get(r, k) == v && forall x | x != k :: Get(r, x) == Get(j, x)
  {
    Obj(Members(j)[k := v])
  }

  /** The value behind a read of j[k]: the member is inserted if it was missing. */
  function Touch(j: Json, k: Str): (r: Json)
    requires Keyed(j)
    ensures r.Obj? && k in r.members && Members(j).Keys <= r.members.Keys && forall x :: Get(r, x) == Get(j, x)
  {
    Set(j, k, Get(j, k))
  }

  /** The value with the given members inserted as null where they were missing. */
  function WithNulls(j: Json, ks: set<Str>): (r: Json)
    requires Keyed(j)
    ensures r.Obj? && r.members.Keys == Members(j).Keys + ks && forall k :: Get(r, k) == Get(j, k)
  {
    Obj(map k | k in Members(j).Keys + ks :: Get(j, k))
  }

  /** Reading members one after the other inserts all of them; nothing else changes. */
  lemma TouchAdds(j: Json, ks: set<Str>, k: Str)
    requires Keyed(j)
    ensures Touch(WithNulls(j, ks), k) == WithNulls(j, ks + {k})
  {
    hide Get;
    var a, b := Touch(WithNulls(j, ks), k).members, WithNulls(j, ks + {k}).members;
    assert a.Keys == b.Keys;
    forall x | x in a ensures a[x] == b[x] {
      assert b[x] == Get(j, x);
      if x != k { assert a[x] == WithNulls(j, ks).members[x]; }
    }
    assert a == b;
  }

  lemma TouchFirst(j: Json, k: Str)
    requires Keyed(j)
    ensures Touch(j, k) == WithNulls(j, {k})
  {
    assert Touch(j, k).members == WithNulls(j, {k}).members;
  }

  lemma GetNorm(j: Json, k: Str)
    requires Keyed(j)
    ensures Keyed(Norm(j)) && Get(Norm(j), k) == Norm(Get(j, k))
  {
  }

  lemma SetFloatFree(j: Json, k: Str, v: Json)
    requires Keyed(j) && j.FloatFree() && v.FloatFree()
    ensures Set(j, k, v).FloatFree()
  {
  }

  lemma WithNullsFloatFree(j: Json, ks: set<Str>)
    requires Keyed(j) && j.FloatFree()
    ensures WithNulls(j, ks).FloatFree()
  {
    var r := WithNulls(j, ks);
    forall k | k in r.members ensures r.members[k].FloatFree() {
      assert r.members[k] == Get(j, k);
    }
  }

  // ----- signatures -----

  /** The members that the signature of a request covers; reading them inserts them. */
  const SIGNED_IN_REQUEST: set<Str> := {JSONRPC, METHOD, PARAMS, TIMESTAMP, ID}
  const SIGNED_IN_REPLY: set<Str> := {JSONRPC, ID, RESULT}

  /** What is digested for a request: the compact texts of its members, put together. */
  function RequestText(j: Json): Str
    requires Keyed(j)
  {
    Compact(Get(j, JSONRPC)) + Compact(Get(j, METHOD)) + Compact(Get(j, PARAMS)) + Compact(Get(j, TIMESTAMP))
    + Compact(Get(j, ID))
  }

  function ReplyText(j: Json): Str
    requires Keyed(j)
  {
    Compact(Get(j, JSONRPC)) + Compact(Get(j, ID)) + Compact(Get(j, RESULT))
  }

  /** HMAC, as a function of the message and the key. */
  type Digest = (Str, Str) -> Str

  predicate RequestIsAuthentic(digest: Digest, key: Str, j: Json)
    requires Keyed(j)
  {
    Get(j, SIG) == Text(digest(RequestText(j), key))
  }

  predicate ReplyIsAuthentic(digest: Digest, key: Str, j: Json)
    requires Keyed(j)
  {
    Get(j, SIG) == Text(digest(ReplyText(j), key))
  }

  /** A request as it is sent: stamped, completed and signed. */
  function SignedRequest(digest: Digest, key: Str, req: Json, now: int64): Json
    requires Keyed(req)
  {
    var r := Set(req, TIMESTAMP, Int(now));
    Set(WithNulls(r, SIGNED_IN_REQUEST), SIG, Text(digest(RequestText(r), key)))
  }

  /** The reply that carries the result of a method. */
  function SignedReply(digest: Digest, key: Str, id: Json, result: Json): Json {
    var r := Set(Set(Set(Null, JSONRPC, Text(VERSION)), ID, id), RESULT, result);
    Set(r, SIG, Text(digest(ReplyText(r), key)))
  }

  // ----- what survives the wire -----

  /** What the receiver of a line parses. */
  lemma Received(j: Json)
    requires j.FloatFree()
    ensures ParseText(Compact(j) + [NEWLINE]) == Ok(Norm(j)) && Eq(Norm(j), j)
    ensures NEWLINE !in Compact(j)
  {
    ParseOfDump(j, -1, [NEWLINE]);
    CompactIsOneLine(j, 0);
  }

  lemma CompactNorm(j: Json)
    ensures Compact(Norm(j)) == Compact(j)
  {
    NormTextSame(j, LayoutOf(-1), 0);
  }

  /** The digested text is the same on both sides of the wire. */
  lemma TextsSurvive(j: Json)
    requires Keyed(j) && j.FloatFree()
    ensures Keyed(Norm(j)) && RequestText(Norm(j)) == RequestText(j) && ReplyText(Norm(j)) == ReplyText(j)
  {
    hide Norm, Compact, Get;
    assert Keyed(Norm(j)) by { GetNorm(j, ID); }
    var ks := [JSONRPC, METHOD, PARAMS, TIMESTAMP, ID, RESULT];
    forall k | k in ks ensures Compact(Get(Norm(j), k)) == Compact(Get(j, k)) {
      GetNorm(j, k);
      CompactNorm(Get(j, k));
    }
    assert JSONRPC == ks[0] && METHOD == ks[1] && PARAMS == ks[2];
    assert TIMESTAMP == ks[3] && ID == ks[4] && RESULT == ks[5];
  }

  /** Whatever is sent as a request is authentic to a receiver with the same key, members that were
      inserted while signing included. */
  lemma RequestSurvives(digest: Digest, key: Str, req: Json, now: int64)
    requires Keyed(req) && req.FloatFree()
    ensures var sent := SignedRequest(digest, key, req, now);
      && sent.FloatFree()
      && ParseText(Compact(sent) + [NEWLINE]) == Ok(Norm(sent))
      && Norm(sent).Obj? && RequestIsAuthentic(digest, key, Norm(sent))
      && forall k :: Get(Norm(sent), k) ==
           if k == SIG then Text(digest(RequestText(sent), key))
           else if k == TIMESTAMP then Norm(Int(now))
           else Norm(Get(req, k))
  {
    hide Norm, Compact, Get, Set, WithNulls;
    KeysDiffer();
    var r := Set(req, TIMESTAMP, Int(now));
    var sent := SignedRequest(digest, key, req, now);
    SetFloatFree(req, TIMESTAMP, Int(now));
    WithNullsFloatFree(r, SIGNED_IN_REQUEST);
    SetFloatFree(WithNulls(r, SIGNED_IN_REQUEST), SIG, Text(digest(RequestText(r), key)));
    assert RequestText(sent) == RequestText(r);
    Received(sent);
    TextsSurvive(sent);
    NormOfObject(sent);
    forall k ensures Get(Norm(sent), k) == Norm(Get(sent, k)) { GetNorm(sent, k); }
    NormOfText(Get(sent, SIG));
  }

  lemma NormOfText(j: Json)
    ensures j.Text? ==> Norm(j) == j
    ensures j.Null? ==> Norm(j) == j
  {
  }

  /** Whatever is sent as a reply is authentic to a receiver with the same key. */
  lemma ReplySurvives(digest: Digest, key: Str, id: Json, result: Json)
    requires id.FloatFree() && result.FloatFree()
    ensures var sent := SignedReply(digest, key, id, result);
      && sent.FloatFree()
      && ParseText(Compact(sent) + [NEWLINE]) == Ok(Norm(sent))
      && Norm(sent).Obj? && ReplyIsAuthentic(digest, key, Norm(sent))
      && Get(Norm(sent), ERROR) == Null
      && Get(Norm(sent), ID) == Norm(id) && Get(Norm(sent), RESULT) == Norm(result)
  {
    hide Norm, Compact, Get, Set;
    KeysDiffer();
    var r0 := Set(Null, JSONRPC, Text(VERSION));
    var r1 := Set(r0, ID, id);
    var r2 := Set(r1, RESULT, result);
    var sent := SignedReply(digest, key, id, result);
    SetFloatFree(Null, JSONRPC, Text(VERSION));
    SetFloatFree(r0, ID, id);
    SetFloatFree(r1, RESULT, result);
    SetFloatFree(r2, SIG, Text(digest(ReplyText(r2), key)));
    assert ReplyText(sent) == ReplyText(r2);
    Received(sent);
    TextsSurvive(sent);
    forall k ensures Keyed(Norm(sent)) && Get(Norm(sent), k) == Norm(Get(sent, k)) { GetNorm(sent, k); }
    NormOfText(Get(sent, SIG));
    assert Get(sent, ERROR) == Null by { GetNothing(ERROR); }
    NormOfText(Get(sent, ERROR));
    NormOfObject(sent);
  }

  lemma GetNothing(k: Str)
    ensures Get(Null, k) == Null
  {
  }

  lemma NormOfObject(j: Json)
    requires j.Obj?
    ensures Norm(j).Obj?
  {
  }
}
