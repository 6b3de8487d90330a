/** What a signature covers: the digested text is several JSON texts without anything between them. */
module Signature {
  import opened Bytes
  import opened Json
  import opened Printer
  import opened Lexical
  import opened Grammar
  import opened RoundTrip
  import opened Message
  import opened Requests

  // ----- texts put together -----

  function Joined(vs: seq<Json>): Str {
    if vs == [] then [] else Compact(vs[0]) + Joined(vs[1..])
  }

  function SignedInRequest(j: Json): seq<Json>
    requires Keyed(j)
  {
    [Get(j, JSONRPC), Get(j, METHOD), Get(j, PARAMS), Get(j, TIMESTAMP), Get(j, ID)]
  }

  function SignedInReply(j: Json): seq<Json>
    requires Keyed(j)
  {
    [Get(j, JSONRPC), Get(j, ID), Get(j, RESULT)]
  }

  lemma TextsAreJoined(j: Json)
    requires Keyed(j)
    ensures RequestText(j) == Joined(SignedInRequest(j)) && ReplyText(j) == Joined(SignedInReply(j))
  {
    hide Compact, Get;
    var a, b, c, d, e := Get(j, JSONRPC), Get(j, METHOD), Get(j, PARAMS), Get(j, TIMESTAMP), Get(j, ID);
    var r := Get(j, RESULT);
    JoinedOne(e);
    JoinedMore(d, [e]);
    JoinedMore(c, [d, e]);
    JoinedMore(b, [c, d, e]);
    JoinedMore(a, [b, c, d, e]);
    JoinedOne(r);
    JoinedMore(e, [r]);
    JoinedMore(a, [e, r]);
  }

  lemma JoinedOne(v: Json)
    ensures Joined([v]) == Compact(v)
  {
    hide Compact;
    assert Compact(v) + [] == Compact(v);
  }

  lemma JoinedMore(v: Json, vs: seq<Json>)
    ensures Joined([v] + vs) == Compact(v) + Joined(vs)
  {
    assert ([v] + vs)[1..] == vs;
  }

  // ----- when the text can be taken apart -----

  predicate IsNaturalNumber(j: Json) {
    j.IsInteger() && IntegerOf(j) >= 0
  }

  /** No integer is followed by digits. */
  predicate Separable(vs: seq<Json>) {
    forall i | 0 < i < |vs| :: vs[i - 1].IsInteger() ==> !IsNaturalNumber(vs[i])
  }

  ghost predicate AllFloatFree(vs: seq<Json>) {
    forall v | v in vs :: v.FloatFree()
  }

  function Tokenized(vs: seq<Json>): seq<Token> {
    if vs == [] then [EndOfInput] else Yield(TreeOf(vs[0])) + Tokenized(vs[1..])
  }

  /** What a text starts with. */
  lemma FirstByte(v: Json)
    requires v.FloatFree()
    ensures Compact(v) != []
    ensures IsNaturalNumber(v) <==> IsDigit(Compact(v)[0])
    ensures !IsNaturalNumber(v) ==> EndsNumber(Compact(v))
  {
    hide ItemsText, MembersText, EscapedText, Dec, SortedKeys, Ascending;
    if v.IsInteger() {
      var n := IntegerOf(v);
      assert n >= 0 ==> IsDigit(Dec(n)[0]);
    }
  }

  lemma {:induction false} JoinedTokens(vs: seq<Json>)
    requires AllFloatFree(vs) && Separable(vs)
    ensures Tokens(Joined(vs)) == Tokenized(vs)
  {
    hide Tokens, Compact, Yield, IsNaturalNumber, ValueText;
    if vs == [] {
      LexBlank([]);
    } else {
      var v, rest := vs[0], vs[1..];
      assert v in vs && forall x | x in rest :: x in vs;
      forall i | 0 < i < |rest| ensures rest[i - 1].IsInteger() ==> !IsNaturalNumber(rest[i]) {
        assert rest[i] == vs[i + 1] && rest[i - 1] == vs[(i + 1) - 1];
      }
      JoinedTokens(rest);
      FollowerEnds(vs);
      CompactTokens(v, Joined(rest));
    }
  }

  /** The text behind the first value does not continue an integer. */
  lemma FollowerEnds(vs: seq<Json>)
    requires vs != [] && AllFloatFree(vs) && Separable(vs)
    ensures vs[0].IsInteger() ==> EndsNumber(Joined(vs[1..]))
  {
    hide Compact, IsNaturalNumber;
    if |vs| > 1 && vs[0].IsInteger() {
      assert vs[1..][0] == vs[1] && vs[1] in vs;
      assert vs[1 - 1].IsInteger() ==> !IsNaturalNumber(vs[1]);
      FirstByte(vs[1]);
      assert Joined(vs[1..])[0] == Compact(vs[1])[0];
    }
  }

  lemma CompactTokens(v: Json, rest: Str)
    requires v.FloatFree() && (v.IsInteger() ==> EndsNumber(rest))
    ensures Tokens(Compact(v) + rest) == Yield(TreeOf(v)) + Tokens(rest)
  {
    hide Tokens, Yield, TreeOf, ValueText;
    ValueTokens(v, LayoutOf(-1), 0, rest);
  }

  /** A derivation at the front of a list of tokens is the only one, with its value. */
  lemma SameFront(u: Json, v: Json, us: seq<Token>, vs: seq<Token>)
    requires u.FloatFree() && v.FloatFree() && Yield(TreeOf(u)) + us == Yield(TreeOf(v)) + vs
    ensures Norm(u) == Norm(v) && us == vs
  {
    hide Yield, TreeOf, Norm, Parse, Meaning;
    TreeMeaning(u);
    TreeMeaning(v);
    ParseComplete(TreeOf(u), us);
    ParseComplete(TreeOf(v), vs);
  }

  lemma {:induction false} TokenizedDetermines(us: seq<Json>, vs: seq<Json>)
    requires AllFloatFree(us) && AllFloatFree(vs) && Tokenized(us) == Tokenized(vs)
    ensures |us| == |vs| && forall i | 0 <= i < |us| :: Norm(us[i]) == Norm(vs[i])
  {
    hide Yield, TreeOf, Norm, Meaning;
    if us == [] {
      if vs != [] { NotAtEnd(vs); }
    } else if vs == [] {
      NotAtEnd(us);
    } else {
      assert us[0] in us && vs[0] in vs;
      assert (forall x | x in us[1..] :: x in us) && (forall x | x in vs[1..] :: x in vs);
      SameFront(us[0], vs[0], Tokenized(us[1..]), Tokenized(vs[1..]));
      TokenizedDetermines(us[1..], vs[1..]);
      forall i | 0 <= i < |us| ensures Norm(us[i]) == Norm(vs[i]) {
        if i > 0 { assert us[i] == us[1..][i - 1] && vs[i] == vs[1..][i - 1]; }
      }
    }
  }

  lemma NotAtEnd(vs: seq<Json>)
    requires vs != [] && AllFloatFree(vs)
    ensures Tokenized(vs)[0] != EndOfInput
  {
    hide Yield, TreeOf, Meaning;
    assert vs[0] in vs;
    var t := TreeOf(vs[0]);
    TreeMeaning(vs[0]);
    FirstToken(t);
    YieldIsClean(t);
    assert Tokenized(vs)[0] == Yield(t)[0] && Yield(t)[0] in Yield(t);
  }

  /** Texts that can be taken apart determine what was put together, up to the signedness of non-negative
      integers. */
  lemma JoinedDetermines(us: seq<Json>, vs: seq<Json>)
    requires AllFloatFree(us) && AllFloatFree(vs) && Separable(us) && Separable(vs) && Joined(us) == Joined(vs)
    ensures |us| == |vs| && forall i | 0 <= i < |us| :: Norm(us[i]) == Norm(vs[i])
  {
    hide Joined, Tokenized, Norm;
    JoinedTokens(us);
    JoinedTokens(vs);
    TokenizedDetermines(us, vs);
  }

  lemma {:induction false} JoinedSame(us: seq<Json>, vs: seq<Json>)
    requires |us| == |vs| && forall i | 0 <= i < |us| :: Norm(us[i]) == Norm(vs[i])
    ensures Joined(us) == Joined(vs)
  {
    hide Norm, Compact;
    if us != [] {
      CompactNorm(us[0]);
      CompactNorm(vs[0]);
      forall i | 0 <= i < |us[1..]| ensures Norm(us[1..][i]) == Norm(vs[1..][i]) {
        assert us[1..][i] == us[i + 1] && vs[1..][i] == vs[i + 1];
      }
      JoinedSame(us[1..], vs[1..]);
    }
  }

  // ----- what the signatures cover -----

  /** The members that are signed agree, up to the signedness of non-negative integers. */
  ghost predicate SameSigned(a: Json, b: Json)
    requires Keyed(a) && Keyed(b)
  {
    forall k | k in SIGNED_IN_REQUEST :: Norm(Get(a, k)) == Norm(Get(b, k))
  }

  lemma SameSignedIs(a: Json, b: Json)
    requires Keyed(a) && Keyed(b)
    ensures var us, vs := SignedInRequest(a), SignedInRequest(b);
      SameSigned(a, b) <==> forall i | 0 <= i < |us| :: Norm(us[i]) == Norm(vs[i])
  {
    hide Norm, Get;
    var us, vs := SignedInRequest(a), SignedInRequest(b);
    if forall i | 0 <= i < |us| :: Norm(us[i]) == Norm(vs[i]) {
      assert Norm(us[0]) == Norm(vs[0]) && Norm(us[1]) == Norm(vs[1]) && Norm(us[2]) == Norm(vs[2]);
      assert Norm(us[3]) == Norm(vs[3]) && Norm(us[4]) == Norm(vs[4]);
    }
  }

  lemma SignedAreFloatFree(j: Json)
    requires Keyed(j) && j.FloatFree()
    ensures AllFloatFree(SignedInRequest(j)) && AllFloatFree(SignedInReply(j))
  {
    hide Get;
    forall k ensures Get(j, k).FloatFree() { MemberIsFloatFree(j, k); }
  }

  lemma MemberIsFloatFree(j: Json, k: Str)
    requires Keyed(j) && j.FloatFree()
    ensures Get(j, k).FloatFree()
  {
  }

  /** The signature of a request covers its five members: two requests in which no integer is followed by
      digits are digested from the same text exactly if those members agree. */
  lemma RequestTextDetermines(a: Json, b: Json)
    requires Keyed(a) && Keyed(b) && a.FloatFree() && b.FloatFree()
    requires Separable(SignedInRequest(a)) && Separable(SignedInRequest(b))
    ensures RequestText(a) == RequestText(b) <==> SameSigned(a, b)
  {
    hide RequestText, Joined, SameSigned, Norm, Separable, AllFloatFree;
    TextsAreJoined(a);
    TextsAreJoined(b);
    SignedAreFloatFree(a);
    SignedAreFloatFree(b);
    SameSignedIs(a, b);
    if RequestText(a) == RequestText(b) {
      JoinedDetermines(SignedInRequest(a), SignedInRequest(b));
    }
    if SameSigned(a, b) {
      JoinedSame(SignedInRequest(a), SignedInRequest(b));
    }
  }

  /** The same of a reply; a reply that is accepted has a string as identifier, and then nothing else is needed. */
  lemma ReplyTextDetermines(a: Json, b: Json)
    requires Keyed(a) && Keyed(b) && a.FloatFree() && b.FloatFree()
    requires Separable(SignedInReply(a)) && Separable(SignedInReply(b))
    ensures ReplyText(a) == ReplyText(b) <==> forall k | k in SIGNED_IN_REPLY :: Norm(Get(a, k)) == Norm(Get(b, k))
  {
    hide ReplyText, Joined, Norm, Separable, AllFloatFree, Get;
    var us, vs := SignedInReply(a), SignedInReply(b);
    TextsAreJoined(a);
    TextsAreJoined(b);
    SignedAreFloatFree(a);
    SignedAreFloatFree(b);
    if ReplyText(a) == ReplyText(b) {
      JoinedDetermines(us, vs);
      assert Norm(us[0]) == Norm(vs[0]) && Norm(us[1]) == Norm(vs[1]) && Norm(us[2]) == Norm(vs[2]);
    }
    if forall k | k in SIGNED_IN_REPLY :: Norm(Get(a, k)) == Norm(Get(b, k)) {
      JoinedSame(us, vs);
    }
  }

  lemma AcceptedRepliesAreSeparable(j: Json)
    requires Keyed(j) && Get(j, ID).Text?
    ensures Separable(SignedInReply(j))
  {
    hide Get;
  }

  // ----- requests with a number as identifier -----

  /** The requests that HandleRequest goes on with, apart from the identifier and with a version. */
  ghost predicate Shaped(j: Json) {
    && Keyed(j) && j.FloatFree() && WellShaped(j)
    && Get(j, JSONRPC).Text? && Get(j, TIMESTAMP).IsInteger()
  }

  /** No request of this kind that differs in a signed member is digested from the same text. */
  ghost predicate Covered(a: Json)
    requires Keyed(a)
  {
    forall b | Shaped(b) && RequestText(b) == RequestText(a) :: SameSigned(a, b)
  }

  /** Digits without a superfluous zero in front. */
  predicate IsNatural(s: Str) {
    s != [] && AllDigits(s) && (|s| == 1 || s[0] != ZERO)
  }

  /** The text of an integer that fits into 64 bits, signed or unsigned. */
  predicate IsStamp(s: Str) {
    if s != [] && s[0] == MINUS then IsNatural(s[1..]) && 0 < Value(s[1..]) <= INT64_MAX + 1
    else IsNatural(s) && Value(s) <= UINT64_MAX
  }

  /** Behind the parameters: the time stamp and the identifier. */
  function Tail(j: Json): Str
    requires Keyed(j)
  {
    Compact(Get(j, TIMESTAMP)) + Compact(Get(j, ID))
  }

  /** The digits of the time stamp and of the identifier can also be divided at another place. */
  predicate DividesElsewhere(j: Json)
    requires Keyed(j)
  {
    var t, n := Tail(j), |Compact(Get(j, TIMESTAMP))|;
    exists k :: 0 < k < |t| && k != n && DividesAt(t, k)
  }

  predicate DividesAt(t: Str, k: nat)
    requires k <= |t|
  {
    IsStamp(t[..k]) && IsStamp(t[k..])
  }

  lemma {:induction false} DecOfValue(s: Str)
    requires IsNatural(s)
    ensures Dec(Value(s)) == s
  {
    if |s| > 1 {
      var init, n := s[..|s| - 1], |s| - 1;
      assert init[0] == s[0];
      DecOfValue(init);
      NotZero(init);
      assert Value(s) / 10 == Value(init) && Value(s) % 10 == DigitValue(s[n]);
      assert s == init + [s[n]];
    } else {
      assert s[..0] == [];
      assert s == [s[0]];
    }
  }

  lemma NotZero(s: Str)
    requires IsNatural(s) && s[0] != ZERO
    ensures Value(s) > 0
  {
    if |s| > 1 {
      assert s[..|s| - 1][0] == s[0];
      NotZero(s[..|s| - 1]);
    } else {
      assert s[..0] == [];
    }
  }

  /** The integer that a text of this form is printed from. */
  function StampOf(s: Str): (n: int)
    requires IsStamp(s)
    ensures INT64_MIN <= n <= UINT64_MAX
  {
    if s[0] == MINUS then 0 - Value(s[1..]) else Value(s)
  }

  function IntegerJson(n: int): Json
    requires INT64_MIN <= n <= UINT64_MAX
  {
    if n < 0 then Int(n) else UInt(n)
  }

  lemma StampIsPrinted(s: Str)
    requires IsStamp(s)
    ensures Compact(IntegerJson(StampOf(s))) == s
  {
    hide Value, Dec;
    if s[0] == MINUS {
      DecOfValue(s[1..]);
      assert s == [MINUS] + s[1..];
    } else {
      DecOfValue(s);
    }
  }

  lemma IntegerIsStamp(j: Json)
    requires j.IsInteger()
    ensures IsStamp(Compact(j))
  {
    hide Value, Dec;
    var n, s := IntegerOf(j), Compact(j);
    if n < 0 {
      DecDenotes(-n);
      assert s[1..] == Dec(-n);
    } else {
      DecDenotes(n);
      assert IsDigit(Dec(n)[0]);
    }
  }

  /** A second way of dividing the digits gives another request with the same text. */
  lemma AnotherRequest(a: Json, k: nat) returns (b: Json)
    requires Shaped(a) && 0 < k < |Tail(a)| && k != |Compact(Get(a, TIMESTAMP))| && DividesAt(Tail(a), k)
    ensures Shaped(b) && RequestText(b) == RequestText(a) && !SameSigned(a, b)
  {
    hide Compact, IsStamp, StampOf, Norm, Get;
    KeysDiffer();
    var t := Tail(a);
    var stamp, id := IntegerJson(StampOf(t[..k])), IntegerJson(StampOf(t[k..]));
    StampIsPrinted(t[..k]);
    StampIsPrinted(t[k..]);
    b := Set(Set(a, TIMESTAMP, stamp), ID, id);
    SetFloatFree(a, TIMESTAMP, stamp);
    SetFloatFree(Set(a, TIMESTAMP, stamp), ID, id);
    assert t[..k] + t[k..] == t;
    var front := Compact(Get(a, JSONRPC)) + Compact(Get(a, METHOD)) + Compact(Get(a, PARAMS));
    Rejoin(front, t[..k], t[k..]);
    Rejoin(front, Compact(Get(a, TIMESTAMP)), Compact(Get(a, ID)));
    if SameSigned(a, b) {
      assert Norm(Get(a, TIMESTAMP)) == Norm(Get(b, TIMESTAMP));
      CompactNorm(Get(a, TIMESTAMP));
      CompactNorm(Get(b, TIMESTAMP));
    }
  }

  lemma Rejoin(a: Str, b: Str, c: Str)
    ensures a + b + c == a + (b + c)
  {
  }

  /** In front of the time stamp nothing can be confused. */
  lemma FrontsAgree(a: Json, b: Json)
    requires Shaped(a) && Shaped(b) && RequestText(a) == RequestText(b)
    ensures Norm(Get(a, JSONRPC)) == Norm(Get(b, JSONRPC)) && Norm(Get(a, METHOD)) == Norm(Get(b, METHOD))
    ensures Norm(Get(a, PARAMS)) == Norm(Get(b, PARAMS)) && Tail(a) == Tail(b)
  {
    hide Compact, Get, Norm, Tokens, Yield, TreeOf;
    FrontTokens(a);
    FrontTokens(b);
    var ta, tb := Tokens(Tail(a)), Tokens(Tail(b));
    forall k ensures Get(a, k).FloatFree() && Get(b, k).FloatFree() {
      MemberIsFloatFree(a, k);
      MemberIsFloatFree(b, k);
    }
    SameFront(Get(a, JSONRPC), Get(b, JSONRPC),
              Yield(TreeOf(Get(a, METHOD))) + (Yield(TreeOf(Get(a, PARAMS))) + ta),
              Yield(TreeOf(Get(b, METHOD))) + (Yield(TreeOf(Get(b, PARAMS))) + tb));
    SameFront(Get(a, METHOD), Get(b, METHOD), Yield(TreeOf(Get(a, PARAMS))) + ta, Yield(TreeOf(Get(b, PARAMS))) + tb);
    SameFront(Get(a, PARAMS), Get(b, PARAMS), ta, tb);
    var ks := [JSONRPC, METHOD, PARAMS];
    forall k | k in ks ensures Compact(Get(a, k)) == Compact(Get(b, k)) {
      assert k == ks[0] || k == ks[1] || k == ks[2];
      CompactNorm(Get(a, k));
      CompactNorm(Get(b, k));
    }
    assert ks[0] in ks && ks[1] in ks && ks[2] in ks;
    var front := Compact(Get(a, JSONRPC)) + Compact(Get(a, METHOD)) + Compact(Get(a, PARAMS));
    Rejoin(front, Compact(Get(a, TIMESTAMP)), Compact(Get(a, ID)));
    Rejoin(front, Compact(Get(b, TIMESTAMP)), Compact(Get(b, ID)));
    assert (front + Tail(a))[|front|..] == Tail(a) && (front + Tail(b))[|front|..] == Tail(b);
  }

  lemma FrontTokens(a: Json)
    requires Shaped(a)
    ensures Tokens(RequestText(a)) ==
            Yield(TreeOf(Get(a, JSONRPC)))
            + (Yield(TreeOf(Get(a, METHOD))) + (Yield(TreeOf(Get(a, PARAMS))) + Tokens(Tail(a))))
  {
    hide Compact, Get, Tokens, Yield, TreeOf;
    forall k ensures Get(a, k).FloatFree() { MemberIsFloatFree(a, k); }
    var x, y, z, t := Get(a, JSONRPC), Get(a, METHOD), Get(a, PARAMS), Tail(a);
    CompactTokens(z, t);
    CompactTokens(y, Compact(z) + t);
    CompactTokens(x, Compact(y) + (Compact(z) + t));
    Nested(Compact(x), Compact(y), Compact(z), Compact(Get(a, TIMESTAMP)), Compact(Get(a, ID)));
  }

  lemma Nested(a: Str, b: Str, c: Str, d: Str, e: Str)
    ensures a + b + c + d + e == a + (b + (c + (d + e)))
  {
  }

  /** Equal tails that are divided at the same place, or cannot be divided by digits, agree. */
  lemma TailsAgree(a: Json, b: Json)
    requires Shaped(a) && Shaped(b) && Tail(a) == Tail(b)
    requires !(IsNaturalNumber(Get(a, ID)) && DividesElsewhere(a))
    ensures Norm(Get(a, TIMESTAMP)) == Norm(Get(b, TIMESTAMP)) && Norm(Get(a, ID)) == Norm(Get(b, ID))
  {
    hide Dumped, Get, Norm, IsStamp;
    var n, x, m, y := Get(a, TIMESTAMP), Get(a, ID), Get(b, TIMESTAMP), Get(b, ID);
    forall k ensures Get(a, k).FloatFree() && Get(b, k).FloatFree() {
      MemberIsFloatFree(a, k);
      MemberIsFloatFree(b, k);
    }
    IdsAreAlike(n, x, m, y);
    IdsAreAlike(m, y, n, x);
    if IsNaturalNumber(x) {
      var t, k := Tail(a), |Compact(m)|;
      assert t[..k] == Compact(m) && t[k..] == Compact(y);
      IntegerIsStamp(m);
      IntegerIsStamp(y);
      FirstByte(m);
      FirstByte(y);
      assert DividesAt(t, k);
      assert k == |Compact(n)|;
      assert t[..k] == Compact(n) && t[k..] == Compact(x);
      TextDeterminesValue(n, m, -1);
      TextDeterminesValue(x, y, -1);
    } else {
      JoinedMore(n, [x]);
      JoinedOne(x);
      JoinedMore(m, [y]);
      JoinedOne(y);
      JoinedDetermines([n, x], [m, y]);
      assert [n, x][0] == n && [n, x][1] == x && [m, y][0] == m && [m, y][1] == y;
      assert Norm([n, x][0]) == Norm([m, y][0]) && Norm([n, x][1]) == Norm([m, y][1]);
    }
  }

  /** Behind an integer, digits are digits: if one identifier is a natural number, so is the other. */
  lemma IdsAreAlike(n: Json, x: Json, m: Json, y: Json)
    requires n.IsInteger() && m.IsInteger() && x.FloatFree() && y.FloatFree()
    requires Compact(n) + Compact(x) == Compact(m) + Compact(y)
    ensures IsNaturalNumber(x) ==> IsNaturalNumber(y)
  {
    hide Compact, IsNaturalNumber;
    if IsNaturalNumber(x) {
      FirstByte(m);
      FirstByte(y);
      var t, k := Compact(n) + Compact(x), |Compact(m)|;
      DigitsBehind(n);
      DigitsBehindNatural(x);
      assert t[k] == Compact(y)[0];
      if k < |Compact(n)| { assert t[k] == Compact(n)[k]; } else { assert t[k] == Compact(x)[k - |Compact(n)|]; }
    }
  }

  lemma DigitsBehind(n: Json)
    requires n.IsInteger()
    ensures forall k | 0 < k < |Compact(n)| :: IsDigit(Compact(n)[k])
  {
    hide Dec;
    var i := IntegerOf(n);
    if i < 0 {
      assert forall k | 0 < k < |Compact(n)| :: Compact(n)[k] == Dec(-i)[k - 1];
    }
  }

  lemma DigitsBehindNatural(x: Json)
    requires IsNaturalNumber(x)
    ensures AllDigits(Compact(x))
  {
    hide Dec;
  }

  /** For which requests the signature covers every signed member: all but those whose identifier is a
      non-negative integer such that its digits and those of the time stamp can be divided at another place. */
  lemma WhenCovered(a: Json)
    requires Shaped(a)
    ensures Covered(a) <==> !(IsNaturalNumber(Get(a, ID)) && DividesElsewhere(a))
  {
    hide RequestText, SameSigned, Tail, DividesAt, Norm, Get;
    if IsNaturalNumber(Get(a, ID)) && DividesElsewhere(a) {
      var k :| 0 < k < |Tail(a)| && k != |Compact(Get(a, TIMESTAMP))| && DividesAt(Tail(a), k);
      var b := AnotherRequest(a, k);
    } else {
      forall b | Shaped(b) && RequestText(b) == RequestText(a) ensures SameSigned(a, b) {
        FrontsAgree(a, b);
        ShapedIsKeyed(a);
        ShapedIsKeyed(b);
        TailsAgree(a, b);
        AllFive(a, b);
      }
    }
  }

  lemma ShapedIsKeyed(a: Json)
    requires Shaped(a)
    ensures Keyed(a)
  {
  }

  lemma AllFive(a: Json, b: Json)
    requires Keyed(a) && Keyed(b)
    requires Norm(Get(a, JSONRPC)) == Norm(Get(b, JSONRPC)) && Norm(Get(a, METHOD)) == Norm(Get(b, METHOD))
    requires Norm(Get(a, PARAMS)) == Norm(Get(b, PARAMS)) && Norm(Get(a, TIMESTAMP)) == Norm(Get(b, TIMESTAMP))
    requires Norm(Get(a, ID)) == Norm(Get(b, ID))
    ensures SameSigned(a, b)
  {
    hide Norm, Get;
  }

  /** Two requests that differ in the time stamp and the identifier but have the same signature. */
  lemma SameTextOfDifferentRequests(j: Json)
    requires Keyed(j)
    ensures var a := Set(Set(j, TIMESTAMP, UInt(12)), ID, UInt(3));
      var b := Set(Set(j, TIMESTAMP, UInt(1)), ID, UInt(23));
      RequestText(a) == RequestText(b) && !SameSigned(a, b)
  {
    hide Get;
    KeysDiffer();
    var a := Set(Set(j, TIMESTAMP, UInt(12)), ID, UInt(3));
    var b := Set(Set(j, TIMESTAMP, UInt(1)), ID, UInt(23));
    assert Dec(12) == [0x31, 0x32] && Dec(3) == [0x33] && Dec(1) == [0x31] && Dec(23) == [0x32, 0x33];
    var front := Compact(Get(j, JSONRPC)) + Compact(Get(j, METHOD)) + Compact(Get(j, PARAMS));
    Rejoin(front, Dec(12), Dec(3));
    Rejoin(front, Dec(1), Dec(23));
    assert Dec(12) + Dec(3) == Dec(1) + Dec(23);
    assert Norm(Get(a, TIMESTAMP)) != Norm(Get(b, TIMESTAMP));
  }

  /** What the protocol itself sends is covered: its identifiers are strings, or missing. */
  lemma CallsAreCovered(a: Json)
    requires Shaped(a) && (Get(a, ID).Text? || Get(a, ID).Null?)
    ensures Covered(a)
  {
    hide Covered, Shaped, Get;
    WhenCovered(a);
  }
}
