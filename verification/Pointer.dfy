/** JSON Pointer text (RFC 6901, sections 3 and 4): escaping, splitting, printing. */
module Pointer {
  import opened Bytes

  // ----- std::string searches; -1 stands for npos -----

  predicate OccursAt(s: Str, f: Str, i: nat) {
    i + |f| <= |s| && s[i..i + |f|] == f
  }

  /** First position at or after `from` where `f` occurs in `s`. */
  function Find(s: Str, f: Str, from: nat): (pos: int)
    ensures pos == -1 || (from <= pos && OccursAt(s, f, pos))
    ensures forall i | from <= i && (pos == -1 || i < pos) :: !OccursAt(s, f, i)
    decreases |s| - from
  {
    if from + |f| > |s| then -1
    else if OccursAt(s, f, from) then from
    else Find(s, f, from + 1)
  }

  /** First position at or after `from` holding `c`. */
  function FindByte(s: Str, c: byte, from: nat): (pos: int)
    ensures pos == -1 || (from <= pos < |s| && s[pos] == c)
    ensures forall i | from <= i < |s| && (pos == -1 || i < pos) :: s[i] != c
    decreases |s| - from
  {
    if from >= |s| then -1
    else if s[from] == c then from
    else FindByte(s, c, from + 1)
  }

  // ----- replace_substring -----

  /** Leftmost non-overlapping replacement of `f` by `t`, reading `s` once from left to right. */
  function Replaced(s: Str, f: Str, t: Str): Str
    requires f != []
  {
    if |s| < |f| then s
    else if s[..|f|] == f then t + Replaced(s[|f|..], f, t)
    else [s[0]] + Replaced(s[1..], f, t)
  }

  lemma OccursBehind(s: Str, f: Str, n: nat, i: nat)
    requires n <= |s|
    ensures OccursAt(s[n..], f, i) == OccursAt(s, f, n + i)
  {
    if n + i + |f| <= |s| { assert s[n..][i..i + |f|] == s[n + i..n + i + |f|]; }
  }

  /** Bytes before the first occurrence are copied. */
  lemma {:induction false} ReplacedSkips(s: Str, f: Str, t: Str, n: nat)
    requires f != [] && n <= |s|
    requires forall i | 0 <= i < n :: !OccursAt(s, f, i)
    ensures Replaced(s, f, t) == s[..n] + Replaced(s[n..], f, t)
  {
    if n == 0 {
      assert s[..n] + s[n..] == s[n..] == s;
    } else if |s| < |f| {
      assert s[..n] + s[n..] == s;
    } else {
      assert !OccursAt(s, f, 0);
      assert s[0..0 + |f|] == s[..|f|];
      forall i | 0 <= i < n - 1 ensures !OccursAt(s[1..], f, i) {
        OccursBehind(s, f, 1, i);
        assert !OccursAt(s, f, 1 + i);
      }
      ReplacedSkips(s[1..], f, t, n - 1);
      SkipOne(s, n, Replaced(s[n..], f, t));
    }
  }

  lemma SkipOne(s: Str, n: nat, tail: Str)
    requires 0 < n <= |s|
    ensures s[1..][n - 1..] == s[n..]
    ensures [s[0]] + (s[1..][..n - 1] + tail) == s[..n] + tail
  {
    assert [s[0]] + s[1..][..n - 1] == s[..n];
  }

  lemma ReplacedAtFirst(s: Str, f: Str, t: Str, n: nat)
    requires f != [] && OccursAt(s, f, n)
    requires forall i | 0 <= i < n :: !OccursAt(s, f, i)
    ensures Replaced(s, f, t) == s[..n] + (t + Replaced(s[n + |f|..], f, t))
  {
    ReplacedSkips(s, f, t, n);
    var rest := s[n..];
    assert rest[..|f|] == f;
    assert rest[|f|..] == s[n + |f|..];
  }

  /** One round of the loop: the prefix up to q is final, the rest is still to be replaced. */
  lemma ReplaceStep(r: Str, f: Str, t: Str, q: nat, pos: nat)
    requires f != [] && q <= |r| && pos == Find(r, f, q)
    ensures r[..q] + Replaced(r[q..], f, t) == r[..pos] + t + Replaced(r[pos + |f|..], f, t)
  {
    hide Replaced;
    var rest := r[q..];
    assert OccursAt(r, f, pos);
    forall i | 0 <= i <= pos - q ensures OccursAt(rest, f, i) == (i == pos - q) { OccursBehind(r, f, q, i); }
    ReplacedAtFirst(rest, f, t, pos - q);
    assert rest[pos - q + |f|..] == r[pos + |f|..];
    assert r[..q] + rest[..pos - q] == r[..pos];
  }

  lemma ReplaceDone(r: Str, f: Str, t: Str, q: nat)
    requires f != [] && q <= |r| && Find(r, f, q) == -1
    ensures r[..q] + Replaced(r[q..], f, t) == r
  {
    var rest := r[q..];
    forall i | 0 <= i < |rest| ensures !OccursAt(rest, f, i) { OccursBehind(r, f, q, i); }
    ReplacedSkips(rest, f, t, |rest|);
    assert rest[..|rest|] == rest && rest[|rest|..] == [];
  }

  /** The loop searches on behind the text it has just put in, so it ends even when `t` contains `f`. */
  method ReplaceSubstring(s: Str, f: Str, t: Str) returns (r: Str)
    requires f != []
    ensures r == Replaced(s, f, t)
  {
    r := s;
    ghost var q := 0;  // everything before q is final
    var pos := Find(r, f, 0);
    while pos != -1
      invariant 0 <= q <= |r|
      invariant pos == Find(r, f, q)
      invariant r[..q] + Replaced(r[q..], f, t) == Replaced(s, f, t)
      decreases |r| - q
    {
      ReplaceStep(r, f, t, q, pos);
      ghost var prefix, suffix := r[..pos] + t, r[pos + |f|..];
      r := r[..pos] + t + r[pos + |f|..];
      q := pos + |t|;
      assert r[..q] == prefix && r[q..] == suffix;
      pos := Find(r, f, pos + |t|);
    }
    ReplaceDone(r, f, t, q);
  }

  // ----- escape and unescape -----

  /** Two passes, as in the source: first `~` becomes `~0`, then `/` becomes `~1`. */
  function Escape(s: Str): Str {
    Replaced(Replaced(s, [TILDE], [TILDE, ZERO]), [SLASH], [TILDE, ONE])
  }

  method EscapeToken(s: Str) returns (r: Str)
    ensures r == Escape(s)
  {
    r := ReplaceSubstring(s, [TILDE], [TILDE, ZERO]);
    r := ReplaceSubstring(r, [SLASH], [TILDE, ONE]);
  }

  /** Two passes: first `~1` becomes `/`, then `~0` becomes `~`. */
  function Unescape(s: Str): Str {
    Replaced(Replaced(s, [TILDE, ONE], [SLASH]), [TILDE, ZERO], [TILDE])
  }

  method UnescapeToken(s: Str) returns (r: Str)
    ensures r == Unescape(s)
  {
    r := ReplaceSubstring(s, [TILDE, ONE], [SLASH]);
    r := ReplaceSubstring(r, [TILDE, ZERO], [TILDE]);
  }

  /** Every `~` is followed by `0` or `1`. */
  predicate WellFormed(s: Str) {
    forall i | 0 <= i < |s| :: EscapedAt(s, i)
  }

  predicate EscapedAt(s: Str, i: nat)
    requires i < |s|
  {
    s[i] == TILDE ==> i + 1 < |s| && (s[i + 1] == ZERO || s[i + 1] == ONE)
  }

  /** Byte-by-byte encoding of section 3 of RFC 6901. */
  function Encode(s: Str): Str {
    if s == [] then []
    else (if s[0] == TILDE then [TILDE, ZERO] else if s[0] == SLASH then [TILDE, ONE] else [s[0]]) + Encode(s[1..])
  }

  /** One-pass decoding of section 4 of RFC 6901. */
  function Decode(s: Str): Str {
    if s == [] then []
    else if s[0] == TILDE && |s| > 1 && s[1] == ONE then [SLASH] + Decode(s[2..])
    else if s[0] == TILDE && |s| > 1 && s[1] == ZERO then [TILDE] + Decode(s[2..])
    else [s[0]] + Decode(s[1..])
  }

  lemma ReplacedHead(x: byte, rest: Str, c: byte, t: Str)
    ensures Replaced([x] + rest, [c], t) == (if x == c then t else [x]) + Replaced(rest, [c], t)
  {
    var s := [x] + rest;
    assert s[..1] == [x] && s[1..] == rest;
  }

  lemma {:induction false} EscapeIsEncode(s: Str)
    ensures Escape(s) == Encode(s)
  {
    if s != [] {
      EscapeIsEncode(s[1..]);
      assert s == [s[0]] + s[1..];
      ReplacedHead(s[0], s[1..], TILDE, [TILDE, ZERO]);
      var rest := Replaced(s[1..], [TILDE], [TILDE, ZERO]);
      EscapeHead(s[0], rest);
    }
  }

  lemma EscapeHead(x: byte, rest: Str)
    ensures Replaced((if x == TILDE then [TILDE, ZERO] else [x]) + rest, [SLASH], [TILDE, ONE]) ==
            (if x == TILDE then [TILDE, ZERO] else if x == SLASH then [TILDE, ONE] else [x])
            + Replaced(rest, [SLASH], [TILDE, ONE])
  {
    hide Replaced;
    if x == TILDE {
      var slashes := Replaced(rest, [SLASH], [TILDE, ONE]);
      ReplacedHead(ZERO, rest, SLASH, [TILDE, ONE]);
      ReplacedHead(TILDE, [ZERO] + rest, SLASH, [TILDE, ONE]);
      assert [TILDE, ZERO] + rest == [TILDE] + ([ZERO] + rest);
      assert [TILDE, ZERO] + slashes == [TILDE] + ([ZERO] + slashes);
    } else {
      ReplacedHead(x, rest, SLASH, [TILDE, ONE]);
    }
  }

  lemma WellFormedHead(s: Str)
    requires s != [] && WellFormed(s)
    ensures s[0] != TILDE ==> WellFormed(s[1..])
    ensures s[0] == TILDE ==> |s| > 1 && (s[1] == ZERO || s[1] == ONE) && WellFormed(s[2..])
  {
    assert EscapedAt(s, 0);
    if s[0] != TILDE {
      WellFormedUnit([s[0]], s[1..]);
      assert s == [s[0]] + s[1..];
    } else {
      WellFormedUnit([s[0], s[1]], s[2..]);
      assert s == [s[0], s[1]] + s[2..];
    }
  }

  lemma {:induction false} UnescapeIsDecode(s: Str)
    requires WellFormed(s)
    ensures Unescape(s) == Decode(s)
  {
    if s != [] {
      WellFormedHead(s);
      var f, t := [TILDE, ONE], [SLASH];
      if s[0] == TILDE {
        UnescapeIsDecode(s[2..]);
        var rest := Replaced(s[2..], f, t);
        assert s[..2] == [TILDE, s[1]];
        if s[1] == ONE {
          var u := [SLASH] + rest;
          assert |u| >= 2 ==> u[..2][0] == SLASH;
          assert u[1..] == rest;
        } else {
          var z := s[1..];
          assert |z| >= 2 ==> z[..2][0] == ZERO;
          assert z[1..] == s[2..];
          assert Replaced(z, f, t) == [ZERO] + rest;
          var u := [TILDE] + Replaced(z, f, t);
          assert Replaced(s, f, t) == u;
          assert u[..2] == [TILDE, ZERO] && u[2..] == rest;
        }
      } else {
        UnescapeIsDecode(s[1..]);
        var rest := Replaced(s[1..], f, t);
        assert |s| >= 2 ==> s[..2][0] == s[0];
        var u := [s[0]] + rest;
        assert Replaced(s, f, t) == u;
        assert |u| >= 2 ==> u[..2][0] == s[0];
        assert u[1..] == rest;
      }
    }
  }

  /** A copied byte or an escape in front changes nothing about the rest. */
  lemma WellFormedUnit(head: Str, t: Str)
    requires (|head| == 1 && head[0] != TILDE) || head in [[TILDE, ZERO], [TILDE, ONE]]
    ensures WellFormed(head + t) == WellFormed(t)
  {
    var s, n := head + t, |head|;
    if WellFormed(s) {
      forall i | 0 <= i < |t| ensures EscapedAt(t, i) {
        assert EscapedAt(s, n + i);
        assert s[n + i] == t[i];
        assert i + 1 < |t| ==> s[n + i + 1] == t[i + 1];
      }
    }
    if WellFormed(t) {
      forall i | 0 <= i < |s| ensures EscapedAt(s, i) {
        if i >= n {
          assert EscapedAt(t, i - n);
          assert s[i] == t[i - n];
          assert i - n + 1 < |t| ==> s[i + 1] == t[i - n + 1];
        }
      }
    }
  }

  lemma {:induction false} EncodeProperties(s: Str)
    ensures WellFormed(Encode(s)) && SLASH !in Encode(s) && Decode(Encode(s)) == s
  {
    if s != [] {
      EncodeProperties(s[1..]);
      var head := if s[0] == TILDE then [TILDE, ZERO] else if s[0] == SLASH then [TILDE, ONE] else [s[0]];
      var e := head + Encode(s[1..]);
      WellFormedUnit(head, Encode(s[1..]));
      assert e[|head|..] == Encode(s[1..]);
      assert s == [s[0]] + s[1..];
    }
  }

  lemma {:induction false} DecodeProperties(t: Str)
    requires WellFormed(t) && SLASH !in t
    ensures Encode(Decode(t)) == t
  {
    if t != [] {
      WellFormedHead(t);
      if t[0] == TILDE {
        DecodeProperties(t[2..]);
        assert t == [t[0], t[1]] + t[2..];
        var d := Decode(t);
        assert d[1..] == Decode(t[2..]);
      } else {
        DecodeProperties(t[1..]);
        var d := Decode(t);
        assert d[1..] == Decode(t[1..]);
        assert t == [t[0]] + t[1..];
      }
    }
  }

  lemma {:induction false} EncodeOfDigits(s: Str)
    requires AllDigits(s)
    ensures Encode(s) == s
  {
    if s != [] {
      EncodeOfDigits(s[1..]);
      assert s == [s[0]] + s[1..];
    }
  }

  /** Byte by byte: a tilde becomes 7E 30, a slash 7E 31, and every other byte stays as it is. */
  lemma EscapeBytes(s: Str, n: nat)
    requires n < |s|
    ensures Escape(s) == Escape(s[..n]) + (if s[n] == 0x7E then [0x7E, 0x30] else if s[n] == 0x2F then [0x7E, 0x31]
                                           else [s[n]]) + Escape(s[n + 1..])
  {
    EscapeIsEncode(s);
    EscapeIsEncode(s[..n]);
    EscapeIsEncode(s[n + 1..]);
    EncodeAround(s, n);
  }

  lemma {:induction false} EncodeAround(s: Str, n: nat)
    requires n < |s|
    ensures Encode(s) == Encode(s[..n]) + Encode([s[n]]) + Encode(s[n + 1..])
    decreases n
  {
    assert Encode([s[n]]) == Encode([s[n]]) + Encode([]);
    if n == 0 {
      assert [s[n]][1..] == [];
    } else {
      assert s[1..][..n - 1] == s[..n][1..] && s[1..][n - 1] == s[n] && s[1..][n..] == s[n + 1..];
      EncodeAround(s[1..], n - 1);
    }
  }

  /** An index needs no escaping. */
  lemma EscapeDec(i: nat)
    ensures Escape(Dec(i)) == Dec(i)
  {
    EscapeIsEncode(Dec(i));
    EncodeOfDigits(Dec(i));
  }

  /** Escaping and unescaping are inverse to each other. */
  lemma EscapeUnescape(s: Str)
    ensures WellFormed(Escape(s)) && SLASH !in Escape(s)
    ensures Unescape(Escape(s)) == s
  {
    EscapeIsEncode(s);
    EncodeProperties(s);
    UnescapeIsDecode(Escape(s));
  }

  lemma UnescapeEscape(t: Str)
    requires WellFormed(t) && SLASH !in t
    ensures Escape(Unescape(t)) == t
  {
    UnescapeIsDecode(t);
    DecodeProperties(t);
    EscapeIsEncode(Unescape(t));
  }

  // ----- to_string and split -----

  function ToString(tokens: seq<Str>): Str {
    if tokens == [] then [] else [SLASH] + (Escape(tokens[0]) + ToString(tokens[1..]))
  }

  method PrintPointer(tokens: seq<Str>) returns (result: Str)
    ensures result == ToString(tokens)
  {
    result := [];
    for n := 0 to |tokens|
      invariant result + ToString(tokens[n..]) == ToString(tokens)
    {
      var e := EscapeToken(tokens[n]);
      assert tokens[n..][1..] == tokens[n + 1..];
      result := result + ([SLASH] + e);
    }
  }

  function Cons<T>(t: T, r: Result<seq<T>>): Result<seq<T>> {
    match r case Ok(ts) => Ok([t] + ts) case Err(e) => Err(e)
  }

  /** The tokens of the text behind the first slash. */
  function SplitBody(s: Str): Result<seq<Str>>
    decreases |s|
  {
    var slash := FindByte(s, SLASH, 0);
    var piece := if slash == -1 then s else s[..slash];
    if !WellFormed(piece) then Err(DomainError)
    else if slash == -1 then Ok([Unescape(piece)])
    else Cons(Unescape(piece), SplitBody(s[slash + 1..]))
  }

  function Split(s: Str): Result<seq<Str>> {
    if s == [] then Ok([])
    else if s[0] != SLASH then Err(DomainError)
    else SplitBody(s[1..])
  }

  /** The inner loop of split: false as soon as a `~` is not followed by `0` or `1`. */
  method CheckEscapes(token: Str) returns (ok: bool)
    ensures ok == WellFormed(token)
  {
    var pos := FindByte(token, TILDE, 0);
    while pos != -1
      invariant -1 <= pos < |token|
      invariant pos != -1 ==> token[pos] == TILDE
      invariant forall i | 0 <= i < |token| && (pos == -1 || i < pos) :: EscapedAt(token, i)
      decreases if pos == -1 then 0 else |token| - pos
    {
      if pos == |token| - 1 || (token[pos + 1] != ZERO && token[pos + 1] != ONE) {
        assert !EscapedAt(token, pos);
        return false;
      }
      pos := FindByte(token, TILDE, pos + 1);
    }
    return true;
  }

  method SplitReference(s: Str) returns (r: Result<seq<Str>>)
    ensures r == Split(s)
  {
    hide Replaced, Unescape, WellFormed, SplitBody, FindByte;
    var result: seq<Str> := [];
    if s == [] {
      return Ok(result);
    }
    if s[0] != SLASH {
      return Err(DomainError);
    }
    var slash := FindByte(s, SLASH, 1);
    var start := 1;
    assert SplitBody(s[1..]) == Prepend([], SplitBody(s[1..])) by {
      if SplitBody(s[1..]).Ok? { assert [] + SplitBody(s[1..]).value == SplitBody(s[1..]).value; }
    }
    while start != 0
      invariant 0 <= start <= |s|
      invariant start != 0 ==> slash == FindByte(s, SLASH, start)
      invariant start != 0 ==> Split(s) == Prepend(result, SplitBody(s[start..]))
      invariant start == 0 ==> Split(s) == Ok(result)
      decreases if start == 0 then 0 else |s| + 1 - start
    {
      SplitFrom(s, start);
      var token := if slash == -1 then s[start..] else s[start..slash];
      var ok := CheckEscapes(token);
      if !ok {
        return Err(DomainError);
      }
      token := UnescapeToken(token);
      PrependCons(result, token, if slash == -1 then Ok([]) else SplitBody(s[slash + 1..]));
      result := result + [token];
      start := slash + 1;
      slash := FindByte(s, SLASH, start);
    }
    return Ok(result);
  }

  /** One round of the loop of split. */
  lemma SplitFrom(s: Str, start: nat)
    requires start <= |s|
    ensures var slash := FindByte(s, SLASH, start);
            var token := if slash == -1 then s[start..] else s[start..slash];
            SplitBody(s[start..]) ==
              if !WellFormed(token) then Err(DomainError)
              else Cons(Unescape(token), if slash == -1 then Ok([]) else SplitBody(s[slash + 1..]))
  {
    hide Replaced, Unescape, WellFormed, SplitBody, FindByte;
    FindByteDrop(s, SLASH, start);
    var slash := FindByte(s, SLASH, start);
    if slash == -1 {
      SplitBodyStep(s[start..], []);
      assert [Unescape(s[start..])] + [] == [Unescape(s[start..])];
    } else {
      SplitBodyStep(s[start..slash], s[slash + 1..]);
      assert s[start..] == s[start..slash] + [SLASH] + s[slash + 1..];
    }
  }

  ghost function Prepend<T>(a: seq<T>, r: Result<seq<T>>): Result<seq<T>> {
    match r case Ok(ts) => Ok(a + ts) case Err(e) => Err(e)
  }

  lemma PrependCons<T>(a: seq<T>, t: T, r: Result<seq<T>>)
    ensures Prepend(a, Cons(t, r)) == Prepend(a + [t], r)
    ensures r == Ok([]) ==> Prepend(a, Cons(t, r)) == Ok(a + [t])
  {
    assert a + [t] + [] == a + [t];
    if r.Ok? { assert a + ([t] + r.value) == a + [t] + r.value; }
  }

  lemma {:induction false} FindByteDrop(s: Str, c: byte, n: nat)
    requires n <= |s|
    ensures FindByte(s[n..], c, 0) == if FindByte(s, c, n) == -1 then -1 else FindByte(s, c, n) - n
  {
    var p, q := FindByte(s[n..], c, 0), FindByte(s, c, n);
    if q != -1 { assert s[n..][q - n] == c; }
    if p != -1 { assert s[n + p] == c; }
  }

  lemma FindByteAt(a: Str, c: byte, b: Str)
    requires c !in a
    ensures FindByte(a + [c] + b, c, 0) == |a|
    ensures FindByte(a, c, 0) == -1
  {
    assert (a + [c] + b)[|a|] == c;
    assert forall i | 0 <= i < |a| :: (a + [c] + b)[i] == a[i];
  }

  lemma SplitBodyStep(piece: Str, rest: Str)
    requires SLASH !in piece
    ensures SplitBody(piece + [SLASH] + rest) ==
            if WellFormed(piece) then Cons(Unescape(piece), SplitBody(rest)) else Err(DomainError)
    ensures SplitBody(piece) == if WellFormed(piece) then Ok([Unescape(piece)]) else Err(DomainError)
  {
    FindByteAt(piece, SLASH, rest);
    var s := piece + [SLASH] + rest;
    assert s[..|piece|] == piece && s[|piece| + 1..] == rest;
  }

  lemma ToStringBody(tokens: seq<Str>)
    requires tokens != []
    ensures ToString(tokens) == [SLASH] + ToString(tokens)[1..]
    ensures ToString(tokens)[1..] == Escape(tokens[0]) + ToString(tokens[1..])
  {
  }

  lemma {:induction false} SplitBodyToString(tokens: seq<Str>)
    requires tokens != []
    ensures SplitBody(ToString(tokens)[1..]) == Ok(tokens)
  {
    hide Replaced, Unescape, Escape, WellFormed, SplitBody, FindByte;
    ToStringBody(tokens);
    EscapeUnescape(tokens[0]);
    var e := Escape(tokens[0]);
    if |tokens| == 1 {
      assert e + [] == e;
      SplitBodyStep(e, []);
      assert tokens == [tokens[0]];
    } else {
      var rest := ToString(tokens[1..])[1..];
      ToStringBody(tokens[1..]);
      SplitBodyToString(tokens[1..]);
      SplitBodyStep(e, rest);
      assert e + ([SLASH] + rest) == e + [SLASH] + rest;
      assert tokens == [tokens[0]] + tokens[1..];
    }
  }

  /** Text to tokens: every list of tokens, empty tokens included, survives printing. */
  lemma SplitToString(tokens: seq<Str>)
    ensures Split(ToString(tokens)) == Ok(tokens)
  {
    if tokens != [] {
      ToStringBody(tokens);
      SplitBodyToString(tokens);
    }
  }

  lemma {:induction false} ToStringSplitBody(s: Str)
    ensures SplitBody(s).Ok? <==> WellFormed(s)
    ensures SplitBody(s).Ok? ==> ToString(SplitBody(s).value) == [SLASH] + s
    decreases |s|
  {
    hide Replaced, Unescape, Escape, WellFormed, SplitBody, FindByte;
    var slash := FindByte(s, SLASH, 0);
    if slash == -1 {
      SplitBodyStep(s, []);
      if WellFormed(s) { PieceBack(s); }
    } else {
      var piece, rest := s[..slash], s[slash + 1..];
      assert s == piece + [SLASH] + rest;
      SplitBodyStep(piece, rest);
      WellFormedPieces(piece, rest);
      ToStringSplitBody(rest);
      if WellFormed(s) {
        var ts := SplitBody(rest).value;
        PieceBack(piece);
        ToStringConcat([Unescape(piece)], ts);
        assert SplitBody(s).value == [Unescape(piece)] + ts;
        assert [SLASH] + piece + ([SLASH] + rest) == [SLASH] + s;
      }
    }
  }

  lemma PieceBack(piece: Str)
    requires WellFormed(piece) && SLASH !in piece
    ensures ToString([Unescape(piece)]) == [SLASH] + piece
  {
    UnescapeEscape(piece);
    ToStringAppend([], Unescape(piece));
    assert [] + [Unescape(piece)] == [Unescape(piece)];
  }

  lemma WellFormedPieces(a: Str, b: Str)
    ensures WellFormed(a + [SLASH] + b) <==> WellFormed(a) && WellFormed(b)
  {
    var s, n := a + [SLASH] + b, |a| + 1;
    assert forall i | 0 <= i < |a| :: s[i] == a[i];
    assert s[|a|] == SLASH;
    assert forall i | n <= i < |s| :: s[i] == b[i - n];
    if WellFormed(s) {
      forall i | 0 <= i < |a| ensures EscapedAt(a, i) { assert EscapedAt(s, i); }
      forall i | 0 <= i < |b| ensures EscapedAt(b, i) {
        assert EscapedAt(s, n + i);
        assert s[n + i] == b[i];
      }
    }
    if WellFormed(a) && WellFormed(b) {
      forall i | 0 <= i < |s| ensures EscapedAt(s, i) {
        if i < |a| { assert EscapedAt(a, i); }
        if i >= n { assert EscapedAt(b, i - n); }
      }
    }
  }

  /** Tokens to text: an accepted text is printed back unchanged, and the accepted texts are the
      empty one and those that start with a slash and escape every tilde. */
  lemma ToStringSplit(s: Str)
    ensures Split(s).Ok? <==> s == [] || (s[0] == SLASH && WellFormed(s))
    ensures Split(s).Ok? ==> ToString(Split(s).value) == s
  {
    hide SplitBody, Escape;
    assert WellFormed([]);
    if s != [] && s[0] == SLASH {
      ToStringSplitBody(s[1..]);
      assert s == [] + [SLASH] + s[1..];
      WellFormedPieces([], s[1..]);
    }
  }

  lemma {:induction false} ToStringConcat(p: seq<Str>, q: seq<Str>)
    ensures ToString(p + q) == ToString(p) + ToString(q)
  {
    if p == [] {
      assert p + q == q;
    } else {
      assert (p + q)[1..] == p[1..] + q;
      ToStringConcat(p[1..], q);
    }
  }

  lemma ToStringAppend(p: seq<Str>, t: Str)
    ensures ToString(p + [t]) == ToString(p) + ([SLASH] + Escape(t))
  {
    ToStringConcat(p, [t]);
    assert [t][1..] == [];
    assert Escape(t) + ToString([]) == Escape(t);
  }

  lemma ToStringInjective(p: seq<Str>, q: seq<Str>)
    requires ToString(p) == ToString(q)
    ensures p == q
  {
    SplitToString(p);
    SplitToString(q);
  }
}
