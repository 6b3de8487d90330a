/** The JSON grammar (RFC 7159, sections 2 to 5) over tokens, and the parser as a function on them. */
module Grammar {
  import opened Bytes
  import opened Json
  import opened Lexical
  import opened Decode
  import opened Numbers

  // ----- derivations and what they denote -----

  /** A derivation of a value; a member has the token of its key. */
  datatype Tree =
    | Single(token: Token)
    | ArrayTree(items: seq<Tree>)
    | ObjectTree(members: seq<Pair>)

  datatype Pair = Pair(key: Token, value: Tree)

  /** The tokens that a derivation produces. */
  function Yield(t: Tree): seq<Token>
    decreases t, 1, 0
  {
    match t
    case Single(token) => [token]
    case ArrayTree(items) => [BeginArray] + YieldItems(t, |items|) + [EndArray]
    case ObjectTree(members) => [BeginObject] + YieldMembers(t, |members|) + [EndObject]
  }

  function YieldItems(t: Tree, n: nat): seq<Token>
    requires t.ArrayTree? && n <= |t.items|
    decreases t, 0, n
  {
    if n == 0 then [] else
      YieldItems(t, n - 1) + ((if n == 1 then [] else [ValueSeparator]) + Yield(t.items[n - 1]))
  }

  function YieldMembers(t: Tree, n: nat): seq<Token>
    requires t.ObjectTree? && n <= |t.members|
    decreases t, 0, n
  {
    if n == 0 then [] else
      YieldMembers(t, n - 1)
      + ((if n == 1 then [] else [ValueSeparator]) + [t.members[n - 1].key, NameSeparator]
         + Yield(t.members[n - 1].value))
  }

  /** The value of a token that is a value by itself. */
  function Scalar(t: Token): Option<Json> {
    match t
    case TrueLiteral => Some(Bool(true))
    case FalseLiteral => Some(Bool(false))
    case NullLiteral => Some(Null)
    case NumberToken(lexeme) => Some(NumberValue(lexeme))
    case StringToken(lexeme) =>
      if IsString(lexeme) && StringValue(lexeme).Ok? then Some(Text(StringValue(lexeme).value)) else None
    case _ => None
  }

  function KeyText(t: Token): Option<Str> {
    match t
    case StringToken(lexeme) =>
      if IsString(lexeme) && StringValue(lexeme).Ok? then Some(StringValue(lexeme).value) else None
    case _ => None
  }

  /** The value of a derivation, none if it is none; of two members with the same key the last one counts. */
  function Meaning(t: Tree): Option<Json>
    decreases t, 1, 0
  {
    match t
    case Single(token) => Scalar(token)
    case ArrayTree(items) => (
      match MeaningItems(t, |items|) case Some(xs) => Some(Arr(xs)) case None => None)
    case ObjectTree(members) => (
      match MeaningMembers(t, |members|) case Some(m) => Some(Obj(m)) case None => None)
  }

  function MeaningItems(t: Tree, n: nat): (r: Option<seq<Json>>)
    requires t.ArrayTree? && n <= |t.items|
    decreases t, 0, n
  {
    if n == 0 then Some([]) else
      match (MeaningItems(t, n - 1), Meaning(t.items[n - 1]))
      case (Some(xs), Some(x)) => Some(xs + [x])
      case _ => None
  }

  function MeaningMembers(t: Tree, n: nat): Option<map<Str, Json>>
    requires t.ObjectTree? && n <= |t.members|
    decreases t, 0, n
  {
    if n == 0 then Some(map[]) else
      match (MeaningMembers(t, n - 1), KeyText(t.members[n - 1].key), Meaning(t.members[n - 1].value))
      case (Some(m), Some(k), Some(v)) => Some(m[k := v])
      case _ => None
  }

  // ----- the parser on a list of tokens -----

  /** parse_internal: the value at the front and the tokens behind it. */
  function Parse(ts: seq<Token>): (r: Result<(Json, seq<Token>)>)
    ensures r.Ok? ==> |r.value.1| < |ts|
    decreases |ts|, 1
  {
    if ts == [] then Err(InvalidArgument)
    else if ts[0] == BeginObject then
      if |ts| == 1 then Err(InvalidArgument)
      else if ts[1] == EndObject then Ok((Obj(map[]), ts[2..]))
      else ParseMembers(ts[1..], map[])
    else if ts[0] == BeginArray then
      if |ts| == 1 then Err(InvalidArgument)
      else if ts[1] == EndArray then Ok((Arr([]), ts[2..]))
      else ParseItems(ts[1..], [])
    else
      match Scalar(ts[0])
      case Some(v) => Ok((v, ts[1..]))
      case None => Err(InvalidArgument)
  }

  /** The do loop of an array from the first token of an item on. */
  function ParseItems(ts: seq<Token>, xs: seq<Json>): (r: Result<(Json, seq<Token>)>)
    ensures r.Ok? ==> |r.value.1| < |ts|
    decreases |ts|, 2
  {
    match Parse(ts)
    case Err(e) => Err(e)
    case Ok((v, rest)) =>
      if rest == [] then Err(InvalidArgument)
      else if rest[0] == ValueSeparator then ParseItems(rest[1..], xs + [v])
      else if rest[0] == EndArray then Ok((Arr(xs + [v]), rest[1..]))
      else Err(InvalidArgument)
  }

  /** The do loop of an object from the key of a member on. */
  function ParseMembers(ts: seq<Token>, m: map<Str, Json>): (r: Result<(Json, seq<Token>)>)
    ensures r.Ok? ==> |r.value.1| < |ts|
    decreases |ts|, 0
  {
    if |ts| < 2 || KeyText(ts[0]).None? || ts[1] != NameSeparator then Err(InvalidArgument) else
      match Parse(ts[2..])
      case Err(e) => Err(e)
      case Ok((v, rest)) =>
        var m' := m[KeyText(ts[0]).value := v];
        if rest == [] then Err(InvalidArgument)
        else if rest[0] == ValueSeparator then ParseMembers(rest[1..], m')
        else if rest[0] == EndObject then Ok((Obj(m'), rest[1..]))
        else Err(InvalidArgument)
  }

  /** parse(): one value and then the end of the input. */
  function ParseAll(ts: seq<Token>): Result<Json> {
    match Parse(ts)
    case Err(e) => Err(e)
    case Ok((v, rest)) => if rest != [] && rest[0] == EndOfInput then Ok(v) else Err(InvalidArgument)
  }

  // ----- regrouping concatenations -----

  lemma Regroup3<T>(a: seq<T>, b: seq<T>, c: seq<T>)
    ensures a + b + c == a + (b + c)
  {
  }

  lemma Regroup4<T>(a: seq<T>, b: seq<T>, c: seq<T>, d: seq<T>)
    ensures a + b + (c + d) == a + (b + c) + d
  {
  }

  lemma Regroup5<T>(a: seq<T>, b: seq<T>, c: seq<T>, d: seq<T>, e: seq<T>)
    ensures a + b + (c + (d + e)) == a + (b + c + d) + e
  {
  }

  lemma Rotate<T>(a: seq<T>, b: seq<T>, c: seq<T>, d: seq<T>)
    ensures a + (b + c) + d == a + (b + (c + d))
  {
  }

  lemma MeaningOfItems(t: Tree)
    requires t.ArrayTree? && MeaningItems(t, |t.items|).Some?
    ensures Meaning(t) == Some(Arr(MeaningItems(t, |t.items|).value))
  {
  }

  lemma MeaningOfMembers(t: Tree)
    requires t.ObjectTree? && MeaningMembers(t, |t.members|).Some?
    ensures Meaning(t) == Some(Obj(MeaningMembers(t, |t.members|).value))
  {
  }

  // ----- one more item or member -----

  lemma {:induction false} ItemsPrefix(t: Tree, u: Tree, n: nat)
    requires t.ArrayTree? && u.ArrayTree? && n <= |t.items| && n <= |u.items| && t.items[..n] == u.items[..n]
    ensures YieldItems(t, n) == YieldItems(u, n) && MeaningItems(t, n) == MeaningItems(u, n)
  {
    if n > 0 {
      assert t.items[..n - 1] == t.items[..n][..n - 1] == u.items[..n - 1];
      assert t.items[n - 1] == t.items[..n][n - 1] == u.items[n - 1];
      ItemsPrefix(t, u, n - 1);
    }
  }

  lemma MoreItems(t: Tree, x: Tree)
    requires t.ArrayTree?
    ensures var n, u := |t.items|, ArrayTree(t.items + [x]);
      && YieldItems(u, n + 1) == YieldItems(t, n) + ((if n == 0 then [] else [ValueSeparator]) + Yield(x))
      && MeaningItems(u, n + 1) == (if MeaningItems(t, n).Some? && Meaning(x).Some?
                                    then Some(MeaningItems(t, n).value + [Meaning(x).value]) else None)
  {
    var n, u := |t.items|, ArrayTree(t.items + [x]);
    assert u.items[..n] == t.items == t.items[..n];
    ItemsPrefix(t, u, n);
  }

  lemma {:induction false} MembersPrefix(t: Tree, u: Tree, n: nat)
    requires t.ObjectTree? && u.ObjectTree? && n <= |t.members| && n <= |u.members| && t.members[..n] == u.members[..n]
    ensures YieldMembers(t, n) == YieldMembers(u, n) && MeaningMembers(t, n) == MeaningMembers(u, n)
  {
    if n > 0 {
      assert t.members[..n - 1] == t.members[..n][..n - 1] == u.members[..n - 1];
      assert t.members[n - 1] == t.members[..n][n - 1] == u.members[n - 1];
      MembersPrefix(t, u, n - 1);
    }
  }

  lemma MoreMembers(t: Tree, key: Token, x: Tree)
    requires t.ObjectTree?
    ensures var n, u := |t.members|, ObjectTree(t.members + [Pair(key, x)]);
      && YieldMembers(u, n + 1) ==
         YieldMembers(t, n) + ((if n == 0 then [] else [ValueSeparator]) + [key, NameSeparator] + Yield(x))
      && MeaningMembers(u, n + 1) ==
         (if MeaningMembers(t, n).Some? && KeyText(key).Some? && Meaning(x).Some?
          then Some(MeaningMembers(t, n).value[KeyText(key).value := Meaning(x).value]) else None)
  {
    var n, u := |t.members|, ObjectTree(t.members + [Pair(key, x)]);
    assert u.members[..n] == t.members == t.members[..n];
    MembersPrefix(t, u, n);
  }

  // ----- what is accepted derives from the grammar -----

  lemma {:induction false} ParseSound(ts: seq<Token>) returns (t: Tree)
    requires Parse(ts).Ok?
    ensures ts == Yield(t) + Parse(ts).value.1
    ensures Meaning(t) == Some(Parse(ts).value.0)
    decreases |ts|, 1
  {
    hide Scalar, ParseItems, ParseMembers;
    assert ts == [ts[0]] + ts[1..];
    if ts[0] == BeginObject {
      t := ObjectTree([]);
      if ts[1] == EndObject {
        assert ts[1..] == [ts[1]] + ts[2..];
        Regroup3([BeginObject], [EndObject], ts[2..]);
      } else {
        t := MembersSound(ts[1..], t, map[]);
        assert [] + [] + ts[1..] == ts[1..];
        Surround([BeginObject], YieldMembers(t, |t.members|), [EndObject], Parse(ts).value.1);
      }
    } else if ts[0] == BeginArray {
      t := ArrayTree([]);
      if ts[1] == EndArray {
        assert ts[1..] == [ts[1]] + ts[2..];
        Regroup3([BeginArray], [EndArray], ts[2..]);
      } else {
        t := ItemsSound(ts[1..], t, []);
        assert [] + [] + ts[1..] == ts[1..];
        Surround([BeginArray], YieldItems(t, |t.items|), [EndArray], Parse(ts).value.1);
      }
    } else {
      t := Single(ts[0]);
    }
  }

  lemma Surround<T>(a: seq<T>, b: seq<T>, c: seq<T>, d: seq<T>)
    ensures a + (b + c + d) == a + b + c + d
  {
  }

  /** The loop of an array, with the items before it in `t`. */
  lemma {:induction false} ItemsSound(ts: seq<Token>, t: Tree, xs: seq<Json>) returns (u: Tree)
    requires t.ArrayTree? && MeaningItems(t, |t.items|) == Some(xs) && ParseItems(ts, xs).Ok?
    ensures u.ArrayTree? && Meaning(u) == Some(ParseItems(ts, xs).value.0)
    ensures YieldItems(t, |t.items|) + (if t.items == [] then [] else [ValueSeparator]) + ts ==
            YieldItems(u, |u.items|) + [EndArray] + ParseItems(ts, xs).value.1
    decreases |ts|, 2
  {
    hide Parse, Yield, YieldItems, Meaning, MeaningItems;
    var x := ParseSound(ts);
    var (v, rest) := Parse(ts).value;
    var next := ArrayTree(t.items + [x]);
    MoreItems(t, x);
    Regroup4(YieldItems(t, |t.items|), if t.items == [] then [] else [ValueSeparator], Yield(x), rest);
    assert rest == [rest[0]] + rest[1..];
    Regroup3(YieldItems(next, |next.items|), [rest[0]], rest[1..]);
    if rest[0] == ValueSeparator {
      u := ItemsSound(rest[1..], next, xs + [v]);
    } else {
      u := next;
      MeaningOfItems(u);
    }
  }

  lemma {:induction false} MembersSound(ts: seq<Token>, t: Tree, m: map<Str, Json>) returns (u: Tree)
    requires t.ObjectTree? && MeaningMembers(t, |t.members|) == Some(m) && ParseMembers(ts, m).Ok?
    ensures u.ObjectTree? && Meaning(u) == Some(ParseMembers(ts, m).value.0)
    ensures YieldMembers(t, |t.members|) + (if t.members == [] then [] else [ValueSeparator]) + ts ==
            YieldMembers(u, |u.members|) + [EndObject] + ParseMembers(ts, m).value.1
    decreases |ts|, 0
  {
    hide Parse, Yield, YieldMembers, Meaning, MeaningMembers, KeyText;
    var x := ParseSound(ts[2..]);
    var (v, rest) := Parse(ts[2..]).value;
    var next := ObjectTree(t.members + [Pair(ts[0], x)]);
    MoreMembers(t, ts[0], x);
    assert ts == [ts[0], NameSeparator] + ts[2..];
    Regroup5(YieldMembers(t, |t.members|), if t.members == [] then [] else [ValueSeparator],
             [ts[0], NameSeparator], Yield(x), rest);
    assert rest == [rest[0]] + rest[1..];
    Regroup3(YieldMembers(next, |next.members|), [rest[0]], rest[1..]);
    if rest[0] == ValueSeparator {
      u := MembersSound(rest[1..], next, m[KeyText(ts[0]).value := v]);
    } else {
      u := next;
      MeaningOfMembers(u);
    }
  }

  // ----- what derives from the grammar is accepted -----

  /** The items from n on, read from the front. */
  ghost function ItemsFrom(t: Tree, n: nat): seq<Token>
    requires t.ArrayTree? && n < |t.items|
    decreases |t.items| - n
  {
    Yield(t.items[n]) + (if n + 1 == |t.items| then [] else [ValueSeparator] + ItemsFrom(t, n + 1))
  }

  lemma {:induction false} ItemsSplit(t: Tree, n: nat)
    requires t.ArrayTree? && n < |t.items|
    ensures YieldItems(t, |t.items|) == YieldItems(t, n) + ((if n == 0 then [] else [ValueSeparator]) + ItemsFrom(t, n))
    decreases |t.items| - n
  {
    hide Yield;
    var sep := if n == 0 then [] else [ValueSeparator];
    var x := Yield(t.items[n]);
    if n + 1 == |t.items| {
      assert x + [] == x;
    } else {
      ItemsSplit(t, n + 1);
      Rotate(YieldItems(t, n), sep, x, [ValueSeparator] + ItemsFrom(t, n + 1));
    }
  }

  ghost function MembersFrom(t: Tree, n: nat): seq<Token>
    requires t.ObjectTree? && n < |t.members|
    decreases |t.members| - n
  {
    [t.members[n].key, NameSeparator] +
    (Yield(t.members[n].value) + (if n + 1 == |t.members| then [] else [ValueSeparator] + MembersFrom(t, n + 1)))
  }

  lemma {:induction false} MembersSplit(t: Tree, n: nat)
    requires t.ObjectTree? && n < |t.members|
    ensures YieldMembers(t, |t.members|) ==
            YieldMembers(t, n) + ((if n == 0 then [] else [ValueSeparator]) + MembersFrom(t, n))
    decreases |t.members| - n
  {
    hide Yield;
    var sep := if n == 0 then [] else [ValueSeparator];
    var k, x := [t.members[n].key, NameSeparator], Yield(t.members[n].value);
    Regroup3(sep, k, x);
    if n + 1 == |t.members| {
      assert x + [] == x;
    } else {
      MembersSplit(t, n + 1);
      var tail := [ValueSeparator] + MembersFrom(t, n + 1);
      Rotate(YieldMembers(t, n), sep, k + x, tail);
      Regroup3(k, x, tail);
    }
  }

  /** A value never starts with a closing bracket. */
  lemma FirstToken(t: Tree)
    requires Meaning(t).Some?
    ensures Yield(t) != [] && Yield(t)[0] != EndArray && Yield(t)[0] != EndObject
  {
  }

  lemma {:induction false} MeaningItemsPrefix(t: Tree, n: nat, m: nat)
    requires t.ArrayTree? && n <= m <= |t.items| && MeaningItems(t, m).Some?
    ensures MeaningItems(t, n).Some? && (n < m ==> Meaning(t.items[n]).Some?)
    decreases m
  {
    if n < m {
      MeaningItemsPrefix(t, n, m - 1);
    }
  }

  lemma {:induction false} MeaningMembersPrefix(t: Tree, n: nat, m: nat)
    requires t.ObjectTree? && n <= m <= |t.members| && MeaningMembers(t, m).Some?
    ensures MeaningMembers(t, n).Some?
    ensures n < m ==> KeyText(t.members[n].key).Some? && Meaning(t.members[n].value).Some?
    decreases m
  {
    if n < m {
      MeaningMembersPrefix(t, n, m - 1);
    }
  }

  lemma {:induction false} ParseComplete(t: Tree, rest: seq<Token>)
    requires Meaning(t).Some?
    ensures Parse(Yield(t) + rest) == Ok((Meaning(t).value, rest))
    decreases t, 1, 0
  {
    var ts := Yield(t) + rest;
    match t {
      case Single(token) =>
        assert ts[0] == token && ts[1..] == rest;
      case ArrayTree(items) =>
        if items == [] {
          assert ts == [BeginArray, EndArray] + rest;
          assert ts[2..] == rest;
        } else {
          ItemsComplete(t, 0, rest);
          MeaningItemsPrefix(t, 0, |items|);
          ArrayComplete(t, rest);
        }
      case ObjectTree(members) =>
        if members == [] {
          assert ts == [BeginObject, EndObject] + rest;
          assert ts[2..] == rest;
        } else {
          MembersComplete(t, 0, rest);
          MeaningMembersPrefix(t, 0, |members|);
          ObjectComplete(t, rest);
        }
    }
  }

  /** What an opening bracket leads to. */
  lemma OpenArray(body: seq<Token>)
    requires body != []
    ensures Parse([BeginArray] + body) ==
            if body[0] == EndArray then Ok((Arr([]), body[1..])) else ParseItems(body, [])
  {
    hide ParseItems;
    var all := [BeginArray] + body;
    assert all[1..] == body && all[2..] == body[1..];
  }

  lemma OpenObject(body: seq<Token>)
    requires body != []
    ensures Parse([BeginObject] + body) ==
            if body[0] == EndObject then Ok((Obj(map[]), body[1..])) else ParseMembers(body, map[])
  {
    hide ParseMembers;
    var all := [BeginObject] + body;
    assert all[1..] == body && all[2..] == body[1..];
  }

  lemma ArrayComplete(t: Tree, rest: seq<Token>)
    requires t.ArrayTree? && t.items != [] && Meaning(t).Some?
    requires Meaning(t.items[0]).Some?
    requires ParseItems(ItemsFrom(t, 0) + ([EndArray] + rest), []) == Ok((Meaning(t).value, rest))
    ensures Parse(Yield(t) + rest) == Ok((Meaning(t).value, rest))
  {
    hide Parse, ParseItems, YieldItems, Meaning, MeaningItems;
    var from := ItemsFrom(t, 0);
    ItemsSplit(t, 0);
    NoItems(t);
    FirstToken(t.items[0]);
    assert from[0] == Yield(t.items[0])[0];
    assert [] + ([] + from) == from;
    OpenArray(from + ([EndArray] + rest));
    Enclosed([BeginArray], from, [EndArray], rest);
  }

  lemma Enclosed<T>(a: seq<T>, b: seq<T>, c: seq<T>, d: seq<T>)
    ensures a + b + c + d == a + (b + (c + d))
  {
  }

  lemma KeyIsString(k: Token)
    requires KeyText(k).Some?
    ensures k.StringToken?
  {
  }

  lemma NoItems(t: Tree)
    ensures t.ArrayTree? ==> YieldItems(t, 0) == []
    ensures t.ObjectTree? ==> YieldMembers(t, 0) == []
  {
  }

  lemma ObjectComplete(t: Tree, rest: seq<Token>)
    requires t.ObjectTree? && t.members != [] && Meaning(t).Some?
    requires KeyText(t.members[0].key).Some?
    requires ParseMembers(MembersFrom(t, 0) + ([EndObject] + rest), map[]) == Ok((Meaning(t).value, rest))
    ensures Parse(Yield(t) + rest) == Ok((Meaning(t).value, rest))
  {
    hide Parse, ParseMembers, YieldMembers, KeyText, Meaning, MeaningMembers;
    var from := MembersFrom(t, 0);
    MembersSplit(t, 0);
    NoItems(t);
    KeyIsString(t.members[0].key);
    assert from[0] == t.members[0].key;
    assert [] + ([] + from) == from;
    OpenObject(from + ([EndObject] + rest));
    Enclosed([BeginObject], from, [EndObject], rest);
  }

  /** The loop of an array, n items done. */
  lemma {:induction false} ItemsComplete(t: Tree, n: nat, rest: seq<Token>)
    requires t.ArrayTree? && n < |t.items| && Meaning(t).Some? && MeaningItems(t, n).Some?
    ensures ParseItems(ItemsFrom(t, n) + ([EndArray] + rest), MeaningItems(t, n).value) == Ok((Meaning(t).value, rest))
    decreases t, 0, |t.items| - n
  {
    MeaningItemsPrefix(t, n, |t.items|);
    MeaningItemsPrefix(t, n + 1, |t.items|);
    MeaningOfItems(t);
    NextItemMeaning(t, n);
    hide Parse, ParseItems, Yield, Meaning, MeaningItems;
    var x, xs, end := t.items[n], MeaningItems(t, n).value, [EndArray] + rest;
    assert end[1..] == rest;
    if n + 1 == |t.items| {
      assert Yield(x) + [] == Yield(x);
      ParseComplete(x, end);
      ParseItem(Yield(x) + end, xs);
    } else {
      var tail := [ValueSeparator] + (ItemsFrom(t, n + 1) + end);
      Rotate(Yield(x), [ValueSeparator], ItemsFrom(t, n + 1), end);
      ParseComplete(x, tail);
      ParseItem(Yield(x) + tail, xs);
      assert tail[1..] == ItemsFrom(t, n + 1) + end;
      ItemsComplete(t, n + 1, rest);
    }
  }

  lemma NextItemMeaning(t: Tree, n: nat)
    requires t.ArrayTree? && n < |t.items| && MeaningItems(t, n + 1).Some?
    ensures MeaningItems(t, n).Some? && Meaning(t.items[n]).Some?
    ensures MeaningItems(t, n + 1).value == MeaningItems(t, n).value + [Meaning(t.items[n]).value]
  {
  }

  /** One round of the loop of an array. */
  lemma ParseItem(ts: seq<Token>, xs: seq<Json>)
    requires Parse(ts).Ok? && Parse(ts).value.1 != []
    ensures var (v, rest) := Parse(ts).value;
      ParseItems(ts, xs) ==
        if rest[0] == ValueSeparator then ParseItems(rest[1..], xs + [v])
        else if rest[0] == EndArray then Ok((Arr(xs + [v]), rest[1..]))
        else Err(InvalidArgument)
  {
    hide Parse;
  }

  lemma {:induction false} MembersComplete(t: Tree, n: nat, rest: seq<Token>)
    requires t.ObjectTree? && n < |t.members| && Meaning(t).Some? && MeaningMembers(t, n).Some?
    ensures ParseMembers(MembersFrom(t, n) + ([EndObject] + rest), MeaningMembers(t, n).value)
            == Ok((Meaning(t).value, rest))
    decreases t, 0, |t.members| - n
  {
    hide *;
    var x, end := t.members[n].value, [EndObject] + rest;
    MembersKnown(t, n);
    if n + 1 == |t.members| {
      ParseComplete(x, end);
      LastMemberParsed(t, n, rest);
    } else {
      ParseComplete(x, [ValueSeparator] + (MembersFrom(t, n + 1) + end));
      MembersComplete(t, n + 1, rest);
      NextMemberParsed(t, n, rest);
    }
  }

  lemma MembersKnown(t: Tree, n: nat)
    requires t.ObjectTree? && n < |t.members| && Meaning(t).Some?
    ensures MeaningMembers(t, n).Some? && MeaningMembers(t, n + 1).Some? && KeyText(t.members[n].key).Some?
    ensures Meaning(t.members[n].value).Some?
    ensures MeaningMembers(t, |t.members|).Some? && Meaning(t).value == Obj(MeaningMembers(t, |t.members|).value)
    ensures MeaningMembers(t, n + 1).value ==
            MeaningMembers(t, n).value[KeyText(t.members[n].key).value := Meaning(t.members[n].value).value]
  {
    MeaningMembersPrefix(t, n, |t.members|);
    MeaningMembersPrefix(t, n + 1, |t.members|);
    MeaningOfMembers(t);
    NextMeaning(t, n);
  }

  lemma LastMemberParsed(t: Tree, n: nat, rest: seq<Token>)
    requires t.ObjectTree? && n + 1 == |t.members| && Meaning(t).Some? && MeaningMembers(t, n).Some?
    requires var x := t.members[n].value;
      Meaning(x).Some? && Parse(Yield(x) + ([EndObject] + rest)) == Ok((Meaning(x).value, [EndObject] + rest))
    ensures ParseMembers(MembersFrom(t, n) + ([EndObject] + rest), MeaningMembers(t, n).value)
            == Ok((Meaning(t).value, rest))
  {
    hide *;
    var k, x, end := t.members[n].key, t.members[n].value, [EndObject] + rest;
    assert end[1..] == rest;
    MembersKnown(t, n);
    MembersFromIs(t, n);
    ParseMember(k, Yield(x) + end, MeaningMembers(t, n).value);
    assert Yield(x) + [] == Yield(x);
    Regroup3([k, NameSeparator], Yield(x), end);
  }

  lemma NextMemberParsed(t: Tree, n: nat, rest: seq<Token>)
    requires t.ObjectTree? && n + 1 < |t.members| && Meaning(t).Some?
    requires MeaningMembers(t, n).Some? && MeaningMembers(t, n + 1).Some?
    requires var x := t.members[n].value;
      var tail := [ValueSeparator] + (MembersFrom(t, n + 1) + ([EndObject] + rest));
      Meaning(x).Some? && Parse(Yield(x) + tail) == Ok((Meaning(x).value, tail))
    requires ParseMembers(MembersFrom(t, n + 1) + ([EndObject] + rest), MeaningMembers(t, n + 1).value)
             == Ok((Meaning(t).value, rest))
    ensures ParseMembers(MembersFrom(t, n) + ([EndObject] + rest), MeaningMembers(t, n).value)
            == Ok((Meaning(t).value, rest))
  {
    hide *;
    var k, x, end := t.members[n].key, t.members[n].value, [EndObject] + rest;
    var from := MembersFrom(t, n + 1);
    var tail := [ValueSeparator] + (from + end);
    assert tail[1..] == from + end;
    MembersKnown(t, n);
    MembersFromIs(t, n);
    ParseMember(k, Yield(x) + tail, MeaningMembers(t, n).value);
    Rotate(Yield(x), [ValueSeparator], from, end);
    Regroup3([k, NameSeparator], Yield(x) + ([ValueSeparator] + from), end);
  }

  lemma MembersFromIs(t: Tree, n: nat)
    requires t.ObjectTree? && n < |t.members|
    ensures var x := Yield(t.members[n].value);
      MembersFrom(t, n) == [t.members[n].key, NameSeparator] +
        (x + if n + 1 == |t.members| then [] else [ValueSeparator] + MembersFrom(t, n + 1))
  {
    hide Yield;
  }

  lemma NextMeaning(t: Tree, n: nat)
    requires t.ObjectTree? && n < |t.members| && MeaningMembers(t, n + 1).Some?
    ensures MeaningMembers(t, n).Some? && KeyText(t.members[n].key).Some? && Meaning(t.members[n].value).Some?
    ensures MeaningMembers(t, n + 1).value ==
            MeaningMembers(t, n).value[KeyText(t.members[n].key).value := Meaning(t.members[n].value).value]
  {
  }

  /** One round of the loop of an object. */
  lemma ParseMember(k: Token, ts: seq<Token>, m: map<Str, Json>)
    requires KeyText(k).Some? && Parse(ts).Ok? && Parse(ts).value.1 != []
    ensures var (v, rest) := Parse(ts).value;
      var m' := m[KeyText(k).value := v];
      ParseMembers([k, NameSeparator] + ts, m) ==
        if rest[0] == ValueSeparator then ParseMembers(rest[1..], m')
        else if rest[0] == EndObject then Ok((Obj(m'), rest[1..]))
        else Err(InvalidArgument)
  {
    hide Parse, KeyText;
    var all := [k, NameSeparator] + ts;
    assert all[0] == k && all[1] == NameSeparator && all[2..] == ts;
  }

  /** Without a value the loops fail. */
  lemma ParseFails(k: Token, ts: seq<Token>, xs: seq<Json>, m: map<Str, Json>)
    requires Parse(ts).Err?
    ensures ParseItems(ts, xs).Err? && ParseMembers([k, NameSeparator] + ts, m).Err?
  {
    hide Parse, KeyText;
    var all := [k, NameSeparator] + ts;
    assert all[0] == k && all[1] == NameSeparator && all[2..] == ts;
  }

  // ----- the theorem -----

  /** The parser accepts a list of tokens exactly if it is derived from the grammar and then ends, and the
      value it returns is the one that the derivation denotes. */
  lemma ParseIsGrammar(ts: seq<Token>, j: Json)
    ensures ParseAll(ts) == Ok(j) <==>
      exists t, rest :: ts == Yield(t) + ([EndOfInput] + rest) && Meaning(t) == Some(j)
  {
    if ParseAll(ts) == Ok(j) {
      var t := ParseSound(ts);
      var rest := Parse(ts).value.1;
      assert rest == [EndOfInput] + rest[1..];
    }
    if t, rest :| ts == Yield(t) + ([EndOfInput] + rest) && Meaning(t) == Some(j) {
      ParseComplete(t, [EndOfInput] + rest);
    }
  }

  /** Nothing that is derived from the grammar holds an error token or the end of the input. */
  lemma {:induction false} YieldIsClean(t: Tree)
    requires Meaning(t).Some?
    ensures ParseError !in Yield(t) && EndOfInput !in Yield(t)
    decreases t, 1, 0
  {
    match t {
      case Single(_) =>
      case ArrayTree(items) => YieldItemsClean(t, |items|);
      case ObjectTree(members) => YieldMembersClean(t, |members|);
    }
  }

  lemma {:induction false} YieldItemsClean(t: Tree, n: nat)
    requires t.ArrayTree? && n <= |t.items| && MeaningItems(t, n).Some?
    ensures ParseError !in YieldItems(t, n) && EndOfInput !in YieldItems(t, n)
    decreases t, 0, n
  {
    if n > 0 {
      YieldItemsClean(t, n - 1);
      YieldIsClean(t.items[n - 1]);
    }
  }

  lemma {:induction false} YieldMembersClean(t: Tree, n: nat)
    requires t.ObjectTree? && n <= |t.members| && MeaningMembers(t, n).Some?
    ensures ParseError !in YieldMembers(t, n) && EndOfInput !in YieldMembers(t, n)
    decreases t, 0, n
  {
    if n > 0 {
      YieldMembersClean(t, n - 1);
      YieldIsClean(t.members[n - 1].value);
    }
  }

  // ----- the value of an array and of an object -----

  /** The items, in their order. */
  lemma {:induction false} ItemsInOrder(t: Tree, n: nat)
    requires t.ArrayTree? && n <= |t.items| && MeaningItems(t, n).Some?
    ensures |MeaningItems(t, n).value| == n
    ensures forall i | 0 <= i < n :: Meaning(t.items[i]) == Some(MeaningItems(t, n).value[i])
  {
    hide Meaning;
    if n > 0 { ItemsInOrder(t, n - 1); }
  }

  /** Member i has this key, and none of the members from i + 1 to n - 1 has it. */
  predicate IsLast(t: Tree, n: nat, i: nat, k: Str)
    requires t.ObjectTree? && i < n <= |t.members|
  {
    KeyText(t.members[i].key) == Some(k) && forall x | i < x < n :: KeyText(t.members[x].key) != Some(k)
  }

  /** Exactly the keys that occur, each with the value of its last member. */
  ghost predicate CountsLast(t: Tree, n: nat, m: map<Str, Json>)
    requires t.ObjectTree? && n <= |t.members|
  {
    && (forall i | 0 <= i < n :: KeyText(t.members[i].key).Some? && KeyText(t.members[i].key).value in m)
    && (forall k | k in m :: exists i :: 0 <= i < n && IsLast(t, n, i, k))
    && (forall k, i | 0 <= i < n && IsLast(t, n, i, k) :: k in m && Meaning(t.members[i].value) == Some(m[k]))
  }

  lemma {:induction false} LastMemberCounts(t: Tree, n: nat)
    requires t.ObjectTree? && n <= |t.members| && MeaningMembers(t, n).Some?
    ensures CountsLast(t, n, MeaningMembers(t, n).value)
  {
    if n > 0 {
      NextMeaning(t, n - 1);
      LastMemberCounts(t, n - 1);
      CountsNext(t, n, MeaningMembers(t, n - 1).value);
    }
  }

  lemma CountsNext(t: Tree, n: nat, before: map<Str, Json>)
    requires t.ObjectTree? && 0 < n <= |t.members| && CountsLast(t, n - 1, before)
    requires KeyText(t.members[n - 1].key).Some? && Meaning(t.members[n - 1].value).Some?
    ensures CountsLast(t, n, before[KeyText(t.members[n - 1].key).value := Meaning(t.members[n - 1].value).value])
  {
    hide Meaning, KeyText;
    var key, v := KeyText(t.members[n - 1].key).value, Meaning(t.members[n - 1].value).value;
    var m := before[key := v];
    forall k, i | 0 <= i < n && IsLast(t, n, i, k) ensures k in m && Meaning(t.members[i].value) == Some(m[k]) {
      if i < n - 1 { assert IsLast(t, n - 1, i, k); }
    }
    forall k | k in m ensures exists i :: 0 <= i < n && IsLast(t, n, i, k) {
      if k == key {
        assert IsLast(t, n, n - 1, k);
      } else {
        var i :| 0 <= i < n - 1 && IsLast(t, n - 1, i, k);
        assert IsLast(t, n, i, k);
      }
    }
  }
}
