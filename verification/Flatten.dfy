/** flatten: an object that maps the JSON Pointer of every leaf to its value. */
module Flatten {
  import opened Bytes
  import opened Json
  import opened Pointer
  import opened Access

  // ----- leaves -----

  /** Primitive values and empty containers have no children. */
  predicate Childless(j: Json) {
    j.Primitive() || (j.Arr? && j.items == []) || (j.Obj? && j.members == map[])
  }

  /** A token that names a child: a key, or an index as std::to_string writes it. */
  predicate HasChild(j: Json, token: Str) {
    match j
    case Arr(xs) => AllDigits(token) && Value(token) < |xs| && Dec(Value(token)) == token
    case Obj(m) => token in m
    case _ => false
  }

  function ChildOf(j: Json, token: Str): (c: Json)
    requires HasChild(j, token)
    ensures c < j
  {
    if j.Arr? then j.items[Value(token)] else j.members[token]
  }

  lemma HasItem(xs: seq<Json>, i: nat)
    requires i < |xs|
    ensures HasChild(Arr(xs), Dec(i)) && ChildOf(Arr(xs), Dec(i)) == xs[i]
  {
    DecDenotes(i);
  }

  /** `p` leads from `j` to a leaf. */
  predicate IsLeaf(j: Json, p: seq<Str>) {
    if p == [] then Childless(j) else HasChild(j, p[0]) && IsLeaf(ChildOf(j, p[0]), p[1..])
  }

  /** What flatten records for the leaf: the primitive itself, null for an empty container. */
  function LeafValue(j: Json, p: seq<Str>): Json
    requires IsLeaf(j, p)
  {
    if p != [] then LeafValue(ChildOf(j, p[0]), p[1..])
    else if j.Primitive() then j else Null
  }

  ghost function LeafCount(j: Json): nat
    decreases j, 1, 0
  {
    if Childless(j) then 1
    else if j.Arr? then ItemLeaves(j, |j.items|)
    else MemberLeaves(j, SortedKeys(j.members.Keys))
  }

  ghost function ItemLeaves(j: Json, n: nat): nat
    requires j.Arr? && n <= |j.items|
    decreases j, 0, n
  {
    if n == 0 then 0 else ItemLeaves(j, n - 1) + LeafCount(j.items[n - 1])
  }

  ghost function MemberLeaves(j: Json, ks: seq<Str>): nat
    requires j.Obj? && forall k | k in ks :: k in j.members
    decreases j, 0, |ks|
  {
    if ks == [] then 0 else MemberLeaves(j, ks[..|ks| - 1]) + LeafCount(j.members[ks[|ks| - 1]])
  }

  // ----- flatten -----

  function Flat(p: seq<Str>, j: Json): map<Str, Json>
    decreases j, 1, 0
  {
    if Childless(j) then map[ToString(p) := if j.Primitive() then j else Null]
    else if j.Arr? then FlatItems(p, j, |j.items|)
    else FlatMembers(p, j, SortedKeys(j.members.Keys))
  }

  function FlatItems(p: seq<Str>, j: Json, n: nat): map<Str, Json>
    requires j.Arr? && n <= |j.items|
    decreases j, 0, n
  {
    if n == 0 then map[] else FlatItems(p, j, n - 1) + Flat(p + [Dec(n - 1)], j.items[n - 1])
  }

  function FlatMembers(p: seq<Str>, j: Json, ks: seq<Str>): map<Str, Json>
    requires j.Obj? && forall k | k in ks :: k in j.members
    decreases j, 0, |ks|
  {
    if ks == [] then map[] else
      var k := ks[|ks| - 1];
      FlatMembers(p, j, ks[..|ks| - 1]) + Flat(p + [k], j.members[k])
  }

  /** The recursion behind flatten(); `p` is the token list behind the text `reference`. */
  method FlattenInto(reference: Str, value: Json, result: map<Str, Json>, ghost p: seq<Str>)
    returns (r: map<Str, Json>)
    requires reference == ToString(p)
    ensures r == result + Flat(p, value)
    decreases value, 1
  {
    hide ToString;
    if value.Arr? && value.items != [] {
      r := FlattenItems(reference, value, result, p);
    } else if value.Obj? && value.members != map[] {
      r := FlattenMembers(reference, value, result, p);
    } else if value.Arr? || value.Obj? {
      r := result[reference := Null];
    } else {
      r := result[reference := value];
    }
  }

  method FlattenItems(reference: Str, value: Json, result: map<Str, Json>, ghost p: seq<Str>)
    returns (r: map<Str, Json>)
    requires reference == ToString(p) && value.Arr?
    ensures r == result + FlatItems(p, value, |value.items|)
    decreases value, 0
  {
    hide Flat, Escape, ToString;
    r := result;
    for i := 0 to |value.items|
      invariant r == result + FlatItems(p, value, i)
    {
      ToStringAppend(p, Dec(i));
      EscapeDec(i);
      r := FlattenInto(reference + ([SLASH] + Dec(i)), value.items[i], r, p + [Dec(i)]);
      UnionAssociative(result, FlatItems(p, value, i), Flat(p + [Dec(i)], value.items[i]));
    }
  }

  method FlattenMembers(reference: Str, value: Json, result: map<Str, Json>, ghost p: seq<Str>)
    returns (r: map<Str, Json>)
    requires reference == ToString(p) && value.Obj?
    ensures r == result + FlatMembers(p, value, SortedKeys(value.members.Keys))
    decreases value, 0, 1
  {
    hide SortedKeys, Ascending, FlatMembers;
    r := FlattenKeys(reference, value, SortedKeys(value.members.Keys), result, p);
  }

  /** The loop over the members, in the order of the given keys. */
  method FlattenKeys(reference: Str, value: Json, ks: seq<Str>, result: map<Str, Json>, ghost p: seq<Str>)
    returns (r: map<Str, Json>)
    requires reference == ToString(p) && value.Obj? && forall k | k in ks :: k in value.members
    ensures r == result + FlatMembers(p, value, ks)
    decreases value, 0, 0
  {
    hide Flat, Escape, ToString;
    r := result;
    for n := 0 to |ks|
      invariant r == result + FlatMembers(p, value, ks[..n])
    {
      ToStringAppend(p, ks[n]);
      var key := EscapeToken(ks[n]);
      assert ks[n] in ks && ks[..n + 1][..n] == ks[..n];
      UnionAssociative(result, FlatMembers(p, value, ks[..n]), Flat(p + [ks[n]], value.members[ks[n]]));
      r := FlattenInto(reference + ([SLASH] + key), value.members[ks[n]], r, p + [ks[n]]);
    }
    assert ks[..|ks|] == ks;
  }

  lemma UnionAssociative<K, V>(a: map<K, V>, b: map<K, V>, c: map<K, V>)
    ensures a + b + c == a + (b + c)
  {
  }

  method Flattened(value: Json) returns (result: Json)
    ensures result == Obj(Flat([], value))
  {
    var m := FlattenInto([], value, map[], []);
    result := Obj(m);
  }

  // ----- flatten conserves the leaves -----

  /** Every entry is a leaf, recorded under its pointer. */
  lemma {:induction false} FlatEntryIsLeaf(p: seq<Str>, j: Json, key: Str) returns (q: seq<Str>)
    requires key in Flat(p, j)
    ensures key == ToString(p + q) && IsLeaf(j, q) && Flat(p, j)[key] == LeafValue(j, q)
    decreases j, 1, 0
  {
    if Childless(j) {
      q := [];
      assert p + [] == p;
    } else {
      var token, rest;
      if j.Arr? {
        token, rest := FlatItemIsLeaf(p, j, |j.items|, key);
      } else {
        token, rest := FlatMemberIsLeaf(p, j, SortedKeys(j.members.Keys), key);
      }
      q := [token] + rest;
      assert p + [token] + rest == p + q && q[1..] == rest;
    }
  }

  lemma {:induction false} FlatItemIsLeaf(p: seq<Str>, j: Json, n: nat, key: Str) returns (token: Str, q: seq<Str>)
    requires j.Arr? && n <= |j.items| && key in FlatItems(p, j, n)
    ensures HasChild(j, token) && key == ToString(p + [token] + q) && IsLeaf(ChildOf(j, token), q)
    ensures FlatItems(p, j, n)[key] == LeafValue(ChildOf(j, token), q)
    decreases j, 0, n
  {
    HasItem(j.items, n - 1);
    if key in Flat(p + [Dec(n - 1)], j.items[n - 1]) {
      token := Dec(n - 1);
      q := FlatEntryIsLeaf(p + [token], j.items[n - 1], key);
    } else {
      token, q := FlatItemIsLeaf(p, j, n - 1, key);
    }
  }

  lemma {:induction false} FlatMemberIsLeaf(p: seq<Str>, j: Json, ks: seq<Str>, key: Str)
    returns (token: Str, q: seq<Str>)
    requires j.Obj? && (forall k | k in ks :: k in j.members) && key in FlatMembers(p, j, ks)
    ensures HasChild(j, token) && key == ToString(p + [token] + q) && IsLeaf(ChildOf(j, token), q)
    ensures FlatMembers(p, j, ks)[key] == LeafValue(ChildOf(j, token), q)
    decreases j, 0, |ks|
  {
    var k := ks[|ks| - 1];
    if key in Flat(p + [k], j.members[k]) {
      token := k;
      q := FlatEntryIsLeaf(p + [token], j.members[k], key);
    } else {
      token, q := FlatMemberIsLeaf(p, j, ks[..|ks| - 1], key);
    }
  }

  /** The pointer of every leaf is a key. */
  lemma {:induction false} LeafHasKey(p: seq<Str>, j: Json, q: seq<Str>)
    requires IsLeaf(j, q)
    ensures ToString(p + q) in Flat(p, j)
    decreases j
  {
    if q == [] {
      assert p + q == p;
    } else {
      var token := q[0];
      LeafHasKey(p + [token], ChildOf(j, token), q[1..]);
      hide ToString, IsLeaf;
      assert p + [token] + q[1..] == p + q;
      FlatCovers(p, j, token);
    }
  }

  lemma FlatCovers(p: seq<Str>, j: Json, token: Str)
    requires HasChild(j, token)
    ensures Flat(p + [token], ChildOf(j, token)).Keys <= Flat(p, j).Keys
  {
    if j.Arr? {
      FlatItemsCover(p, j, Value(token), |j.items|);
    } else {
      var ks := SortedKeys(j.members.Keys);
      assert token in ks;
      var n :| 0 <= n < |ks| && ks[n] == token;
      FlatMembersCover(p, j, ks, n);
    }
  }

  lemma {:induction false} FlatItemsCover(p: seq<Str>, j: Json, i: nat, n: nat)
    requires j.Arr? && i < n <= |j.items|
    ensures Flat(p + [Dec(i)], j.items[i]).Keys <= FlatItems(p, j, n).Keys
    decreases n
  {
    if i < n - 1 { FlatItemsCover(p, j, i, n - 1); }
  }

  lemma {:induction false} FlatMembersCover(p: seq<Str>, j: Json, ks: seq<Str>, n: nat)
    requires j.Obj? && (forall k | k in ks :: k in j.members) && n < |ks|
    ensures Flat(p + [ks[n]], j.members[ks[n]]).Keys <= FlatMembers(p, j, ks).Keys
    decreases |ks|
  {
    if n < |ks| - 1 { FlatMembersCover(p, j, ks[..|ks| - 1], n); }
  }

  /** Entries below different tokens never share a key. */
  lemma FlatDisjoint(p: seq<Str>, s: Str, t: Str, x: Json, y: Json)
    requires s != t
    ensures Flat(p + [s], x).Keys !! Flat(p + [t], y).Keys
  {
    forall key | key in Flat(p + [s], x) ensures key !in Flat(p + [t], y) {
      if key in Flat(p + [t], y) {
        var q := FlatEntryIsLeaf(p + [s], x, key);
        var r := FlatEntryIsLeaf(p + [t], y, key);
        assert (p + [s] + q)[|p|] == s && (p + [t] + r)[|p|] == t;
        ToStringInjective(p + [s] + q, p + [t] + r);
      }
    }
  }

  lemma UnionSize<K, V>(a: map<K, V>, b: map<K, V>)
    requires a.Keys !! b.Keys
    ensures |a + b| == |a| + |b|
  {
    assert (a + b).Keys == a.Keys + b.Keys;
    assert |a| == |a.Keys| && |b| == |b.Keys| && |a + b| == |(a + b).Keys|;
  }

  lemma {:induction false} FlatSize(p: seq<Str>, j: Json)
    ensures |Flat(p, j)| == LeafCount(j)
    decreases j, 1, 0
  {
    if !Childless(j) {
      if j.Arr? {
        FlatItemsSize(p, j, |j.items|);
      } else {
        FlatMembersSize(p, j, SortedKeys(j.members.Keys));
      }
    }
  }

  lemma {:induction false} FlatItemsSize(p: seq<Str>, j: Json, n: nat)
    requires j.Arr? && n <= |j.items|
    ensures |FlatItems(p, j, n)| == ItemLeaves(j, n)
    decreases j, 0, n
  {
    if n > 0 {
      FlatItemsSize(p, j, n - 1);
      FlatSize(p + [Dec(n - 1)], j.items[n - 1]);
      FlatItemNew(p, j, n);
      UnionSize(FlatItems(p, j, n - 1), Flat(p + [Dec(n - 1)], j.items[n - 1]));
    }
  }

  lemma FlatItemNew(p: seq<Str>, j: Json, n: nat)
    requires j.Arr? && 0 < n <= |j.items|
    ensures FlatItems(p, j, n - 1).Keys !! Flat(p + [Dec(n - 1)], j.items[n - 1]).Keys
  {
    hide Flat, FlatItems, Dec;
    var before, last := FlatItems(p, j, n - 1), Flat(p + [Dec(n - 1)], j.items[n - 1]);
    forall key | key in before ensures key !in last {
      var i := FlatItemsOrigin(p, j, n - 1, key);
      if Dec(i) == Dec(n - 1) { DecInjective(i, n - 1); }
      FlatDisjoint(p, Dec(i), Dec(n - 1), j.items[i], j.items[n - 1]);
    }
  }

  lemma {:induction false} FlatItemsOrigin(p: seq<Str>, j: Json, n: nat, key: Str) returns (i: nat)
    requires j.Arr? && n <= |j.items| && key in FlatItems(p, j, n)
    ensures i < n && key in Flat(p + [Dec(i)], j.items[i])
  {
    if key in Flat(p + [Dec(n - 1)], j.items[n - 1]) {
      i := n - 1;
    } else {
      i := FlatItemsOrigin(p, j, n - 1, key);
    }
  }

  lemma {:induction false} FlatMembersSize(p: seq<Str>, j: Json, ks: seq<Str>)
    requires j.Obj? && Ascending(ks) && forall k | k in ks :: k in j.members
    ensures |FlatMembers(p, j, ks)| == MemberLeaves(j, ks)
    decreases j, 0, |ks|
  {
    if ks != [] {
      var before, k := ks[..|ks| - 1], ks[|ks| - 1];
      FlatMembersSize(p, j, before);
      FlatSize(p + [k], j.members[k]);
      LexTrichotomy(k, k);
      FlatMemberNew(p, j, before, k);
      UnionSize(FlatMembers(p, j, before), Flat(p + [k], j.members[k]));
    }
  }

  lemma FlatMemberNew(p: seq<Str>, j: Json, ks: seq<Str>, k: Str)
    requires j.Obj? && (forall x | x in ks :: x in j.members) && k in j.members && k !in ks
    ensures FlatMembers(p, j, ks).Keys !! Flat(p + [k], j.members[k]).Keys
  {
    hide Flat, FlatMembers;
    forall key | key in FlatMembers(p, j, ks) ensures key !in Flat(p + [k], j.members[k]) {
      var n := FlatMembersOrigin(p, j, ks, key);
      FlatDisjoint(p, ks[n], k, j.members[ks[n]], j.members[k]);
    }
  }

  lemma {:induction false} FlatMembersOrigin(p: seq<Str>, j: Json, ks: seq<Str>, key: Str) returns (n: nat)
    requires j.Obj? && (forall k | k in ks :: k in j.members) && key in FlatMembers(p, j, ks)
    ensures n < |ks| && key in Flat(p + [ks[n]], j.members[ks[n]])
    decreases |ks|
  {
    var k := ks[|ks| - 1];
    if key in Flat(p + [k], j.members[k]) {
      n := |ks| - 1;
    } else {
      n := FlatMembersOrigin(p, j, ks[..|ks| - 1], key);
    }
  }

  /** The tokens that are array indices fit into an int. */
  predicate IndicesFit(j: Json, q: seq<Str>)
    requires IsLeaf(j, q)
  {
    q != [] ==> (j.Arr? ==> Value(q[0]) <= INT_MAX) && IndicesFit(ChildOf(j, q[0]), q[1..])
  }

  /** Reading a value through the pointer of a leaf reaches that leaf, as long as stoi can read the indices. */
  lemma {:induction false} LeafResolves(j: Json, q: seq<Str>)
    requires IsLeaf(j, q)
    ensures At(j, q).Ok? <==> IndicesFit(j, q)
    ensures At(j, q).Ok? ==> Childless(At(j, q).value)
    ensures At(j, q).Ok? ==> LeafValue(j, q) == (if At(j, q).value.Primitive() then At(j, q).value else Null)
  {
    if q != [] {
      LeafResolves(ChildOf(j, q[0]), q[1..]);
      if j.Arr? { StoiOfDec(Value(q[0])); }
    }
  }

  lemma {:induction false} IndexableFits(j: Json, q: seq<Str>)
    requires IsLeaf(j, q) && Indexable(j)
    ensures IndicesFit(j, q)
  {
    if q != [] { IndexableFits(ChildOf(j, q[0]), q[1..]); }
  }

  lemma KeyIsLeaf(j: Json, key: Str)
    requires key in Flat([], j)
    ensures Split(key).Ok? && IsLeaf(j, Split(key).value) && Flat([], j)[key] == LeafValue(j, Split(key).value)
  {
    var q := FlatEntryIsLeaf([], j, key);
    assert [] + q == q;
    SplitToString(q);
  }

  lemma LeafIsKey(j: Json, q: seq<Str>)
    requires IsLeaf(j, q)
    ensures ToString(q) in Flat([], j) && Split(ToString(q)) == Ok(q)
  {
    LeafHasKey([], j, q);
    assert [] + q == q;
    SplitToString(q);
  }

  /** What at() of a flattened key does on the original value: it finds the leaf, unless an index on the way
      is too large for stoi, and then it throws. */
  predicate Resolves(j: Json, key: Str, leaf: Json) {
    && Split(key).Ok? && IsLeaf(j, Split(key).value)
    && var r := At(j, Split(key).value);
       && (r.Ok? <==> IndicesFit(j, Split(key).value))
       && (r.Ok? ==> Childless(r.value) && leaf == (if r.value.Primitive() then r.value else Null))
  }

  /** flatten conserves the leaves: there are as many entries as leaves, every leaf has the key that
      prints its path, and at() of any key reaches the leaf whose value the entry holds exactly if the
      indices of its path fit into an int. */
  lemma FlattenConservesLeaves(j: Json)
    ensures |Flat([], j)| == LeafCount(j)
    ensures forall q | IsLeaf(j, q) :: ToString(q) in Flat([], j)
    ensures forall key | key in Flat([], j) :: Resolves(j, key, Flat([], j)[key])
  {
    FlatSize([], j);
    forall key | key in Flat([], j) ensures Resolves(j, key, Flat([], j)[key]) {
      KeyIsLeaf(j, key);
      LeafResolves(j, Split(key).value);
    }
    forall q | IsLeaf(j, q) ensures ToString(q) in Flat([], j) {
      LeafIsKey(j, q);
    }
  }

  /** In particular every key resolves in a value without longer arrays. */
  lemma IndexableResolves(j: Json, key: Str)
    requires Indexable(j) && key in Flat([], j)
    ensures Split(key).Ok? && At(j, Split(key).value).Ok?
  {
    KeyIsLeaf(j, key);
    IndexableFits(j, Split(key).value);
    LeafResolves(j, Split(key).value);
  }
}
