/** j.flatten().unflatten() == j holds exactly for the restorable values. */
module FlattenRoundTrip {
  import opened Bytes
  import opened Json
  import opened Pointer
  import opened Access
  import opened Flatten
  import opened Unflatten
  import opened Rebuild
  import opened Restore

  // ----- what a caller can check beforehand -----

  /** The pointers below key `k` sort before those below the key "0", whose value is `zero`. */
  predicate Precedes(k: Str, zero: Json) {
    || k == []
    || (k[0] < ZERO && k[0] != SLASH)
    || (k[0] == ZERO && |k| > 1 && !zero.Primitive() && k[1] < SLASH)
  }

  /** Nothing inside is empty, no array is too long for an int index, and an object with the key "0"
      has another key that sorts before it. */
  ghost predicate Restorable(j: Json) {
    match j
    case Arr(xs) => xs != [] && |xs| <= INT_MAX + 1 && forall x | x in xs :: Restorable(x)
    case Obj(m) =>
      && m != map[]
      && (FIRST in m ==> exists k :: k in m && Precedes(k, m[FIRST]))
      && forall k | k in m :: Restorable(m[k])
    case _ => true
  }

  lemma {:induction false} RestorableIsSolid(j: Json)
    requires Restorable(j)
    ensures Solid(j)
  {
    match j {
      case Arr(xs) => forall x | x in xs ensures Solid(x) { RestorableIsSolid(x); }
      case Obj(m) => forall k | k in m ensures Solid(m[k]) { RestorableIsSolid(m[k]); }
      case _ =>
    }
  }

  // ----- the order of pointers below two keys of an object -----

  /** Where two pointers part in the first token. */
  lemma ToStringHead(k: Str, p: seq<Str>)
    ensures ToString([k] + p) == [SLASH] + (Encode(k) + ToString(p))
    ensures ToString(p) == [] || ToString(p)[0] == SLASH
    ensures ToString(p) == [] <==> p == []
  {
    EscapeIsEncode(k);
    assert ([k] + p)[1..] == p;
  }

  lemma KeyOrder(k: Str, p: seq<Str>, zero: Json, q: seq<Str>)
    requires k != FIRST && (q == [] ==> zero.Primitive()) && (q != [] ==> !zero.Primitive())
    ensures LexLt(ToString([k] + p), ToString([FIRST] + q)) <==> Precedes(k, zero)
  {
    ToStringHead(k, p);
    ToStringHead(FIRST, q);
    EncodeOfDigits(FIRST);
    hide *;
    LexCommonPrefix([SLASH], Encode(k) + ToString(p), FIRST + ToString(q));
    KeyTextOrder(k, ToString(p), ToString(q), zero);
  }

  lemma KeyTextOrder(k: Str, rest: Str, tail: Str, zero: Json)
    requires k != FIRST && (rest == [] || rest[0] == SLASH) && (tail == [] || tail[0] == SLASH)
    requires tail == [] <==> zero.Primitive()
    ensures LexLt(Encode(k) + rest, FIRST + tail) <==> Precedes(k, zero)
  {
    var a := Encode(k) + rest;
    HeadOfEncode(k);
    hide Encode;
    if k == [] {
      assert a == rest;
    } else if k[0] != ZERO {
      assert a[0] == Encode(k)[0] && (FIRST + tail)[0] == ZERO;
    } else {
      assert k != [ZERO] ==> |k| > 1;
      HeadOfEncode(k[1..]);
      var e := Encode(k[1..]);
      assert a == [ZERO] + (e + rest);
      LexCommonPrefix([ZERO], e + rest, tail);
      assert (e + rest)[0] == e[0] && e[0] != SLASH;
    }
  }

  lemma HeadOfEncode(k: Str)
    ensures k == [] ==> Encode(k) == []
    ensures k != [] ==> Encode(k) != [] && Encode(k)[0] == (if k[0] == SLASH then TILDE else k[0])
    ensures k != [] && k[0] == ZERO ==> Encode(k)[1..] == Encode(k[1..])
  {
  }

  // ----- restorable values are met the right way -----

  lemma {:induction false} RestorableAdmissible(j: Json, S: set<seq<Str>>, p: seq<Str>)
    requires Restorable(j) && IsLeaf(j, p) && Downward(j, S, p)
    ensures Admissible(j, S, p)
    decreases |p|
  {
    if p != [] {
      DownwardChild(j, S, p);
      RestorableAdmissible(ChildOf(j, p[0]), Under(S, p[0]), p[1..]);
      if S == {} {
        if j.Arr? {
          ArrayStartsAtZero(j, S, p);
        } else if p[0] == FIRST {
          RestorableObject(j, p);
        }
      }
    }
  }

  /** Some leaf of a restorable object comes before any leaf under the key "0". */
  lemma RestorableObject(j: Json, p: seq<Str>)
    requires j.Obj? && Restorable(j) && IsLeaf(j, p) && p != [] && p[0] == FIRST
    ensures exists q :: IsLeaf(j, q) && LexLt(ToString(q), ToString(p))
  {
    var zero := j.members[FIRST];
    var k :| k in j.members && Precedes(k, zero);
    var q := HasLeaf(j.members[k]);
    LeafBelow(j, k, q);
    assert p == [FIRST] + p[1..];
    ChildlessIsPrimitive(zero, p[1..]);
    KeyOrder(k, q, zero, p[1..]);
    assert IsLeaf(j, [k] + q);
  }

  lemma ChildlessIsPrimitive(j: Json, q: seq<Str>)
    requires IsLeaf(j, q) && Restorable(j)
    ensures q == [] <==> j.Primitive()
  {
  }

  // ----- values met the right way are restorable -----

  /** The leaves whose pointers sort before that of `p`. */
  ghost function Earlier(j: Json, p: seq<Str>): (S: set<seq<Str>>)
    ensures forall q :: q in S <==> IsLeaf(j, q) && LexLt(ToString(q), ToString(p))
  {
    var S := set key | key in Flat([], j).Keys && LexLt(key, ToString(p)) && Split(key).Ok? :: Split(key).value;
    assert forall q :: q in S <==> IsLeaf(j, q) && LexLt(ToString(q), ToString(p)) by {
      forall q ensures q in S <==> IsLeaf(j, q) && LexLt(ToString(q), ToString(p)) {
        if q in S {
          var key :| key in Flat([], j).Keys && LexLt(key, ToString(p)) && Split(key) == Ok(q);
          KeyIsLeaf(j, key);
          ToStringSplit(key);
        }
        if IsLeaf(j, q) && LexLt(ToString(q), ToString(p)) {
          LeafIsKey(j, q);
          assert ToString(q) in Flat([], j).Keys;
        }
      }
    }
    S
  }

  ghost predicate AllAdmissible(j: Json) {
    forall p | IsLeaf(j, p) :: Admissible(j, Earlier(j, p), p)
  }

  lemma EarlierUnder(j: Json, t: Str, p: seq<Str>)
    requires HasChild(j, t) && IsLeaf(ChildOf(j, t), p)
    ensures Under(Earlier(j, [t] + p), t) == Earlier(ChildOf(j, t), p)
  {
    hide ToString, LexLt, ChildOf, HasChild, IsLeaf;
    var c, S := ChildOf(j, t), Earlier(j, [t] + p);
    forall q ensures q in Under(S, t) <==> q in Earlier(c, p) {
      SameHeadOrder(t, q, p);
      LeafBelow(j, t, q);
      assert ([t] + q)[1..] == q;
      if q in Under(S, t) {
        var r :| r in S && r != [] && r[0] == t && q == r[1..];
        assert r == [t] + q;
      }
      if q in Earlier(c, p) { assert [t] + q in S; }
    }
  }

  lemma AllAdmissibleChild(j: Json, t: Str)
    requires AllAdmissible(j) && HasChild(j, t)
    ensures AllAdmissible(ChildOf(j, t))
  {
    var c := ChildOf(j, t);
    forall p | IsLeaf(c, p) ensures Admissible(c, Earlier(c, p), p) {
      LeafBelow(j, t, p);
      EarlierUnder(j, t, p);
      assert ([t] + p)[0] == t && ([t] + p)[1..] == p;
      assert Admissible(j, Earlier(j, [t] + p), [t] + p);
    }
  }

  /** A leaf with the least pointer of all. */
  lemma LeastLeaf(j: Json) returns (p: seq<Str>)
    ensures IsLeaf(j, p) && Earlier(j, p) == {}
    ensures forall q | IsLeaf(j, q) && q != p :: LexLt(ToString(p), ToString(q))
  {
    var some := HasLeaf(j);
    LeafIsKey(j, some);
    var key := Least(Flat([], j).Keys);
    KeyIsLeaf(j, key);
    ToStringSplit(key);
    p := Split(key).value;
    forall q | IsLeaf(j, q) && q != p ensures LexLt(ToString(p), ToString(q)) {
      LeafIsKey(j, q);
      assert ToString(q) in Flat([], j).Keys;
      if ToString(q) == key { ToStringInjective(p, q); }
    }
    forall q | q in Earlier(j, p) ensures false {
      LexTrichotomy(ToString(q), ToString(p));
    }
  }

  lemma {:induction false} AdmissibleRestorable(j: Json)
    requires Solid(j) && AllAdmissible(j)
    ensures Restorable(j)
  {
    match j {
      case Arr(xs) =>
        forall x | x in xs ensures Restorable(x) {
          var i :| 0 <= i < |xs| && xs[i] == x;
          HasItem(xs, i);
          AllAdmissibleChild(j, Dec(i));
          AdmissibleRestorable(x);
        }
        LastIndexFits(j);
      case Obj(m) =>
        forall k | k in m ensures Restorable(m[k]) {
          AllAdmissibleChild(j, k);
          AdmissibleRestorable(m[k]);
        }
        if FIRST in m { SomethingPrecedes(j); }
      case _ =>
    }
  }

  lemma LastIndexFits(j: Json)
    requires j.Arr? && Solid(j) && AllAdmissible(j)
    ensures |j.items| <= INT_MAX + 1
  {
    var n := |j.items| - 1;
    HasItem(j.items, n);
    var q := HasLeaf(j.items[n]);
    LeafBelow(j, Dec(n), q);
    var p := [Dec(n)] + q;
    assert Admissible(j, Earlier(j, p), p);
    DecDenotes(n);
  }

  lemma SomethingPrecedes(j: Json)
    requires j.Obj? && Solid(j) && AllAdmissible(j) && FIRST in j.members
    ensures exists k :: k in j.members && Precedes(k, j.members[FIRST])
  {
    hide ToString, LexLt, Precedes;
    var zero := j.members[FIRST];
    var p := LeastLeaf(j);
    assert p != [] && p[0] != FIRST && p[0] in j.members by { assert Admissible(j, Earlier(j, p), p); }
    var q := HasLeaf(zero);
    LeafBelow(j, FIRST, q);
    SolidChild(j, FIRST);
    assert q == [] <==> zero.Primitive();
    hide IsLeaf, Admissible, Earlier, Solid;
    assert p == [p[0]] + p[1..] && ([FIRST] + q)[0] == FIRST;
    KeyOrder(p[0], p[1..], zero, q);
  }

  // ----- the whole loop -----

  ghost function PathsOf(ks: seq<Str>): set<seq<Str>> {
    set key | key in ks && Split(key).Ok? :: Split(key).value
  }

  lemma InPathsOf(ks: seq<Str>, q: seq<Str>)
    ensures q in PathsOf(ks) <==> ToString(q) in ks
  {
    SplitToString(q);
    if q in PathsOf(ks) {
      var key :| key in ks && Split(key) == Ok(q);
      ToStringSplit(key);
    }
  }

  /** Before key n is inserted, exactly the earlier leaves are there. */
  lemma PathsOfPrefix(j: Json, ks: seq<Str>, n: nat)
    requires ks == SortedKeys(Flat([], j).Keys) && n < |ks|
    ensures Split(ks[n]).Ok? && IsLeaf(j, Split(ks[n]).value)
    ensures PathsOf(ks[..n]) == Earlier(j, Split(ks[n]).value)
  {
    hide PathsOf, Flat, Split, ToString, IsLeaf, LexLt, SortedKeys;
    assert ks[n] in ks;
    KeyIsLeaf(j, ks[n]);
    ToStringSplit(ks[n]);
    var p := Split(ks[n]).value;
    forall q ensures q in PathsOf(ks[..n]) <==> q in Earlier(j, p) {
      var key := ToString(q);
      InPathsOf(ks[..n], q);
      InAscendingPrefix(ks, n, key);
      SplitToString(q);
      if key in ks { KeyIsLeaf(j, key); }
      if IsLeaf(j, q) { LeafIsKey(j, q); }
    }
  }

  lemma InAscendingPrefix(ks: seq<Str>, n: nat, key: Str)
    requires Ascending(ks) && n < |ks|
    ensures key in ks[..n] <==> key in ks && LexLt(key, ks[n])
  {
    hide LexLt;
    if key in ks {
      var i :| 0 <= i < |ks| && ks[i] == key;
      LexTrichotomy(key, ks[n]);
      if i < n { assert ks[..n][i] == key; }
    }
  }

  lemma PathsOfNext(ks: seq<Str>, n: nat)
    requires n < |ks| && Split(ks[n]).Ok?
    ensures PathsOf(ks[..n + 1]) == PathsOf(ks[..n]) + {Split(ks[n]).value}
  {
    hide PathsOf, Split, ToString;
    var p := Split(ks[n]).value;
    ToStringSplit(ks[n]);
    assert ks[..n + 1] == ks[..n] + [ks[n]];
    forall q ensures q in PathsOf(ks[..n + 1]) <==> q in PathsOf(ks[..n]) + {p} {
      InPathsOf(ks[..n + 1], q);
      InPathsOf(ks[..n], q);
      if ToString(q) == ks[n] { ToStringInjective(p, q); }
    }
  }

  /** The leaf behind a key is met the right way. */
  ghost predicate AdmissibleAt(j: Json, key: Str) {
    Split(key).Ok? && IsLeaf(j, Split(key).value) && Admissible(j, Earlier(j, Split(key).value), Split(key).value)
  }

  /** Inserting one key into the document rebuilt so far. */
  lemma InsertOne(j: Json, ks: seq<Str>, n: nat)
    requires ks == SortedKeys(Flat([], j).Keys) && n < |ks| && Solid(j)
    ensures var r := Insert(Partial(j, PathsOf(ks[..n])), ks[n], Flat([], j)[ks[n]]);
      if AdmissibleAt(j, ks[n]) then r == Ok(Partial(j, PathsOf(ks[..n + 1]))) else GoesWrong(r, j)
  {
    hide Partial, PathsOf, Split, Flat, Create, Wrong, Admissible, IsLeaf, LeafValue;
    var key := ks[n];
    assert key in ks;
    KeyIsLeaf(j, key);
    PathsOfPrefix(j, ks, n);
    PathsOfNext(ks, n);
    var p, S := Split(key).value, PathsOf(ks[..n]);
    LeafIsPrimitive(j, p);
    if AdmissibleAt(j, key) {
      CreateAdmissible(j, S, p);
    } else {
      CreateInadmissible(j, S, p);
    }
  }

  lemma {:induction false} LeafIsPrimitive(j: Json, p: seq<Str>)
    requires IsLeaf(j, p)
    ensures LeafValue(j, p).Primitive()
  {
    if p != [] { LeafIsPrimitive(ChildOf(j, p[0]), p[1..]); }
  }

  lemma {:induction false} WrongRest(j: Json, doc: Json, ks: seq<Str>)
    requires Wrong(doc, j) && Solid(j) && forall k | k in ks :: k in Flat([], j)
    ensures GoesWrong(InsertAll(doc, Flat([], j), ks), j)
    decreases |ks|
  {
    hide Split, Flat, Create, Wrong, IsLeaf, LeafValue;
    if ks != [] {
      var key := ks[0];
      KeyIsLeaf(j, key);
      WrongStays(doc, j, Split(key).value, Flat([], j)[key]);
      var next := Insert(doc, key, Flat([], j)[key]);
      if next.Ok? { WrongRest(j, next.value, ks[1..]); }
    }
  }

  /** Inserting the keys from n on: the whole value comes out if all their leaves are admissible;
      otherwise an exception, or a document with an array in place of an object. */
  lemma {:induction false} InsertRest(j: Json, ks: seq<Str>, n: nat)
    requires ks == SortedKeys(Flat([], j).Keys) && n <= |ks| && Solid(j)
    ensures var r := InsertAll(Partial(j, PathsOf(ks[..n])), Flat([], j), ks[n..]);
      if forall m | n <= m < |ks| :: AdmissibleAt(j, ks[m]) then r == Ok(Partial(j, PathsOf(ks))) else GoesWrong(r, j)
    decreases |ks| - n
  {
    hide Partial, PathsOf, Flat, Insert, Wrong, AdmissibleAt, Solid, SortedKeys;
    if n == |ks| {
      assert ks[..n] == ks;
    } else {
      InsertRest(j, ks, n + 1);
      InsertOne(j, ks, n);
      assert ks[n..][0] == ks[n] && ks[n..][1..] == ks[n + 1..];
      var next := Insert(Partial(j, PathsOf(ks[..n])), ks[n], Flat([], j)[ks[n]]);
      if !AdmissibleAt(j, ks[n]) && next.Ok? {
        WrongRest(j, next.value, ks[n + 1..]);
      }
    }
  }

  lemma AllAdmissibleKeys(j: Json, ks: seq<Str>)
    requires ks == SortedKeys(Flat([], j).Keys)
    ensures AllAdmissible(j) <==> forall m | 0 <= m < |ks| :: AdmissibleAt(j, ks[m])
  {
    hide Flat, Split, ToString, IsLeaf, Admissible;
    if AllAdmissible(j) {
      forall m | 0 <= m < |ks| ensures AdmissibleAt(j, ks[m]) {
        assert ks[m] in ks;
        KeyIsLeaf(j, ks[m]);
      }
    } else {
      var p :| IsLeaf(j, p) && !Admissible(j, Earlier(j, p), p);
      LeafIsKey(j, p);
      assert ToString(p) in ks;
      var m :| 0 <= m < |ks| && ks[m] == ToString(p);
      assert !AdmissibleAt(j, ks[m]);
    }
  }

  // ----- all leaves together are the value -----

  lemma {:induction false} PartialComplete(j: Json, S: set<seq<Str>>)
    requires Solid(j) && forall q :: q in S <==> IsLeaf(j, q)
    ensures Partial(j, S) == j
  {
    hide Under, IsLeaf, Extent;
    var some := HasLeaf(j);
    assert S != {};
    PartialIs(j, S);
    if j.Arr? {
      forall i | 0 <= i < |j.items|
        ensures Under(S, Dec(i)) != {} && Partial(j.items[i], Under(S, Dec(i))) == j.items[i]
      {
        HasItem(j.items, i);
        UnderComplete(j, S, Dec(i));
        PartialComplete(j.items[i], Under(S, Dec(i)));
      }
      ItemsComplete(j, S);
    } else if j.Obj? {
      forall k | k in j.members ensures Under(S, k) != {} && Partial(j.members[k], Under(S, k)) == j.members[k] {
        UnderComplete(j, S, k);
        PartialComplete(j.members[k], Under(S, k));
      }
      MembersComplete(j, S);
    }
  }

  lemma ItemsComplete(j: Json, S: set<seq<Str>>)
    requires j.Arr?
    requires forall i | 0 <= i < |j.items| ::
               Under(S, Dec(i)) != {} && Partial(j.items[i], Under(S, Dec(i))) == j.items[i]
    ensures PartialItems(j, S) == j.items
  {
    hide Partial, Under, Dec;
  }

  lemma MembersComplete(j: Json, S: set<seq<Str>>)
    requires j.Obj?
    requires forall k | k in j.members :: Under(S, k) != {} && Partial(j.members[k], Under(S, k)) == j.members[k]
    ensures PartialMembers(j, S) == j.members
  {
    hide Partial, Under;
  }

  lemma UnderComplete(j: Json, S: set<seq<Str>>, t: Str)
    requires HasChild(j, t) && forall q :: q in S <==> IsLeaf(j, q)
    ensures forall q :: q in Under(S, t) <==> IsLeaf(ChildOf(j, t), q)
    ensures Under(S, t) != {}
  {
    hide IsLeaf, HasChild, ChildOf;
    forall q ensures q in Under(S, t) <==> IsLeaf(ChildOf(j, t), q) {
      LeafBelow(j, t, q);
      assert ([t] + q)[1..] == q;
      if q in Under(S, t) {
        var r :| r in S && r != [] && r[0] == t && q == r[1..];
        assert r == [t] + q;
      }
      if IsLeaf(ChildOf(j, t), q) { assert [t] + q in S; }
    }
    var some := HasLeaf(ChildOf(j, t));
    assert some in Under(S, t);
  }

  // ----- no empty container ever comes out of unflatten -----

  lemma {:induction false} CreateSolid(doc: Json, p: seq<Str>, v: Json)
    requires Solid(doc) && v.Primitive()
    ensures Create(doc, p, v).Ok? ==> Solid(Create(doc, p, v).value)
    decreases |p|
  {
    if p != [] {
      match doc {
        case Null =>
          CreateSolid(Null, p[1..], v);
          var c := Create(Null, p[1..], v);
          if c.Ok? { assert p[0] in map[p[0] := c.value]; }
        case Obj(m) => CreateSolid(if p[0] in m then m[p[0]] else Null, p[1..], v);
        case Arr(xs) =>
          var i := Stoi(p[0]);
          if i.Ok? && i.value >= 0 {
            FilledIs(xs, i.value);
            CreateSolid(Filled(xs, i.value)[i.value], p[1..], v);
          }
        case _ =>
      }
    }
  }

  lemma {:induction false} InsertAllSolid(doc: Json, m: map<Str, Json>, ks: seq<Str>)
    requires Solid(doc) && forall k | k in ks :: k in m
    ensures InsertAll(doc, m, ks).Ok? ==> Solid(InsertAll(doc, m, ks).value)
    decreases |ks|
  {
    if ks != [] {
      var v := m[ks[0]];
      var next := Insert(doc, ks[0], v);
      if next.Ok? {
        CreateSolid(doc, Split(ks[0]).value, v);
        InsertAllSolid(next.value, m, ks[1..]);
      }
    }
  }

  lemma {:induction false} EqSolid(a: Json, b: Json)
    requires Eq(a, b) && Solid(a)
    ensures Solid(b)
  {
    match b {
      case Arr(ys) => forall y | y in ys ensures Solid(y) {
        var i :| 0 <= i < |ys| && ys[i] == y;
        EqSolid(a.items[i], y);
      }
      case Obj(m) => forall k | k in m ensures Solid(m[k]) { EqSolid(a.members[k], m[k]); }
      case _ =>
    }
  }

  // ----- the theorem -----

  /** unflatten(flatten(j)) is a value equal to j exactly for the restorable j, and then it is j itself. */
  lemma UnflattenOfFlatten(j: Json)
    requires j.FloatFree()
    ensures var r := Unflattened(Obj(Flat([], j)));
      (r.Ok? && Eq(r.value, j) <==> Restorable(j)) && (Restorable(j) ==> r == Ok(j))
  {
    var m := Flat([], j);
    var ks := SortedKeys(m.Keys);
    InsertAllSolid(Null, m, ks);
    var r := Unflattened(Obj(m));
    if r.Ok? && Eq(r.value, j) { EqSolid(r.value, j); }
    if Solid(j) {
      SolidRoundTrip(j, ks);
      if AllAdmissible(j) {
        AdmissibleRestorable(j);
        EqReflexive(j);
      } else {
        if r.Ok? { WrongDiffers(r.value, j); }
        if Restorable(j) {
          forall p | IsLeaf(j, p) ensures Admissible(j, Earlier(j, p), p) {
            RestorableAdmissible(j, Earlier(j, p), p);
          }
        }
      }
    } else if Restorable(j) {
      RestorableIsSolid(j);
    }
  }

  lemma SolidRoundTrip(j: Json, ks: seq<Str>)
    requires Solid(j) && ks == SortedKeys(Flat([], j).Keys)
    ensures var r := InsertAll(Null, Flat([], j), ks);
      if AllAdmissible(j) then r == Ok(j) else GoesWrong(r, j)
  {
    InsertRest(j, ks, 0);
    assert ks[0..] == ks && ks[..0] == [];
    assert PathsOf([]) == {};
    PartialNull(j);
    AllAdmissibleKeys(j, ks);
    forall q ensures q in PathsOf(ks) <==> IsLeaf(j, q) {
      InPathsOf(ks, q);
      SplitToString(q);
      if ToString(q) in ks { KeyIsLeaf(j, ToString(q)); }
      if IsLeaf(j, q) { LeafIsKey(j, q); }
    }
    PartialComplete(j, PathsOf(ks));
  }

  /** The case the documentation has in mind, without keys "0". */
  ghost predicate Plain(j: Json) {
    match j
    case Arr(xs) => xs != [] && |xs| <= INT_MAX + 1 && forall x | x in xs :: Plain(x)
    case Obj(m) => m != map[] && FIRST !in m && forall k | k in m :: Plain(m[k])
    case _ => true
  }

  lemma {:induction false} PlainIsRestorable(j: Json)
    requires Plain(j)
    ensures Restorable(j)
  {
    match j {
      case Arr(xs) => forall x | x in xs ensures Restorable(x) { PlainIsRestorable(x); }
      case Obj(m) => forall k | k in m ensures Restorable(m[k]) { PlainIsRestorable(m[k]); }
      case _ =>
    }
  }

  /** The documented exception is not the only one: {"0": v} is flattened without loss, but comes back as [v]. */
  lemma ZeroKeyComesBackAsArray(v: Json)
    requires v.Primitive()
    ensures Unflattened(Obj(Flat([], Obj(map[FIRST := v])))) == Ok(Arr([v]))
  {
    var j, key := Obj(map[FIRST := v]), ToString([FIRST]);
    ZeroKeyFlat(v);
    var m := map[key := v];
    SingleKey(key);
    assert m.Keys == {key};
    SplitToString([FIRST]);
    assert [FIRST][1..] == [] && [key][1..] == [];
    assert InsertAll(Null, m, [key]) == Insert(Null, key, v);
    assert Create(Null, [FIRST], v) == Ok(Arr([v]));
  }

  lemma ZeroKeyFlat(v: Json)
    requires v.Primitive()
    ensures Flat([], Obj(map[FIRST := v])) == map[ToString([FIRST]) := v]
  {
    hide ToString, FIRST;
    var j := Obj(map[FIRST := v]);
    assert FIRST in j.members && j.members.Keys == {FIRST};
    SingleKey(FIRST);
    assert [FIRST][..0] == [] && [] + [FIRST] == [FIRST];
    assert FlatMembers([], j, []) == map[];
    assert FlatMembers([], j, [FIRST]) == map[] + Flat([FIRST], v);
  }

  lemma SingleKey(k: Str)
    ensures SortedKeys({k}) == [k]
  {
    assert Least({k}) == k;
    assert {k} - {k} == {};
  }
}
