/** unflatten(flatten(j)): exactly when it gives j back. */
module Rebuild {
  import opened Bytes
  import opened Json
  import opened Access
  import opened Flatten
  import opened Unflatten

  /** No array or object inside is empty. */
  ghost predicate Solid(j: Json) {
    match j
    case Arr(xs) => xs != [] && forall x | x in xs :: Solid(x)
    case Obj(m) => m != map[] && forall k | k in m :: Solid(m[k])
    case _ => true
  }

  lemma SolidChild(j: Json, t: Str)
    requires Solid(j) && HasChild(j, t)
    ensures Solid(ChildOf(j, t))
  {
  }

  // ----- a step that goes well -----

  /** The new leaf is met the right way: an untouched array first by index 0, an untouched object by
      any key but "0", and indices fit into an int. */
  ghost predicate Admissible(j: Json, S: set<seq<Str>>, p: seq<Str>)
    requires IsLeaf(j, p)
    decreases |p|
  {
    p == [] || (
      && (S == {} ==> (j.Arr? <==> p[0] == FIRST))
      && (j.Arr? ==> Value(p[0]) <= INT_MAX)
      && Admissible(ChildOf(j, p[0]), Under(S, p[0]), p[1..]))
  }

  ghost function PartialItems(j: Json, S: set<seq<Str>>): (ys: seq<Json>)
    requires j.Arr?
    ensures |ys| == Extent(S, |j.items|)
    ensures forall i | 0 <= i < |ys| :: ys[i] == Partial(j.items[i], Under(S, Dec(i)))
  {
    seq(Extent(S, |j.items|), i requires 0 <= i < Extent(S, |j.items|) => Partial(j.items[i], Under(S, Dec(i))))
  }

  ghost function PartialMembers(j: Json, S: set<seq<Str>>): (m: map<Str, Json>)
    requires j.Obj?
    ensures forall k :: k in m <==> k in j.members && Under(S, k) != {}
    ensures forall k | k in m :: m[k] == Partial(j.members[k], Under(S, k))
  {
    map k | k in j.members && Under(S, k) != {} :: Partial(j.members[k], Under(S, k))
  }

  lemma PartialIs(j: Json, S: set<seq<Str>>)
    ensures j.Arr? ==> Partial(j, S) == if S == {} then Null else Arr(PartialItems(j, S))
    ensures j.Obj? ==> Partial(j, S) == if S == {} then Null else Obj(PartialMembers(j, S))
  {
    if j.Arr? && S != {} { assert Partial(j, S).items == PartialItems(j, S); }
    if j.Obj? && S != {} { assert Partial(j, S).members == PartialMembers(j, S); }
  }

  lemma {:induction false} ExtentGrows(S: set<seq<Str>>, p: seq<Str>, i: nat, n: nat)
    requires p != [] && p[0] == Dec(i)
    ensures Extent(S + {p}, n) == if i < n && Extent(S, n) <= i then i + 1 else Extent(S, n)
  {
    hide Under, Dec;
    if n > 0 {
      UnderOne(S, p, i, n - 1);
      ExtentStep(S, n);
      ExtentStep(S + {p}, n);
      hide Extent;
      ExtentGrows(S, p, i, n - 1);
    }
  }

  lemma ExtentStep(S: set<seq<Str>>, n: nat)
    requires n > 0
    ensures Extent(S, n) == if Under(S, Dec(n - 1)) != {} then n else Extent(S, n - 1)
  {
    hide Under, Dec;
  }

  lemma UnderOne(S: set<seq<Str>>, p: seq<Str>, i: nat, k: nat)
    requires p != [] && p[0] == Dec(i)
    ensures k == i ==> Under(S + {p}, Dec(k)) != {}
    ensures k != i ==> Under(S + {p}, Dec(k)) == Under(S, Dec(k))
  {
    hide Under, Dec;
    UnderLaws(S, p);
    if k == i {
      assert p[1..] in Under(S + {p}, Dec(k));
    } else if Dec(k) == Dec(i) {
      DecInjective(k, i);
    }
  }

  lemma ExtentOfNone(n: nat)
    ensures Extent({}, n) == 0
  {
    if n > 0 { ExtentOfNone(n - 1); }
  }

  lemma PartialNull(j: Json)
    ensures Partial(j, {}) == Null
  {
  }

  /** One array, before and after a leaf below index i was added. */
  lemma ItemsStep(j: Json, S: set<seq<Str>>, p: seq<Str>, i: nat)
    requires j.Arr? && i < |j.items| && p != [] && p[0] == Dec(i)
    ensures Filled(PartialItems(j, S), i)[i] == Partial(j.items[i], Under(S, Dec(i)))
    ensures Filled(PartialItems(j, S), i)[i := Partial(j.items[i], Under(S + {p}, Dec(i)))]
            == PartialItems(j, S + {p})
  {
    hide Partial, PartialItems, Under, Extent, Filled;
    var ys, zs := PartialItems(j, S), PartialItems(j, S + {p});
    ExtentGrows(S, p, i, |j.items|);
    FilledIs(ys, i);
    PartialNull(j.items[i]);
    var us := Filled(ys, i)[i := Partial(j.items[i], Under(S + {p}, Dec(i)))];
    forall k | 0 <= k < |zs| ensures us[k] == zs[k] {
      if k != i { OtherItem(j, S, p, i, k); }
    }
  }

  lemma FilledIs(xs: seq<Json>, i: nat)
    ensures |Filled(xs, i)| == if i < |xs| then |xs| else i + 1
    ensures forall k | 0 <= k < |Filled(xs, i)| :: Filled(xs, i)[k] == if k < |xs| then xs[k] else Null
  {
  }

  lemma OtherItem(j: Json, S: set<seq<Str>>, p: seq<Str>, i: nat, k: nat)
    requires j.Arr? && p != [] && p[0] == Dec(i) && k != i && k < |j.items|
    ensures Partial(j.items[k], Under(S + {p}, Dec(k))) ==
            if k < Extent(S, |j.items|) then Partial(j.items[k], Under(S, Dec(k))) else Null
  {
    if Dec(k) == Dec(i) { DecInjective(k, i); }
    UnderLaws(S, p);
    PartialNull(j.items[k]);
  }

  lemma MembersStep(j: Json, S: set<seq<Str>>, p: seq<Str>)
    requires j.Obj? && p != [] && p[0] in j.members
    ensures p[0] !in PartialMembers(j, S) ==> Partial(j.members[p[0]], Under(S, p[0])) == Null
    ensures PartialMembers(j, S)[p[0] := Partial(j.members[p[0]], Under(S + {p}, p[0]))]
            == PartialMembers(j, S + {p})
  {
    UnderLaws(S, p);
  }

  lemma NothingUnder(t: Str)
    ensures Under({}, t) == {}
  {
  }

  /** Assigning an admissible leaf to the partial document gives the next partial document. */
  lemma {:induction false} CreateAdmissible(j: Json, S: set<seq<Str>>, p: seq<Str>)
    requires IsLeaf(j, p) && Leaves(j, S) && Solid(j) && Admissible(j, S, p)
    ensures Create(Partial(j, S), p, LeafValue(j, p)) == Ok(Partial(j, S + {p}))
    decreases |p|
  {
    if p != [] {
      var t, c := p[0], ChildOf(j, p[0]);
      SolidChild(j, t);
      UnderLeaves(j, S, t);
      UnderLaws(S, p);
      CreateAdmissible(c, Under(S, t), p[1..]);
      PartialIs(j, S);
      PartialIs(j, S + {p});
      NothingUnder(t);
      if j.Arr? {
        ArrayCreate(j, S, p);
      } else {
        ObjectCreate(j, S, p);
      }
    }
  }

  lemma ArrayCreate(j: Json, S: set<seq<Str>>, p: seq<Str>)
    requires j.Arr? && p != [] && IsLeaf(j, p) && Value(p[0]) <= INT_MAX && (S == {} ==> p[0] == FIRST)
    requires var r := Create(Partial(ChildOf(j, p[0]), Under(S, p[0])), p[1..], LeafValue(j, p));
             r == Ok(Partial(ChildOf(j, p[0]), Under(S + {p}, p[0])))
    ensures Create(Partial(j, S), p, LeafValue(j, p)) == Ok(Partial(j, S + {p}))
  {
    assert HasChild(j, p[0]);
    hide Partial, PartialItems, Under, Extent, LeafValue, IsLeaf, FIRST, Stoi, Dec, Create, Filled;
    var i := Value(p[0]);
    PartialIs(j, S);
    PartialIs(j, S + {p});
    ItemsStep(j, S, p, i);
    StoiOfDec(i);
    var c := Partial(ChildOf(j, p[0]), Under(S + {p}, p[0]));
    if S == {} {
      FirstIndex();
      NothingYet(j);
      NothingUnder(p[0]);
      PartialNull(ChildOf(j, p[0]));
      CreateFirst(p, LeafValue(j, p), c);
      FilledIs([], 0);
      assert Filled([], 0)[0 := c] == [c];
    } else {
      CreateAt(PartialItems(j, S), p, i, LeafValue(j, p), c);
    }
  }

  lemma CreateFirst(p: seq<Str>, v: Json, c: Json)
    requires p != [] && p[0] == FIRST && Create(Null, p[1..], v) == Ok(c)
    ensures Create(Null, p, v) == Ok(Arr([c]))
  {
  }

  lemma CreateAt(xs: seq<Json>, p: seq<Str>, i: nat, v: Json, c: Json)
    requires p != [] && Stoi(p[0]) == Ok(i) && Create(Filled(xs, i)[i], p[1..], v) == Ok(c)
    ensures Create(Arr(xs), p, v) == Ok(Arr(Filled(xs, i)[i := c]))
  {
    hide Stoi;
  }

  lemma FirstIndex()
    ensures FIRST == Dec(0) && Value(FIRST) == 0
  {
    DecDenotes(0);
  }

  lemma NothingYet(j: Json)
    requires j.Arr?
    ensures PartialItems(j, {}) == [] && Partial(j, {}) == Null
  {
    ExtentOfNone(|j.items|);
  }

  lemma ObjectCreate(j: Json, S: set<seq<Str>>, p: seq<Str>)
    requires j.Obj? && p != [] && IsLeaf(j, p) && (S == {} ==> p[0] != FIRST)
    requires var r := Create(Partial(ChildOf(j, p[0]), Under(S, p[0])), p[1..], LeafValue(j, p));
             r == Ok(Partial(ChildOf(j, p[0]), Under(S + {p}, p[0])))
    ensures Create(Partial(j, S), p, LeafValue(j, p)) == Ok(Partial(j, S + {p}))
  {
    PartialIs(j, S);
    PartialIs(j, S + {p});
    MembersStep(j, S, p);
    if S == {} {
      NothingUnder(p[0]);
      assert PartialMembers(j, S) == map[] by { forall k ensures Under({}, k) == {} { NothingUnder(k); } }
    }
  }
}
