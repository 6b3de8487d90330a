/** When the leaves arrive in the order of their pointers, which values are restored. */
module Restore {
  import opened Bytes
  import opened Json
  import opened Pointer
  import opened Access
  import opened Flatten
  import opened Unflatten
  import opened Rebuild

  // ----- a step that goes wrong -----

  /** Somewhere an array has taken the place of an object. */
  ghost predicate Wrong(doc: Json, j: Json) {
    || (doc.Arr? && j.Obj?)
    || (doc.Arr? && j.Arr? && exists i :: 0 <= i < |doc.items| && i < |j.items| && Wrong(doc.items[i], j.items[i]))
    || (doc.Obj? && j.Obj? && exists k :: k in doc.members && k in j.members && Wrong(doc.members[k], j.members[k]))
  }

  lemma {:induction false} WrongDiffers(doc: Json, j: Json)
    requires Wrong(doc, j)
    ensures !Eq(doc, j)
  {
    if doc.Arr? && j.Arr? {
      var i :| 0 <= i < |doc.items| && i < |j.items| && Wrong(doc.items[i], j.items[i]);
      WrongDiffers(doc.items[i], j.items[i]);
    } else if doc.Obj? && j.Obj? {
      var k :| k in doc.members && k in j.members && Wrong(doc.members[k], j.members[k]);
      WrongDiffers(doc.members[k], j.members[k]);
    }
  }

  /** No later leaf repairs it. */
  lemma {:induction false} WrongStays(doc: Json, j: Json, p: seq<Str>, v: Json)
    requires Wrong(doc, j) && IsLeaf(j, p) && Solid(j)
    ensures Create(doc, p, v).Ok? ==> Wrong(Create(doc, p, v).value, j)
    decreases |p|
  {
    hide Dec, Value, Stoi, ToString;
    var r := Create(doc, p, v);
    if r.Ok? && doc.Arr? && j.Arr? {
      var i :| 0 <= i < |doc.items| && i < |j.items| && Wrong(doc.items[i], j.items[i]);
      var n := Value(p[0]);
      StoiOfDec(n);
      FilledIs(doc.items, n);
      if i == n {
        SolidChild(j, p[0]);
        WrongStays(doc.items[i], j.items[i], p[1..], v);
      }
      assert Wrong(r.value.items[i], j.items[i]);
    } else if r.Ok? && doc.Obj? && j.Obj? {
      var k :| k in doc.members && k in j.members && Wrong(doc.members[k], j.members[k]);
      if k == p[0] {
        SolidChild(j, k);
        WrongStays(doc.members[k], j.members[k], p[1..], v);
      }
      assert Wrong(r.value.members[k], j.members[k]);
    }
  }

  /** `S` holds every leaf whose pointer sorts before that of `p`. */
  ghost predicate Downward(j: Json, S: set<seq<Str>>, p: seq<Str>) {
    forall q | IsLeaf(j, q) && LexLt(ToString(q), ToString(p)) :: q in S
  }

  lemma SameHeadOrder(t: Str, q: seq<Str>, p: seq<Str>)
    ensures LexLt(ToString([t] + q), ToString([t] + p)) == LexLt(ToString(q), ToString(p))
  {
    ToStringConcat([t], q);
    ToStringConcat([t], p);
    LexCommonPrefix(ToString([t]), ToString(q), ToString(p));
  }

  lemma DownwardChild(j: Json, S: set<seq<Str>>, p: seq<Str>)
    requires p != [] && IsLeaf(j, p) && Downward(j, S, p)
    ensures Downward(ChildOf(j, p[0]), Under(S, p[0]), p[1..])
  {
    forall q | IsLeaf(ChildOf(j, p[0]), q) && LexLt(ToString(q), ToString(p[1..])) ensures q in Under(S, p[0]) {
      DownwardAt(j, S, p, q);
    }
  }

  lemma DownwardAt(j: Json, S: set<seq<Str>>, p: seq<Str>, q: seq<Str>)
    requires p != [] && IsLeaf(j, p) && Downward(j, S, p)
    requires IsLeaf(ChildOf(j, p[0]), q) && LexLt(ToString(q), ToString(p[1..]))
    ensures q in Under(S, p[0])
  {
    hide ToString, LexLt, ChildOf, HasChild;
    var t := p[0];
    assert p == [t] + p[1..];
    SameHeadOrder(t, q, p[1..]);
    LeafBelow(j, t, q);
    assert [t] + q in S;
    assert ([t] + q)[1..] == q;
  }

  lemma LeafBelow(j: Json, t: Str, q: seq<Str>)
    requires HasChild(j, t)
    ensures IsLeaf(j, [t] + q) <==> IsLeaf(ChildOf(j, t), q)
    ensures IsLeaf(j, [t] + q) ==> LeafValue(j, [t] + q) == LeafValue(ChildOf(j, t), q)
  {
    var r := [t] + q;
    assert r[0] == t && r[1..] == q;
  }

  lemma {:induction false} HasLeaf(j: Json) returns (q: seq<Str>)
    ensures IsLeaf(j, q)
  {
    if Childless(j) {
      q := [];
    } else {
      var t;
      if j.Arr? {
        t := Dec(0);
        HasItem(j.items, 0);
      } else {
        t :| t in j.members;
      }
      var r := HasLeaf(ChildOf(j, t));
      q := [t] + r;
      assert q[1..] == r;
    }
  }

  /** Under an array the pointers that continue with "/0" come first. */
  lemma ZeroFirst(i: nat, p: seq<Str>, q: seq<Str>)
    requires i > 0
    ensures LexLt(ToString([FIRST] + q), ToString([Dec(i)] + p))
  {
    FirstIndex();
    EscapeDec(0);
    EscapeDec(i);
    var a, b := [FIRST] + q, [Dec(i)] + p;
    assert a[1..] == q && b[1..] == p;
    var x, y := ToString(a), ToString(b);
    assert x[0] == y[0] == SLASH;
    assert x[1..] == FIRST + ToString(q) && y[1..] == Dec(i) + ToString(p);
    assert x[1..][0] == ZERO && y[1..][0] == Dec(i)[0];
    assert IsDigit(Dec(i)[0]);
  }

  lemma ArrayStartsAtZero(j: Json, S: set<seq<Str>>, p: seq<Str>)
    requires j.Arr? && p != [] && IsLeaf(j, p) && Downward(j, S, p) && S == {}
    ensures p[0] == FIRST
  {
    var i := Value(p[0]);
    FirstIndex();
    if i > 0 {
      HasItem(j.items, 0);
      var q := HasLeaf(j.items[0]);
      var r := [FIRST] + q;
      assert r[0] == FIRST && r[1..] == q;
      assert p == [Dec(i)] + p[1..];
      ZeroFirst(i, p[1..], q);
      assert IsLeaf(j, r);
    }
  }

  /** A leaf that is not met the right way is refused, or an array is put where an object was. */
  lemma {:induction false} CreateInadmissible(j: Json, S: set<seq<Str>>, p: seq<Str>)
    requires IsLeaf(j, p) && Leaves(j, S) && Solid(j) && Downward(j, S, p) && !Admissible(j, S, p)
    ensures var r := Create(Partial(j, S), p, LeafValue(j, p)); r.Err? || Wrong(r.value, j)
    decreases |p|
  {
    var t, c := p[0], ChildOf(j, p[0]);
    DownwardChild(j, S, p);
    UnderLeaves(j, S, t);
    SolidChild(j, t);
    PartialIs(j, S);
    if !Admissible(c, Under(S, t), p[1..]) {
      CreateInadmissible(c, Under(S, t), p[1..]);
    }
    if j.Arr? {
      ArrayInadmissible(j, S, p);
    } else {
      ObjectInadmissible(j, S, p);
    }
  }

  ghost predicate GoesWrong(r: Result<Json>, j: Json) {
    r.Err? || Wrong(r.value, j)
  }

  /** get_and_create on an array, token by token. */
  lemma CreateInItem(xs: seq<Json>, i: nat, p: seq<Str>, v: Json)
    requires p != [] && p[0] == Dec(i)
    ensures i > INT_MAX ==> Create(Arr(xs), p, v).Err?
    ensures i <= INT_MAX ==>
      var r, c := Create(Arr(xs), p, v), Create(Filled(xs, i)[i], p[1..], v);
      (r.Ok? <==> c.Ok?) && (r.Ok? ==> r.value == Arr(Filled(xs, i)[i := c.value]))
  {
    StoiOfDec(i);
  }

  lemma CreateInNull(p: seq<Str>, v: Json)
    requires p != []
    ensures var r, c := Create(Null, p, v), Create(Null, p[1..], v);
      (r.Ok? <==> c.Ok?) &&
      (r.Ok? ==> r.value == if p[0] == FIRST then Arr([c.value]) else Obj(map[p[0] := c.value]))
  {
  }

  lemma ArrayInadmissible(j: Json, S: set<seq<Str>>, p: seq<Str>)
    requires j.Arr? && p != [] && IsLeaf(j, p) && Downward(j, S, p) && !Admissible(j, S, p)
    requires var c := ChildOf(j, p[0]);
      !Admissible(c, Under(S, p[0]), p[1..]) ==>
        GoesWrong(Create(Partial(c, Under(S, p[0])), p[1..], LeafValue(j, p)), c)
    ensures GoesWrong(Create(Partial(j, S), p, LeafValue(j, p)), j)
  {
    var i, v := Value(p[0]), LeafValue(j, p);
    assert p[0] == Dec(i) && ChildOf(j, p[0]) == j.items[i];
    var r := Create(Partial(j, S), p, v);
    if S == {} {
      ArrayStartsAtZero(j, S, p);
      FirstIndex();
      NothingYet(j);
      NothingUnder(p[0]);
      PartialNull(j.items[0]);
      CreateInNull(p, v);
      assert !Admissible(j.items[0], Under(S, p[0]), p[1..]);
      hide *;
      if r.Ok? { WrongItem(r.value, j, 0); }
    } else if i <= INT_MAX {
      assert !Admissible(j.items[i], Under(S, p[0]), p[1..]);
      hide *;
      PartialIs(j, S);
      CreateInItem(PartialItems(j, S), i, p, v);
      ItemsStep(j, S, p, i);
      FilledIs(PartialItems(j, S), i);
      if r.Ok? { WrongItem(r.value, j, i); }
    } else {
      hide *;
      PartialIs(j, S);
      CreateInItem(PartialItems(j, S), i, p, v);
    }
  }

  lemma WrongItem(doc: Json, j: Json, i: nat)
    requires doc.Arr? && j.Arr? && i < |doc.items| && i < |j.items| && Wrong(doc.items[i], j.items[i])
    ensures Wrong(doc, j)
  {
  }

  lemma ObjectInadmissible(j: Json, S: set<seq<Str>>, p: seq<Str>)
    requires j.Obj? && p != [] && IsLeaf(j, p) && !Admissible(j, S, p)
    requires var c := ChildOf(j, p[0]);
      !Admissible(c, Under(S, p[0]), p[1..]) ==>
        GoesWrong(Create(Partial(c, Under(S, p[0])), p[1..], LeafValue(j, p)), c)
    ensures GoesWrong(Create(Partial(j, S), p, LeafValue(j, p)), j)
  {
    var t := p[0];
    PartialIs(j, S);
    var r := Create(Partial(j, S), p, LeafValue(j, p));
    if S == {} {
      NothingUnder(t);
      PartialNull(j.members[t]);
      if r.Ok? && t != FIRST { assert Wrong(r.value.members[t], j.members[t]); }
    } else {
      MembersStep(j, S, p);
      if r.Ok? { assert Wrong(r.value.members[t], j.members[t]); }
    }
  }
}
