/** source.patch(diff(source, target)) == target. */
module DiffPatch {
  import opened Bytes
  import opened Json
  import opened Access
  import opened Patch
  import opened Diff

  /** The difference names no array index that stoi cannot read: wherever arrays are to change,
      the positions to change fit into an int. */
  ghost predicate Addressable(s: Json, t: Json) {
    if Eq(s, t) then true
    else if s.Arr? && t.Arr? then
      && (forall i | 0 <= i < |s.items| && i < |t.items| && !Eq(s.items[i], t.items[i]) ::
            i <= INT_MAX && Addressable(s.items[i], t.items[i]))
      && (|s.items| != |t.items| ==> |s.items| <= INT_MAX + 1 && |t.items| <= INT_MAX + 1)
    else if s.Obj? && t.Obj? then
      forall k | k in s.members && k in t.members :: Addressable(s.members[k], t.members[k])
    else true
  }

  lemma {:induction false} IndexableIsAddressable(s: Json, t: Json)
    requires Indexable(s) && Indexable(t)
    ensures Addressable(s, t)
  {
    if Eq(s, t) {
    } else if s.Arr? && t.Arr? {
      forall i | 0 <= i < |s.items| && i < |t.items| ensures Addressable(s.items[i], t.items[i]) {
        IndexableIsAddressable(s.items[i], t.items[i]);
      }
    } else if s.Obj? && t.Obj? {
      forall k | k in s.members && k in t.members ensures Addressable(s.members[k], t.members[k]) {
        IndexableIsAddressable(s.members[k], t.members[k]);
      }
    }
  }

  // ----- places directly inside an array or an object -----

  lemma ItemPlace(xs: seq<Json>, i: nat, v: Json)
    requires i < |xs|
    ensures if i <= INT_MAX then At(Arr(xs), [Dec(i)]) == Ok(xs[i]) && Put(Arr(xs), [Dec(i)], v) == Arr(xs[i := v])
            else CheckedSlot(Arr(xs), Dec(i)).Err? && CreatedSlot(Arr(xs), Dec(i)).Err?
  {
    StoiOfDec(i);
    assert [Dec(i)][1..] == [];
  }

  lemma MemberPlace(m: map<Str, Json>, k: Str, v: Json)
    requires k in m
    ensures At(Obj(m), [k]) == Ok(m[k])
    ensures Put(Obj(m), [k], v) == Obj(m[k := v])
  {
    assert [k][1..] == [];
  }

  lemma ApplyToChild(doc: Json, token: Str, val: Json)
    ensures Apply(doc, Add([token], val)) == AddChild(doc, token, val)
    ensures Apply(doc, Remove([token])) == RemoveChild(doc, token)
  {
    assert [token][..0] == [];
  }

  // ----- all operations of diff are relative to the compared value -----

  lemma RelativeBelow(token: Str, ops: seq<Operation>)
    requires forall op | op in ops :: Relative(op)
    ensures forall op | op in AllBelow([token], ops) :: Relative(op)
  {
    var below := AllBelow([token], ops);
    forall op | op in below ensures Relative(op) {
      var i :| 0 <= i < |below| && below[i] == op;
      assert ops[i] in ops;
    }
  }

  lemma {:induction false} OperationsRelative(s: Json, t: Json)
    ensures forall op | op in Operations(s, t) :: Relative(op)
    decreases s, 1, 0
  {
    if !Eq(s, t) && s.Arr? && t.Arr? {
      var n := if |s.items| < |t.items| then |s.items| else |t.items|;
      ItemsRelative(s, t, n);
      RemovalsRelative(n, |s.items|);
      AdditionsRelative(t.items, n);
    } else if !Eq(s, t) && s.Obj? && t.Obj? {
      MembersRelative(s, t, SortedKeys(s.members.Keys));
      NewMembersRelative(s, t, SortedKeys(t.members.Keys));
    }
  }

  lemma {:induction false} ItemsRelative(s: Json, t: Json, n: nat)
    requires s.Arr? && t.Arr? && n <= |s.items| && n <= |t.items|
    ensures forall op | op in ItemOperations(s, t, n) :: Relative(op)
    decreases s, 0, n
  {
    if n > 0 {
      ItemsRelative(s, t, n - 1);
      OperationsRelative(s.items[n - 1], t.items[n - 1]);
      RelativeBelow(Dec(n - 1), Operations(s.items[n - 1], t.items[n - 1]));
    }
  }

  lemma {:induction false} MembersRelative(s: Json, t: Json, ks: seq<Str>)
    requires s.Obj? && t.Obj? && forall k | k in ks :: k in s.members
    ensures forall op | op in MemberOperations(s, t, ks) :: Relative(op)
    decreases s, 0, |ks|
  {
    if ks != [] {
      var k := ks[|ks| - 1];
      MembersRelative(s, t, ks[..|ks| - 1]);
      if k in t.members {
        OperationsRelative(s.members[k], t.members[k]);
        RelativeBelow(k, Operations(s.members[k], t.members[k]));
      }
    }
  }

  lemma {:induction false} RemovalsRelative(lo: nat, hi: nat)
    ensures forall op | op in Removals(lo, hi) :: Relative(op)
  {
    if lo < hi { RemovalsRelative(lo, hi - 1); }
  }

  lemma {:induction false} AdditionsRelative(ys: seq<Json>, n: nat)
    ensures forall op | op in Additions(ys, n) :: Relative(op)
    decreases |ys| - n
  {
    if n < |ys| { AdditionsRelative(ys, n + 1); }
  }

  lemma {:induction false} NewMembersRelative(s: Json, t: Json, ls: seq<Str>)
    requires s.Obj? && t.Obj? && forall l | l in ls :: l in t.members
    ensures forall op | op in NewMembers(s, t, ls) :: Relative(op)
    decreases |ls|
  {
    if ls != [] { NewMembersRelative(s, t, ls[..|ls| - 1]); }
  }

  // ----- failures below a path -----

  /** An addition deeper down starts at a token that either leads somewhere or cannot be followed. */
  ghost predicate AnchoredOne(doc: Json, op: Operation) {
    op.Add? && |op.path| > 1 ==> CheckedSlot(doc, op.path[0]).Ok? || CreatedSlot(doc, op.path[0]).Err?
  }

  /** The same for every operation in turn, as long as they succeed. */
  ghost predicate Anchored(doc: Json, ops: seq<Operation>)
    decreases |ops|
  {
    ops == [] || (AnchoredOne(doc, ops[0]) && (Apply(doc, ops[0]).Ok? ==> Anchored(Apply(doc, ops[0]).value, ops[1..])))
  }

  lemma {:induction false} AnchoredConcat(doc: Json, a: seq<Operation>, b: seq<Operation>)
    requires Anchored(doc, a) && (ApplyAll(doc, a).Ok? ==> Anchored(ApplyAll(doc, a).value, b))
    ensures Anchored(doc, a + b)
    decreases |a|
  {
    if a == [] {
      assert a + b == b;
    } else {
      assert (a + b)[0] == a[0] && (a + b)[1..] == a[1..] + b;
      if Apply(doc, a[0]).Ok? { AnchoredConcat(Apply(doc, a[0]).value, a[1..], b); }
    }
  }

  lemma AtFirst(doc: Json, path: seq<Str>)
    requires path != []
    ensures At(doc, path[..1]).Ok? <==> CheckedSlot(doc, path[0]).Ok?
  {
    assert path[..1][0] == path[0] && path[..1][1..] == [];
  }

  lemma FailBelowAdd(doc: Json, p: seq<Str>, q: seq<Str>, val: Json)
    requires p != [] && At(doc, p).Ok? && q != [] && AnchoredOne(At(doc, p).value, Add(q, val))
    requires ApplyAdd(At(doc, p).value, q, val).Err?
    ensures ApplyAdd(doc, p + q, val).Err?
  {
    hide Put, AddChild, CheckedSlot, CreatedSlot, At;
    var sub, n := At(doc, p).value, |q| - 1;
    assert (p + q)[..|p + q| - 1] == p + q[..n] && (p + q)[|p + q| - 1] == q[n];
    ModifyBelow(doc, p, q[..n], Adding(q[n], val));
    AtFirst(sub, q);
    assert n > 0 ==> q[..n][0] == q[0];
    assert ModifyCreated(sub, q[..n], Adding(q[n], val)).Err?;
  }

  lemma FailBelowOne(doc: Json, p: seq<Str>, op: Operation)
    requires p != [] && At(doc, p).Ok? && Relative(op) && AnchoredOne(At(doc, p).value, op)
    requires Apply(At(doc, p).value, op).Err?
    ensures Apply(doc, Below(p, op)).Err?
  {
    hide Put, AddChild, RemoveChild, CheckedSlot, CreatedSlot;
    match op {
      case Add(q, val) => FailBelowAdd(doc, p, q, val);
      case Remove(q) =>
        var n := |q| - 1;
        assert (p + q)[..|p + q| - 1] == p + q[..n] && (p + q)[|p + q| - 1] == q[n];
        ModifyBelow(doc, p, q[..n], Removing(q[n]));
      case Replace(q, val) =>
        ModifyBelow(doc, p, q, Setting(val));
    }
  }

  lemma {:induction false} FailBelow(doc: Json, p: seq<Str>, ops: seq<Operation>)
    requires p != [] && At(doc, p).Ok? && Anchored(At(doc, p).value, ops) && forall op | op in ops :: Relative(op)
    requires ApplyAll(At(doc, p).value, ops).Err?
    ensures ApplyAll(doc, AllBelow(p, ops)).Err?
    decreases |ops|
  {
    var sub := At(doc, p).value;
    var next := Apply(sub, ops[0]);
    assert AllBelow(p, ops)[1..] == AllBelow(p, ops[1..]);
    if next.Err? {
      FailBelowOne(doc, p, ops[0]);
    } else {
      ApplyBelow(doc, p, ops[0]);
      PutLaws(doc, p, next.value, next.value);
      FailBelow(Put(doc, p, next.value), p, ops[1..]);
    }
  }

  lemma {:induction false} AnchoredBelow(doc: Json, p: seq<Str>, ops: seq<Operation>)
    requires p != [] && At(doc, p).Ok? && Anchored(At(doc, p).value, ops) && forall op | op in ops :: Relative(op)
    ensures Anchored(doc, AllBelow(p, ops))
    decreases |ops|
  {
    if ops != [] {
      var next := Apply(At(doc, p).value, ops[0]);
      assert AllBelow(p, ops)[1..] == AllBelow(p, ops[1..]);
      assert (p + ops[0].path)[0] == p[0];
      if next.Err? {
        FailBelowOne(doc, p, ops[0]);
      } else {
        ApplyBelow(doc, p, ops[0]);
        PutLaws(doc, p, next.value, next.value);
        AnchoredBelow(Put(doc, p, next.value), p, ops[1..]);
      }
    }
  }

  /** Nothing can be done below a token that cannot be followed. */
  lemma UnreachableFails(doc: Json, token: Str, op: Operation)
    requires Relative(op) && CheckedSlot(doc, token).Err? && CreatedSlot(doc, token).Err?
    ensures Apply(doc, Below([token], op)).Err? && AnchoredOne(doc, Below([token], op))
  {
    var path := [token] + op.path;
    AtFirst(doc, path);
    if op.Remove? {
      assert path[..|path| - 1][0] == token;
    }
  }

  // ----- arrays -----

  /** Removing from the end keeps every remaining index valid. */
  lemma {:induction false} RemovalsApply(xs: seq<Json>, lo: nat)
    requires lo <= |xs|
    ensures ApplyAll(Arr(xs), Removals(lo, |xs|)) ==
            if lo == |xs| || |xs| <= INT_MAX + 1 then Ok(Arr(xs[..lo])) else Err(OutOfRange)
    ensures Anchored(Arr(xs), Removals(lo, |xs|))
    decreases |xs|
  {
    hide Dec, Stoi, AddChild;
    var hi := |xs|;
    if lo < hi {
      StoiOfDec(hi - 1);
      ApplyToChild(Arr(xs), Dec(hi - 1), Null);
      var rest := xs[..hi - 1];
      assert xs[..hi - 1] + xs[hi - 1 + 1..] == rest;
      RemovalsApply(rest, lo);
      assert rest[..lo] == xs[..lo];
      assert Removals(lo, hi)[0] == Remove([Dec(hi - 1)]) && Removals(lo, hi)[1..] == Removals(lo, hi - 1);
    } else {
      assert xs[..lo] == xs;
    }
  }

  /** Every addition finds the array exactly as long as its index. */
  lemma {:induction false} AdditionsApply(xs: seq<Json>, ys: seq<Json>)
    requires |xs| <= |ys|
    ensures ApplyAll(Arr(xs), Additions(ys, |xs|)) ==
            if |xs| == |ys| || |ys| <= INT_MAX + 1 then Ok(Arr(xs + ys[|xs|..])) else Err(OutOfRange)
    ensures Anchored(Arr(xs), Additions(ys, |xs|))
    decreases |ys| - |xs|
  {
    var n := |xs|;
    if n < |ys| {
      StoiOfDec(n);
      ApplyToChild(Arr(xs), Dec(n), ys[n]);
      var next := xs + [ys[n]];
      assert xs[..n] + [ys[n]] + xs[n..] == next;
      AdditionsApply(next, ys);
      assert next + ys[n + 1..] == xs + ys[n..];
      assert Additions(ys, n)[0] == Add([Dec(n)], ys[n]) && Additions(ys, n)[1..] == Additions(ys, n + 1);
    } else {
      assert xs + ys[n..] == xs;
    }
  }

  /** After the first n items: those equal the target's, the others are untouched. */
  ghost predicate ItemsDone(s: Json, t: Json, n: nat, r: Json)
    requires s.Arr? && t.Arr? && n <= |s.items| && n <= |t.items|
  {
    && r.Arr? && |r.items| == |s.items|
    && (forall i | 0 <= i < n :: Eq(r.items[i], t.items[i]))
    && (forall i | n <= i < |s.items| :: r.items[i] == s.items[i])
  }

  ghost predicate ItemsAddressable(s: Json, t: Json, n: nat)
    requires s.Arr? && t.Arr? && n <= |s.items| && n <= |t.items|
  {
    forall i | 0 <= i < n && !Eq(s.items[i], t.items[i]) :: i <= INT_MAX && Addressable(s.items[i], t.items[i])
  }

  lemma {:induction false} ItemsApply(s: Json, t: Json, n: nat)
    requires s.Arr? && t.Arr? && n <= |s.items| && n <= |t.items|
    ensures var r := ApplyAll(s, ItemOperations(s, t, n));
      (r.Ok? <==> ItemsAddressable(s, t, n)) && (r.Ok? ==> ItemsDone(s, t, n, r.value))
    ensures Anchored(s, ItemOperations(s, t, n))
    decreases s, 0, n
  {
    hide *;
    if n == 0 {
      NoItemsApply(s, t);
    } else {
      ItemsApply(s, t, n - 1);
      OperationsApply(s.items[n - 1], t.items[n - 1]);
      NextItemApplies(s, t, n);
    }
  }

  lemma NoItemsApply(s: Json, t: Json)
    requires s.Arr? && t.Arr?
    ensures ItemOperations(s, t, 0) == [] && ApplyAll(s, []) == Ok(s)
    ensures ItemsAddressable(s, t, 0) && ItemsDone(s, t, 0, s) && Anchored(s, [])
  {
  }

  lemma NextItemApplies(s: Json, t: Json, n: nat)
    requires s.Arr? && t.Arr? && 0 < n <= |s.items| && n <= |t.items|
    requires var r := ApplyAll(s, ItemOperations(s, t, n - 1));
      (r.Ok? <==> ItemsAddressable(s, t, n - 1)) && (r.Ok? ==> ItemsDone(s, t, n - 1, r.value))
    requires Anchored(s, ItemOperations(s, t, n - 1))
    requires var (x, y) := (s.items[n - 1], t.items[n - 1]);
      var r := ApplyAll(x, Operations(x, y));
      && (r.Ok? <==> Addressable(x, y)) && (r.Ok? ==> Eq(r.value, y)) && Anchored(x, Operations(x, y))
      && (Operations(x, y) == [] <==> Eq(x, y))
    ensures var r := ApplyAll(s, ItemOperations(s, t, n));
      (r.Ok? <==> ItemsAddressable(s, t, n)) && (r.Ok? ==> ItemsDone(s, t, n, r.value))
    ensures Anchored(s, ItemOperations(s, t, n))
  {
    var x, y := s.items[n - 1], t.items[n - 1];
    var first, ops := ItemOperations(s, t, n - 1), Operations(x, y);
    var next := AllBelow([Dec(n - 1)], ops);
    hide *;
    ItemOperationsStep(s, t, n);
    OperationsRelative(x, y);
    ApplyAllConcat(s, first, next);
    ItemsAddressableStep(s, t, n);
    if ApplyAll(s, first).Ok? {
      var mid := ApplyAll(s, first).value;
      ItemsDoneStep(s, t, n, mid, ApplyAll(x, ops));
      ItemAt(mid);
      ItemApplies(mid.items, n - 1, x, y);
      if Eq(x, y) { NothingApplied(x, ops); }
      AnchoredConcat(s, first, next);
    } else {
      AnchoredConcat(s, first, next);
    }
  }

  lemma ItemOperationsStep(s: Json, t: Json, n: nat)
    requires s.Arr? && t.Arr? && 0 < n <= |s.items| && n <= |t.items|
    ensures ItemOperations(s, t, n) ==
            ItemOperations(s, t, n - 1) + AllBelow([Dec(n - 1)], Operations(s.items[n - 1], t.items[n - 1]))
  {
    hide Operations, AllBelow, Dec;
  }

  lemma ItemAt(j: Json)
    ensures j.Arr? ==> j == Arr(j.items)
  {
  }

  lemma NothingApplied(doc: Json, ops: seq<Operation>)
    requires ops == []
    ensures ApplyAll(doc, ops) == Ok(doc)
  {
  }

  lemma ItemsAddressableStep(s: Json, t: Json, n: nat)
    requires s.Arr? && t.Arr? && 0 < n <= |s.items| && n <= |t.items|
    ensures ItemsAddressable(s, t, n) <==>
      ItemsAddressable(s, t, n - 1) &&
      (Eq(s.items[n - 1], t.items[n - 1]) || (n - 1 <= INT_MAX && Addressable(s.items[n - 1], t.items[n - 1])))
  {
    hide Eq, Addressable;
  }

  lemma ItemsDoneStep(s: Json, t: Json, n: nat, mid: Json, r: Result<Json>)
    requires s.Arr? && t.Arr? && 0 < n <= |s.items| && n <= |t.items| && ItemsDone(s, t, n - 1, mid)
    ensures mid.Arr? && |mid.items| == |s.items| && mid.items[n - 1] == s.items[n - 1]
    ensures r.Ok? && Eq(r.value, t.items[n - 1]) ==> ItemsDone(s, t, n, Arr(mid.items[n - 1 := r.value]))
  {
    hide Eq;
  }

  /** The operations for one item, applied inside the array. */
  lemma ItemApplies(xs: seq<Json>, i: nat, x: Json, y: Json)
    requires i < |xs| && xs[i] == x
    requires Anchored(x, Operations(x, y)) && forall op | op in Operations(x, y) :: Relative(op)
    requires Operations(x, y) == [] <==> Eq(x, y)
    requires ApplyAll(x, Operations(x, y)).Ok? <==> Addressable(x, y)
    ensures var r := ApplyAll(Arr(xs), AllBelow([Dec(i)], Operations(x, y)));
      (r.Ok? <==> Eq(x, y) || (i <= INT_MAX && Addressable(x, y))) &&
      (r.Ok? ==> r.value == Arr(xs[i := ApplyAll(x, Operations(x, y)).value]))
    ensures Anchored(Arr(xs), AllBelow([Dec(i)], Operations(x, y)))
  {
    var ops := Operations(x, y);
    if Eq(x, y) {
      assert AllBelow([Dec(i)], ops) == [] && xs[i := x] == xs;
    } else if i <= INT_MAX {
      ItemPlace(xs, i, Null);
      AnchoredBelow(Arr(xs), [Dec(i)], ops);
      if ApplyAll(x, ops).Ok? {
        ItemPlace(xs, i, ApplyAll(x, ops).value);
        ApplyAllBelow(Arr(xs), [Dec(i)], ops);
      } else {
        FailBelow(Arr(xs), [Dec(i)], ops);
      }
    } else {
      ItemPlace(xs, i, Null);
      UnreachableFails(Arr(xs), Dec(i), ops[0]);
    }
  }

  lemma {:induction false} ArraysApply(s: Json, t: Json)
    requires s.Arr? && t.Arr? && !Eq(s, t)
    ensures var r := ApplyAll(s, Operations(s, t));
      (r.Ok? <==> Addressable(s, t)) && (r.Ok? ==> Eq(r.value, t))
    ensures Anchored(s, Operations(s, t))
    decreases s, 1, 0
  {
    var n := if |s.items| < |t.items| then |s.items| else |t.items|;
    var first, second, third := ItemOperations(s, t, n), Removals(n, |s.items|), Additions(t.items, n);
    ArraysAddressable(s, t, n);
    assert Operations(s, t) == first + second + third;
    hide *;
    ItemsApply(s, t, n);
    ApplyAllConcat(s, first, second);
    ApplyAllConcat(s, first + second, third);
    var r := ApplyAll(s, first);
    if r.Ok? {
      ItemsDoneEq(s, t, n, r.value);
      RemovalsApply(r.value.items, n);
      AdditionsApply(r.value.items[..n], t.items);
    }
    AnchoredConcat(s, first, second);
    AnchoredConcat(s, first + second, third);
  }

  lemma ArraysAddressable(s: Json, t: Json, n: nat)
    requires s.Arr? && t.Arr? && !Eq(s, t) && n == if |s.items| < |t.items| then |s.items| else |t.items|
    ensures Addressable(s, t) <==>
      ItemsAddressable(s, t, n) && (|s.items| != |t.items| ==> |s.items| <= INT_MAX + 1 && |t.items| <= INT_MAX + 1)
  {
  }

  lemma ItemsDoneEq(s: Json, t: Json, n: nat, mid: Json)
    requires s.Arr? && t.Arr? && n <= |s.items| && n <= |t.items| && ItemsDone(s, t, n, mid)
    ensures mid.Arr? && |mid.items| == |s.items|
    ensures Eq(Arr(mid.items[..n] + t.items[n..]), t)
  {
    forall i | n <= i < |t.items| ensures Eq(t.items[i], t.items[i]) { EqReflexive(t.items[i]); }
  }

  // ----- objects -----

  /** After the given members were treated: they are equal to the target's or gone, the rest is untouched. */
  ghost predicate MembersDone(s: Json, t: Json, ks: seq<Str>, r: Json)
    requires s.Obj? && t.Obj?
  {
    && r.Obj?
    && (forall k :: k in r.members <==> k in s.members && (k in ks ==> k in t.members))
    && (forall k | k in r.members :: if k in ks then Eq(r.members[k], t.members[k])
                                     else r.members[k] == s.members[k])
  }

  ghost predicate MembersAddressable(s: Json, t: Json, ks: seq<Str>)
    requires s.Obj? && t.Obj? && forall k | k in ks :: k in s.members
  {
    forall k | k in ks && k in t.members :: Addressable(s.members[k], t.members[k])
  }

  lemma {:induction false} MembersApply(s: Json, t: Json, ks: seq<Str>)
    requires s.Obj? && t.Obj? && Ascending(ks)
    requires forall k | k in ks :: k in s.members
    ensures var r := ApplyAll(s, MemberOperations(s, t, ks));
      (r.Ok? <==> MembersAddressable(s, t, ks)) && (r.Ok? ==> MembersDone(s, t, ks, r.value))
    ensures Anchored(s, MemberOperations(s, t, ks))
    decreases s, 0, |ks|
  {
    if ks != [] {
      hide ApplyAll, Anchored, AllBelow, Operations, Addressable, Eq, Relative, MembersAddressable, MembersDone;
      var before, k := ks[..|ks| - 1], ks[|ks| - 1];
      var first := MemberOperations(s, t, before);
      var ops := if k in t.members then AllBelow([k], Operations(s.members[k], t.members[k])) else [Remove([k])];
      MembersApply(s, t, before);
      assert k !in before by { LexTrichotomy(k, k); }
      hide Ascending;
      ApplyAllConcat(s, first, ops);
      MembersAddressableStep(s, t, ks);
      var r := ApplyAll(s, first);
      if k in t.members {
        OperationsApply(s.members[k], t.members[k]);
        OperationsRelative(s.members[k], t.members[k]);
      }
      if r.Ok? { NextMemberApplies(s, t, ks, r.value); }
      AnchoredConcat(s, first, ops);
    }
  }

  lemma MembersAddressableStep(s: Json, t: Json, ks: seq<Str>)
    requires s.Obj? && t.Obj? && ks != [] && forall k | k in ks :: k in s.members
    ensures var k := ks[|ks| - 1];
      MembersAddressable(s, t, ks) <==>
      MembersAddressable(s, t, ks[..|ks| - 1]) && (k in t.members ==> Addressable(s.members[k], t.members[k]))
  {
    hide Addressable;
    assert ks == ks[..|ks| - 1] + [ks[|ks| - 1]];
  }

  lemma MembersDoneStep(s: Json, t: Json, ks: seq<Str>, mid: Json, v: Json)
    requires s.Obj? && t.Obj? && ks != [] && ks[|ks| - 1] in s.members && ks[|ks| - 1] !in ks[..|ks| - 1]
    requires MembersDone(s, t, ks[..|ks| - 1], mid)
    ensures var k := ks[|ks| - 1];
      && mid.Obj? && k in mid.members && mid.members[k] == s.members[k]
      && (k in t.members && Eq(v, t.members[k]) ==> MembersDone(s, t, ks, Obj(mid.members[k := v])))
      && (k !in t.members ==> MembersDone(s, t, ks, Obj(mid.members - {k})))
  {
    hide Eq;
    assert ks == ks[..|ks| - 1] + [ks[|ks| - 1]];
  }

  /** The operations for the last of the given members, behind those for the others. */
  lemma NextMemberApplies(s: Json, t: Json, ks: seq<Str>, mid: Json)
    requires s.Obj? && t.Obj? && ks != [] && ks[|ks| - 1] in s.members && ks[|ks| - 1] !in ks[..|ks| - 1]
    requires MembersDone(s, t, ks[..|ks| - 1], mid)
    requires var k := ks[|ks| - 1];
      k in t.members ==>
        var x, y := s.members[k], t.members[k];
        var r := ApplyAll(x, Operations(x, y));
        && (r.Ok? <==> Addressable(x, y)) && (r.Ok? ==> Eq(r.value, y)) && Anchored(x, Operations(x, y))
        && forall op | op in Operations(x, y) :: Relative(op)
    ensures var k := ks[|ks| - 1];
      var ops := if k in t.members then AllBelow([k], Operations(s.members[k], t.members[k])) else [Remove([k])];
      var r := ApplyAll(mid, ops);
      && (r.Ok? <==> (k in t.members ==> Addressable(s.members[k], t.members[k])))
      && (r.Ok? ==> MembersDone(s, t, ks, r.value))
      && Anchored(mid, ops)
  {
    var k := ks[|ks| - 1];
    MembersDoneStep(s, t, ks, mid, Null);
    if k in t.members {
      hide ApplyAll, Anchored, AllBelow, Operations, Addressable, Eq, Relative, MembersDone;
      var x, y := s.members[k], t.members[k];
      MemberApplies(mid.members, k, x, y);
      if ApplyAll(x, Operations(x, y)).Ok? {
        MembersDoneStep(s, t, ks, mid, ApplyAll(x, Operations(x, y)).value);
      }
    } else {
      ApplyToChild(mid, k, Null);
      ApplyAllOne(mid, Remove([k]));
    }
  }

  /** The operations for one member, applied inside the object. */
  lemma MemberApplies(m: map<Str, Json>, k: Str, x: Json, y: Json)
    requires k in m && m[k] == x
    requires Anchored(x, Operations(x, y)) && forall op | op in Operations(x, y) :: Relative(op)
    ensures var r := ApplyAll(Obj(m), AllBelow([k], Operations(x, y)));
      (r.Ok? <==> ApplyAll(x, Operations(x, y)).Ok?) &&
      (r.Ok? ==> r.value == Obj(m[k := ApplyAll(x, Operations(x, y)).value]))
    ensures Anchored(Obj(m), AllBelow([k], Operations(x, y)))
  {
    var ops := Operations(x, y);
    MemberPlace(m, k, Null);
    AnchoredBelow(Obj(m), [k], ops);
    if ApplyAll(x, ops).Ok? {
      MemberPlace(m, k, ApplyAll(x, ops).value);
      ApplyAllBelow(Obj(m), [k], ops);
    } else {
      FailBelow(Obj(m), [k], ops);
    }
  }

  lemma ApplyAllOne(doc: Json, op: Operation)
    ensures ApplyAll(doc, [op]) == Apply(doc, op)
  {
    assert [op][1..] == [];
  }

  lemma {:induction false} NewMembersApply(s: Json, t: Json, doc: Json, ls: seq<Str>)
    requires s.Obj? && t.Obj? && doc.Obj?
    requires forall l | l in ls :: l in t.members
    ensures var r := ApplyAll(doc, NewMembers(s, t, ls));
      r.Ok? && r.value.Obj? &&
      (forall k :: k in r.value.members <==> k in doc.members || (k in ls && k !in s.members)) &&
      (forall k | k in r.value.members :: r.value.members[k] ==
         if k in ls && k !in s.members then t.members[k] else doc.members[k])
    ensures Anchored(doc, NewMembers(s, t, ls))
    decreases |ls|
  {
    if ls != [] {
      var before, l := ls[..|ls| - 1], ls[|ls| - 1];
      NewMembersApply(s, t, doc, before);
      assert forall x :: x in ls <==> x in before || x == l;
      if l !in s.members {
        var next := ApplyAll(doc, NewMembers(s, t, before)).value;
        ApplyToChild(next, l, t.members[l]);
        ApplyAllOne(next, Add([l], t.members[l]));
        ApplyAllConcat(doc, NewMembers(s, t, before), [Add([l], t.members[l])]);
        AnchoredConcat(doc, NewMembers(s, t, before), [Add([l], t.members[l])]);
      } else {
        assert NewMembers(s, t, before) + [] == NewMembers(s, t, before);
      }
    }
  }

  lemma {:induction false} ObjectsApply(s: Json, t: Json)
    requires s.Obj? && t.Obj? && !Eq(s, t)
    ensures var r := ApplyAll(s, Operations(s, t));
      (r.Ok? <==> Addressable(s, t)) && (r.Ok? ==> Eq(r.value, t))
    ensures Anchored(s, Operations(s, t))
    decreases s, 1, 0
  {
    var ks, ls := SortedKeys(s.members.Keys), SortedKeys(t.members.Keys);
    var first, second := MemberOperations(s, t, ks), NewMembers(s, t, ls);
    assert Operations(s, t) == first + second;
    assert Addressable(s, t) <==> MembersAddressable(s, t, ks);
    hide Operations, MemberOperations, NewMembers, ApplyAll, Anchored, Addressable, MembersAddressable, MembersDone, Eq,
         Ascending, SortedKeys;
    MembersApply(s, t, ks);
    ApplyAllConcat(s, first, second);
    var r := ApplyAll(s, first);
    if r.Ok? {
      NewMembersApply(s, t, r.value, ls);
      MembersComplete(s, t, r.value, ApplyAll(r.value, second).value);
    }
    AnchoredConcat(s, first, second);
  }

  lemma MembersComplete(s: Json, t: Json, mid: Json, r: Json)
    requires s.Obj? && t.Obj? && r.Obj? && MembersDone(s, t, SortedKeys(s.members.Keys), mid)
    requires forall k :: k in r.members <==> k in mid.members || (k in t.members && k !in s.members)
    requires forall k | k in r.members ::
      r.members[k] == (if k in t.members && k !in s.members then t.members[k] else mid.members[k])
    ensures Eq(r, t)
  {
    forall k | k in r.members ensures k in t.members && Eq(r.members[k], t.members[k]) {
      if k in t.members { EqReflexive(t.members[k]); }
    }
    forall k | k in t.members ensures k in r.members {}
  }

  lemma {:induction false} OperationsApply(s: Json, t: Json)
    ensures var r := ApplyAll(s, Operations(s, t));
      (r.Ok? <==> Addressable(s, t)) && (r.Ok? ==> Eq(r.value, t))
    ensures Anchored(s, Operations(s, t))
    ensures Operations(s, t) == [] <==> Eq(s, t)
    decreases s, 2, 0
  {
    if Eq(s, t) {
    } else if s.Arr? && t.Arr? {
      ArraysApply(s, t);
    } else if s.Obj? && t.Obj? {
      ObjectsApply(s, t);
    } else {
      ApplyAllOne(s, Replace([], t));
      EqReflexive(t);
    }
    if Operations(s, t) == [] { EqReflexive(s); }
  }

  // ----- the invariant the library documents -----

  /** The patch document that diff writes for two values found at `p`. */
  function DifferenceAt(p: seq<Str>, source: Json, target: Json): Json {
    Arr(Documents(AllBelow(p, Operations(source, target))))
  }

  /** diff(source, target) as a caller gets it. */
  method Difference(source: Json, target: Json) returns (patch: Json)
    ensures patch == DifferenceAt([], source, target)
  {
    patch := DiffValues(source, target, [], []);
  }

  lemma AllBelowRoot(ops: seq<Operation>)
    ensures AllBelow([], ops) == ops
  {
    forall i | 0 <= i < |ops| ensures Below([], ops[i]) == ops[i] {
      assert [] + ops[i].path == ops[i].path;
      if ops[i].Move? || ops[i].Copy? { assert [] + ops[i].from == ops[i].from; }
    }
  }

  /** Applying the difference either throws, or yields a value equal to the target; and it throws
      exactly if an array would have to change at a position that does not fit into an int. */
  lemma PatchOfDiff(source: Json, target: Json)
    requires source.FloatFree() && target.FloatFree()
    ensures var r := Patched(source, DifferenceAt([], source, target));
            (r.Ok? <==> Addressable(source, target)) && (r.Ok? ==> Eq(r.value, target))
  {
    OperationsApply(source, target);
    AllBelowRoot(Operations(source, target));
    StepsOfDocuments(source, Operations(source, target));
  }

  /** In particular the documented invariant holds for all values without over-long arrays. */
  lemma PatchOfDiffIndexable(source: Json, target: Json)
    requires source.FloatFree() && target.FloatFree() && Indexable(source) && Indexable(target)
    ensures var r := Patched(source, DifferenceAt([], source, target));
            r.Ok? && Eq(r.value, target)
  {
    PatchOfDiff(source, target);
    IndexableIsAddressable(source, target);
  }

  /** Where it fails: emptying an array that is longer than an int can count. */
  lemma OverlongArrayFails(n: nat)
    requires n > INT_MAX + 1
    ensures var s, t := Arr(seq(n, _ => Null)), Arr([]);
            Patched(s, DifferenceAt([], s, t)).Err?
  {
    hide Patched, DifferenceAt;
    var s, t := Arr(seq(n, _ => Null)), Arr([]);
    PatchOfDiff(s, t);
  }

  /** The same inside a larger document: with `p` leading to the source, the patch for that path throws
      under the same condition, and otherwise brings the target there and leaves everything else as it was. */
  lemma PatchOfDiffBelow(doc: Json, p: seq<Str>, target: Json)
    requires At(doc, p).Ok? && At(doc, p).value.FloatFree() && target.FloatFree()
    ensures var source := At(doc, p).value;
            var r := Patched(doc, DifferenceAt(p, source, target));
            && (r.Ok? <==> Addressable(source, target))
            && (r.Ok? ==> exists v :: Eq(v, target) && r == Ok(Put(doc, p, v)))
  {
    hide Put, Addressable, Relative, Anchored, ApplyAll, Operations, AllBelow;
    var source := At(doc, p).value;
    var ops := Operations(source, target);
    OperationsApply(source, target);
    OperationsRelative(source, target);
    StepsOfDocuments(doc, AllBelow(p, ops));
    if Addressable(source, target) {
      ApplyAllBelow(doc, p, ops);
    } else if p == [] {
      AllBelowRoot(ops);
    } else {
      FailBelow(doc, p, ops);
    }
  }
}
