/** diff touches only the places where the two values differ. */
module DiffLaws {
  import opened Bytes
  import opened Json
  import opened Patch
  import opened Diff
  import opened Flatten

  /** Two arrays or two objects. */
  predicate Alike(s: Json, t: Json) {
    (s.Arr? && t.Arr?) || (s.Obj? && t.Obj?)
  }

  predicate InBoth(s: Json, t: Json, token: Str) {
    Alike(s, t) && HasChild(s, token) && HasChild(t, token)
  }

  /** At `p` the two values differ, and not as two arrays or two objects do; `v` is the one of the target. */
  predicate ReplacesDifference(s: Json, t: Json, p: seq<Str>, v: Json)
    decreases |p|
  {
    if p == [] then v == t && !Eq(s, t) && !Alike(s, t)
    else InBoth(s, t, p[0]) && ReplacesDifference(ChildOf(s, p[0]), ChildOf(t, p[0]), p[1..], v)
  }

  /** The source has a value at `p`; the target has its parent, but not that value. */
  predicate RemovesSurplus(s: Json, t: Json, p: seq<Str>)
    decreases |p|
  {
    && p != []
    && if |p| == 1 then Alike(s, t) && HasChild(s, p[0]) && !HasChild(t, p[0])
       else InBoth(s, t, p[0]) && RemovesSurplus(ChildOf(s, p[0]), ChildOf(t, p[0]), p[1..])
  }

  /** The target has `v` at `p`; the source has its parent, but no such child. */
  predicate AddsMissing(s: Json, t: Json, p: seq<Str>, v: Json)
    decreases |p|
  {
    && p != []
    && if |p| == 1 then Alike(s, t) && HasChild(t, p[0]) && !HasChild(s, p[0]) && ChildOf(t, p[0]) == v
       else InBoth(s, t, p[0]) && AddsMissing(ChildOf(s, p[0]), ChildOf(t, p[0]), p[1..], v)
  }

  predicate IsNeeded(s: Json, t: Json, op: Operation) {
    match op
    case Replace(path, v) => ReplacesDifference(s, t, path, v)
    case Remove(path) => RemovesSurplus(s, t, path)
    case Add(path, v) => AddsMissing(s, t, path, v)
    case _ => false
  }

  predicate AllNeeded(s: Json, t: Json, ops: seq<Operation>) {
    forall op | op in ops :: IsNeeded(s, t, op)
  }

  lemma NeededBelow(s: Json, t: Json, token: Str, ops: seq<Operation>)
    requires InBoth(s, t, token) && AllNeeded(ChildOf(s, token), ChildOf(t, token), ops)
    ensures AllNeeded(s, t, AllBelow([token], ops))
  {
    hide HasChild, ChildOf, Eq;
    forall op | op in AllBelow([token], ops) ensures IsNeeded(s, t, op) {
      var i :| 0 <= i < |ops| && op == Below([token], ops[i]);
      assert ops[i] in ops;
      assert op.path[1..] == ops[i].path;
    }
  }

  lemma NeededBoth(s: Json, t: Json, a: seq<Operation>, b: seq<Operation>)
    requires AllNeeded(s, t, a) && AllNeeded(s, t, b)
    ensures AllNeeded(s, t, a + b)
  {
    hide IsNeeded;
  }

  lemma NoItem(xs: seq<Json>, i: nat)
    requires i >= |xs|
    ensures !HasChild(Arr(xs), Dec(i))
  {
    DecDenotes(i);
  }

  /** Every operation of diff replaces a difference, removes what the target lacks or adds what the source
      lacks; places where the values agree are left alone. */
  lemma {:induction false} OperationsAreNeeded(s: Json, t: Json)
    ensures AllNeeded(s, t, Operations(s, t))
    decreases s, 1, 0
  {
    hide AllNeeded, IsNeeded, ItemOperations, MemberOperations, Removals, Additions, NewMembers, SortedKeys, Ascending;
    if Eq(s, t) {
      NoneNeeded(s, t);
    } else if s.Arr? && t.Arr? {
      var n := if |s.items| < |t.items| then |s.items| else |t.items|;
      ItemsAreNeeded(s, t, n);
      RemovalsAreNeeded(s, t, |t.items|, |s.items|);
      AdditionsAreNeeded(s, t, |s.items|);
      SurplusAt(s, t, n);
      NeededBoth(s, t, ItemOperations(s, t, n), Removals(n, |s.items|));
      NeededBoth(s, t, ItemOperations(s, t, n) + Removals(n, |s.items|), Additions(t.items, n));
    } else if s.Obj? && t.Obj? {
      var ks, ls := SortedKeys(s.members.Keys), SortedKeys(t.members.Keys);
      MembersAreNeeded(s, t, ks);
      NewAreNeeded(s, t, ls);
      NeededBoth(s, t, MemberOperations(s, t, ks), NewMembers(s, t, ls));
    } else {
      RootIsNeeded(s, t);
    }
  }

  lemma NoneNeeded(s: Json, t: Json)
    ensures AllNeeded(s, t, [])
  {
  }

  lemma RootIsNeeded(s: Json, t: Json)
    requires !Eq(s, t) && !Alike(s, t)
    ensures AllNeeded(s, t, [Replace([], t)])
  {
  }

  /** From the common length on there is either nothing to remove or nothing to add. */
  lemma SurplusAt(s: Json, t: Json, n: nat)
    requires s.Arr? && t.Arr? && n == if |s.items| < |t.items| then |s.items| else |t.items|
    ensures Removals(n, |s.items|) == Removals(|t.items|, |s.items|)
    ensures Additions(t.items, n) == Additions(t.items, |s.items|)
  {
  }

  lemma {:induction false} ItemsAreNeeded(s: Json, t: Json, n: nat)
    requires s.Arr? && t.Arr? && n <= |s.items| && n <= |t.items|
    ensures AllNeeded(s, t, ItemOperations(s, t, n))
    decreases s, 0, n
  {
    hide AllNeeded, IsNeeded, Operations;
    if n == 0 {
      NoneNeeded(s, t);
    } else {
      var x, y, token := s.items[n - 1], t.items[n - 1], Dec(n - 1);
      ItemsAreNeeded(s, t, n - 1);
      OperationsAreNeeded(x, y);
      HasItem(s.items, n - 1);
      HasItem(t.items, n - 1);
      NeededBelow(s, t, token, Operations(x, y));
      NeededBoth(s, t, ItemOperations(s, t, n - 1), AllBelow([token], Operations(x, y)));
    }
  }

  lemma {:induction false} RemovalsAreNeeded(s: Json, t: Json, lo: nat, hi: nat)
    requires s.Arr? && t.Arr? && |t.items| <= lo && hi <= |s.items|
    ensures AllNeeded(s, t, Removals(lo, hi))
    decreases hi
  {
    if lo < hi {
      RemovalsAreNeeded(s, t, lo, hi - 1);
      HasItem(s.items, hi - 1);
      NoItem(t.items, hi - 1);
      hide HasChild, Dec;
      assert IsNeeded(s, t, Remove([Dec(hi - 1)]));
    }
  }

  lemma {:induction false} AdditionsAreNeeded(s: Json, t: Json, n: nat)
    requires s.Arr? && t.Arr? && |s.items| <= n
    ensures AllNeeded(s, t, Additions(t.items, n))
    decreases |t.items| - n
  {
    if n < |t.items| {
      AdditionsAreNeeded(s, t, n + 1);
      HasItem(t.items, n);
      NoItem(s.items, n);
      hide HasChild, ChildOf, Dec;
      assert IsNeeded(s, t, Add([Dec(n)], t.items[n]));
    }
  }

  lemma {:induction false} MembersAreNeeded(s: Json, t: Json, ks: seq<Str>)
    requires s.Obj? && t.Obj? && forall k | k in ks :: k in s.members
    ensures AllNeeded(s, t, MemberOperations(s, t, ks))
    decreases s, 0, |ks|
  {
    hide AllNeeded, IsNeeded, Operations;
    if ks == [] {
      NoneNeeded(s, t);
    } else {
      var k := ks[|ks| - 1];
      assert k in ks;
      MembersAreNeeded(s, t, ks[..|ks| - 1]);
      if k in t.members {
        OperationsAreNeeded(s.members[k], t.members[k]);
        NeededBelow(s, t, k, Operations(s.members[k], t.members[k]));
        NeededBoth(s, t, MemberOperations(s, t, ks[..|ks| - 1]), AllBelow([k], Operations(s.members[k], t.members[k])));
      } else {
        RemovedKeyIsNeeded(s, t, k);
        NeededBoth(s, t, MemberOperations(s, t, ks[..|ks| - 1]), [Remove([k])]);
      }
    }
  }

  lemma RemovedKeyIsNeeded(s: Json, t: Json, k: Str)
    requires s.Obj? && t.Obj? && k in s.members && k !in t.members
    ensures AllNeeded(s, t, [Remove([k])])
  {
  }

  lemma AddedKeyIsNeeded(s: Json, t: Json, k: Str)
    requires s.Obj? && t.Obj? && k !in s.members && k in t.members
    ensures AllNeeded(s, t, [Add([k], t.members[k])])
  {
  }

  lemma {:induction false} NewAreNeeded(s: Json, t: Json, ls: seq<Str>)
    requires s.Obj? && t.Obj? && forall l | l in ls :: l in t.members
    ensures AllNeeded(s, t, NewMembers(s, t, ls))
    decreases |ls|
  {
    hide AllNeeded, IsNeeded;
    if ls == [] {
      NoneNeeded(s, t);
    } else {
      var l := ls[|ls| - 1];
      assert l in ls;
      NewAreNeeded(s, t, ls[..|ls| - 1]);
      if l in s.members { NoneNeeded(s, t); } else { AddedKeyIsNeeded(s, t, l); }
      NeededBoth(s, t, NewMembers(s, t, ls[..|ls| - 1]), if l in s.members then [] else [Add([l], t.members[l])]);
    }
  }

  // ----- and nothing is to be done exactly for equal values -----

  lemma {:induction false} NothingToDo(s: Json, t: Json)
    ensures Operations(s, t) == [] <==> Eq(s, t)
    decreases s, 1
  {
    if !Eq(s, t) {
      if s.Arr? && t.Arr? && |s.items| == |t.items| {
        var i :| 0 <= i < |s.items| && !Eq(s.items[i], t.items[i]);
        NothingToDo(s.items[i], t.items[i]);
        SomeItem(s, t, |s.items|, i);
      } else if s.Obj? && t.Obj? && s.members.Keys == t.members.Keys {
        var k :| k in s.members && !Eq(s.members[k], t.members[k]);
        NothingToDo(s.members[k], t.members[k]);
        assert k in SortedKeys(s.members.Keys);
        SomeMember(s, t, SortedKeys(s.members.Keys), k);
      } else if s.Obj? && t.Obj? {
        if k :| k in s.members && k !in t.members {
          assert k in SortedKeys(s.members.Keys);
          SomeMember(s, t, SortedKeys(s.members.Keys), k);
        } else {
          var k :| k in t.members && k !in s.members;
          assert k in SortedKeys(t.members.Keys);
          SomeNew(s, t, SortedKeys(t.members.Keys), k);
        }
      }
    }
  }

  lemma {:induction false} SomeItem(s: Json, t: Json, n: nat, i: nat)
    requires s.Arr? && t.Arr? && i < n <= |s.items| && n <= |t.items|
    requires Operations(s.items[i], t.items[i]) != []
    ensures ItemOperations(s, t, n) != []
    decreases n
  {
    hide Operations;
    if i < n - 1 { SomeItem(s, t, n - 1, i); }
  }

  lemma {:induction false} SomeMember(s: Json, t: Json, ks: seq<Str>, k: Str)
    requires s.Obj? && t.Obj? && k in ks && forall x | x in ks :: x in s.members
    requires k in t.members ==> Operations(s.members[k], t.members[k]) != []
    ensures MemberOperations(s, t, ks) != []
    decreases |ks|
  {
    hide Operations;
    if k != ks[|ks| - 1] { SomeMember(s, t, ks[..|ks| - 1], k); }
  }

  lemma {:induction false} SomeNew(s: Json, t: Json, ls: seq<Str>, l: Str)
    requires s.Obj? && t.Obj? && l in ls && l !in s.members && forall x | x in ls :: x in t.members
    ensures NewMembers(s, t, ls) != []
    decreases |ls|
  {
    if l != ls[|ls| - 1] { SomeNew(s, t, ls[..|ls| - 1], l); }
  }
}
