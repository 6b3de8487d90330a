/** operator< and operator== together: where they form a strict weak order, and where not. */
module Order {
  import opened Bytes
  import opened Json

  /** Float-free values all of whose unsigned numbers are at most `bound`. */
  ghost predicate Comparable(a: Json, bound: nat) {
    match a
    case Float(_) => false
    case UInt(u) => u <= bound
    case Arr(items) => forall x | x in items :: Comparable(x, bound)
    case Obj(members) => forall k | k in members :: Comparable(members[k], bound)
    case _ => true
  }

  datatype Ordering = Less | Equal | Greater

  function Flip(o: Ordering): Ordering {
    match o case Less => Greater case Equal => Equal case Greater => Less
  }

  /** How `operator<` places two values. */
  function Compare(a: Json, b: Json): Ordering {
    if Lt(a, b) then Less else if Lt(b, a) then Greater else Equal
  }

  /** `o` follows from comparing a with b and b with c. */
  predicate Chains(ab: Ordering, bc: Ordering, ac: Ordering) {
    (ab == Equal ==> ac == bc) && (bc == Equal ==> ac == ab) && (ab == bc ==> ac == ab)
  }

  // ----- exactly one of a < b, a == b, b < a -----

  lemma {:induction false} Trichotomy(a: Json, b: Json)
    requires Comparable(a, INT64_MAX) && Comparable(b, INT64_MAX)
    ensures !(Lt(a, b) && Lt(b, a))
    ensures Eq(a, b) <==> !Lt(a, b) && !Lt(b, a)
    decreases Height(a) + Height(b), 1, 0
  {
    if a.Arr? && b.Arr? {
      ItemsTrichotomy(a, 0, b);
    } else if a.Obj? && b.Obj? {
      ObjectTrichotomy(a, b);
    } else if a.Text? && b.Text? {
      LexTrichotomy(a.s, b.s);
    }
  }

  lemma {:induction false} ObjectTrichotomy(a: Json, b: Json)
    requires a.Obj? && b.Obj?
    requires Comparable(a, INT64_MAX) && Comparable(b, INT64_MAX)
    ensures !(Lt(a, b) && Lt(b, a))
    ensures Eq(a, b) <==> !Lt(a, b) && !Lt(b, a)
    decreases Height(a) + Height(b), 0, |SortedKeys(a.members.Keys)| + 1
  {
    var ks, ls := SortedKeys(a.members.Keys), SortedKeys(b.members.Keys);
    MembersTrichotomy(a, ks, b, ls);
    SortedKeysInjective(a.members.Keys, b.members.Keys);
    assert Lt(a, b) == MembersLt(a, ks, b, ls) && Lt(b, a) == MembersLt(b, ls, a, ks);
    assert Eq(a, b) <==> ks == ls && forall k | k in ks :: Eq(a.members[k], b.members[k]) by {
      hide Lt, MembersLt, SortedKeys, Comparable;
    }
  }

  lemma {:induction false} ItemsTrichotomy(a: Json, n: nat, b: Json)
    requires a.Arr? && b.Arr? && n <= |a.items| && n <= |b.items|
    requires Comparable(a, INT64_MAX) && Comparable(b, INT64_MAX)
    ensures !(ItemsLt(a, n, b) && ItemsLt(b, n, a))
    ensures (|a.items| == |b.items| && forall i | n <= i < |a.items| :: Eq(a.items[i], b.items[i]))
      <==> !ItemsLt(a, n, b) && !ItemsLt(b, n, a)
    decreases Height(a) + Height(b), 0, |a.items| - n
  {
    if n < |a.items| && n < |b.items| {
      Trichotomy(a.items[n], b.items[n]);
      ItemsTrichotomy(a, n + 1, b);
      NextItemTrichotomy(a, n, b);
    } else {
      hide Lt, Eq, Comparable, Height;
    }
  }

  lemma NextItemTrichotomy(a: Json, n: nat, b: Json)
    requires a.Arr? && b.Arr? && n < |a.items| && n < |b.items|
    requires var (x, y) := (a.items[n], b.items[n]); !(Lt(x, y) && Lt(y, x)) && (Eq(x, y) <==> !Lt(x, y) && !Lt(y, x))
    requires !(ItemsLt(a, n + 1, b) && ItemsLt(b, n + 1, a))
    requires (|a.items| == |b.items| && forall i | n + 1 <= i < |a.items| :: Eq(a.items[i], b.items[i]))
      <==> !ItemsLt(a, n + 1, b) && !ItemsLt(b, n + 1, a)
    ensures !(ItemsLt(a, n, b) && ItemsLt(b, n, a))
    ensures (|a.items| == |b.items| && forall i | n <= i < |a.items| :: Eq(a.items[i], b.items[i]))
      <==> !ItemsLt(a, n, b) && !ItemsLt(b, n, a)
  {
    hide *;
    ItemsLtStep(a, n, b);
    ItemsLtStep(b, n, a);
  }

  lemma ItemsLtStep(a: Json, n: nat, b: Json)
    requires a.Arr? && b.Arr? && n < |a.items| && n < |b.items|
    ensures ItemsLt(a, n, b) <==>
      Lt(a.items[n], b.items[n]) || (!Lt(b.items[n], a.items[n]) && ItemsLt(a, n + 1, b))
  {
    hide Lt;
  }

  lemma {:induction false} MembersTrichotomy(a: Json, ks: seq<Str>, b: Json, ls: seq<Str>)
    requires a.Obj? && b.Obj?
    requires forall k | k in ks :: k in a.members
    requires forall l | l in ls :: l in b.members
    requires Comparable(a, INT64_MAX) && Comparable(b, INT64_MAX)
    ensures !(MembersLt(a, ks, b, ls) && MembersLt(b, ls, a, ks))
    ensures (ks == ls && forall k | k in ks :: Eq(a.members[k], b.members[k]))
      <==> !MembersLt(a, ks, b, ls) && !MembersLt(b, ls, a, ks)
    decreases Height(a) + Height(b), 0, |ks|
  {
    if ks != [] && ls != [] {
      LexTrichotomy(ks[0], ls[0]);
      Trichotomy(a.members[ks[0]], b.members[ls[0]]);
      MembersTrichotomy(a, ks[1..], b, ls[1..]);
      hide Lt, Eq, LexLt, Comparable;
      assert ks == [ks[0]] + ks[1..] && ls == [ls[0]] + ls[1..];
      assert ks == ls <==> ks[0] == ls[0] && ks[1..] == ls[1..];
      assert forall k :: k in ks <==> k == ks[0] || k in ks[1..];
    }
  }

  lemma {:induction false} CompareChains(a: Json, b: Json, c: Json)
    requires Comparable(a, INT64_MAX) && Comparable(b, INT64_MAX) && Comparable(c, INT64_MAX)
    ensures Chains(Compare(a, b), Compare(b, c), Compare(a, c))
    decreases Height(a) + Height(b) + Height(c), 1, 0
  {
    Trichotomy(a, b);
    Trichotomy(b, c);
    Trichotomy(a, c);
    if a.Arr? && b.Arr? && c.Arr? {
      ItemsChain(a, b, c, 0);
    } else if a.Obj? && b.Obj? && c.Obj? {
      MembersChain(a, SortedKeys(a.members.Keys), b, SortedKeys(b.members.Keys), c, SortedKeys(c.members.Keys));
    } else if a.Text? && b.Text? && c.Text? {
      LexChain(a.s, b.s, c.s);
    }
  }

  lemma LexChain(a: Str, b: Str, c: Str)
    ensures LexLt(a, b) && LexLt(b, c) ==> LexLt(a, c)
    ensures LexLt(c, b) && LexLt(b, a) ==> LexLt(c, a)
    ensures !LexLt(a, b) && !LexLt(b, a) ==> a == b
    ensures !LexLt(b, c) && !LexLt(c, b) ==> b == c
    ensures !(LexLt(a, b) && LexLt(b, a)) && !(LexLt(b, c) && LexLt(c, b)) && !(LexLt(a, c) && LexLt(c, a))
  {
    LexTrichotomy(a, b);
    LexTrichotomy(b, c);
    LexTrichotomy(a, c);
    if LexLt(a, b) && LexLt(b, c) { LexTransitive(a, b, c); }
    if LexLt(c, b) && LexLt(b, a) { LexTransitive(c, b, a); }
  }

  function CompareItems(a: Json, b: Json, n: nat): Ordering
    requires a.Arr? && b.Arr? && n <= |a.items| && n <= |b.items|
  {
    if ItemsLt(a, n, b) then Less else if ItemsLt(b, n, a) then Greater else Equal
  }

  lemma {:induction false} ItemsChain(a: Json, b: Json, c: Json, n: nat)
    requires a.Arr? && b.Arr? && c.Arr? && n <= |a.items| && n <= |b.items| && n <= |c.items|
    requires Comparable(a, INT64_MAX) && Comparable(b, INT64_MAX) && Comparable(c, INT64_MAX)
    ensures Chains(CompareItems(a, b, n), CompareItems(b, c, n), CompareItems(a, c, n))
    decreases Height(a) + Height(b) + Height(c), 0, |a.items| - n
  {
    if n < |a.items| && n < |b.items| && n < |c.items| {
      CompareChains(a.items[n], b.items[n], c.items[n]);
      Trichotomy(a.items[n], b.items[n]);
      Trichotomy(b.items[n], c.items[n]);
      Trichotomy(a.items[n], c.items[n]);
      ItemsChain(a, b, c, n + 1);
    }
  }

  function CompareMembers(a: Json, ks: seq<Str>, b: Json, ls: seq<Str>): Ordering
    requires a.Obj? && b.Obj?
    requires forall k | k in ks :: k in a.members
    requires forall l | l in ls :: l in b.members
  {
    if MembersLt(a, ks, b, ls) then Less else if MembersLt(b, ls, a, ks) then Greater else Equal
  }

  lemma {:induction false} MembersChain(a: Json, ks: seq<Str>, b: Json, ls: seq<Str>, c: Json, ms: seq<Str>)
    requires a.Obj? && b.Obj? && c.Obj?
    requires forall k | k in ks :: k in a.members
    requires forall l | l in ls :: l in b.members
    requires forall m | m in ms :: m in c.members
    requires Comparable(a, INT64_MAX) && Comparable(b, INT64_MAX) && Comparable(c, INT64_MAX)
    ensures Chains(CompareMembers(a, ks, b, ls), CompareMembers(b, ls, c, ms), CompareMembers(a, ks, c, ms))
    decreases Height(a) + Height(b) + Height(c), 0, |ks|
  {
    if ks != [] && ls != [] && ms != [] {
      var x, y, z := a.members[ks[0]], b.members[ls[0]], c.members[ms[0]];
      LexChain(ks[0], ls[0], ms[0]);
      CompareChains(x, y, z);
      Trichotomy(x, y);
      Trichotomy(y, z);
      Trichotomy(x, z);
      MembersChain(a, ks[1..], b, ls[1..], c, ms[1..]);
    }
  }

  // ----- the order theorem and its exact bound -----

  /** Irreflexive, transitive, and "neither is less" is exactly operator==, an equivalence. */
  ghost predicate StrictWeakOrder(bound: nat) {
    && (forall a | Comparable(a, bound) :: !Lt(a, a))
    && (forall a, b, c | Comparable(a, bound) && Comparable(b, bound) && Comparable(c, bound) ::
          Chains(Compare(a, b), Compare(b, c), Compare(a, c)))
    && (forall a, b | Comparable(a, bound) && Comparable(b, bound) ::
          Compare(b, a) == Flip(Compare(a, b)) && (Compare(a, b) == Equal <==> Eq(a, b)))
  }

  lemma {:induction false} ComparableMonotone(a: Json, low: nat, high: nat)
    requires low <= high && Comparable(a, low)
    ensures Comparable(a, high)
  {
    match a {
      case Arr(items) => forall x | x in items ensures Comparable(x, high) { ComparableMonotone(x, low, high); }
      case Obj(ms) => forall k | k in ms ensures Comparable(ms[k], high) { ComparableMonotone(ms[k], low, high); }
      case _ =>
    }
  }

  /** The order is a strict weak order agreeing with == exactly as long as unsigned numbers fit
      into the signed type: from 2^63 on, u < 0 < 1 < u is a cycle. */
  lemma OrderIsStrictWeakUpToInt64Max(bound: uint64)
    ensures StrictWeakOrder(bound) <==> bound <= INT64_MAX
  {
    if bound <= INT64_MAX {
      forall a, b | Comparable(a, bound) && Comparable(b, bound)
        ensures Compare(b, a) == Flip(Compare(a, b)) && (Compare(a, b) == Equal <==> Eq(a, b))
      {
        ComparableMonotone(a, bound, INT64_MAX);
        ComparableMonotone(b, bound, INT64_MAX);
        Trichotomy(a, b);
      }
      forall a | Comparable(a, bound) ensures !Lt(a, a) {
        EqReflexive(a);
      }
      forall a, b, c | Comparable(a, bound) && Comparable(b, bound) && Comparable(c, bound)
        ensures Chains(Compare(a, b), Compare(b, c), Compare(a, c))
      {
        ComparableMonotone(a, bound, INT64_MAX);
        ComparableMonotone(b, bound, INT64_MAX);
        ComparableMonotone(c, bound, INT64_MAX);
        CompareChains(a, b, c);
      }
    } else {
      var u, zero, one := UInt(INT64_MAX + 1), Int(0), UInt(1);
      assert Comparable(u, bound) && Comparable(zero, bound) && Comparable(one, bound);
      assert Lt(u, zero) && Lt(zero, one) && Lt(one, u);
      assert !Chains(Compare(u, zero), Compare(zero, one), Compare(u, one));
    }
  }
}
