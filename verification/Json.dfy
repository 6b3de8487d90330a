/** JSON values, their equality and their order. */
module Json {
  import opened Bytes

  const INT64_MIN := -0x8000_0000_0000_0000
  const INT64_MAX := 0x7FFF_FFFF_FFFF_FFFF
  const UINT64_MAX := 0xFFFF_FFFF_FFFF_FFFF

  type int64 = x: int | INT64_MIN <= x <= INT64_MAX
  type uint64 = x: int | 0 <= x <= UINT64_MAX

  /** An object keeps its members in key order, as std::map does: `SortedKeys` is that order.
      A floating-point number is opaque: it stands for whatever strtod makes of a literal. */
  datatype Json =
    | Null
    | Bool(b: bool)
    | Int(i: int64)
    | UInt(u: uint64)
    | Float(literal: Str)
    | Text(s: Str)
    | Arr(items: seq<Json>)
    | Obj(members: map<Str, Json>)
  {
    predicate Primitive() {
      !Arr? && !Obj?
    }

    predicate IsInteger() {
      Int? || UInt?
    }

    predicate IsNumber() {
      Int? || UInt? || Float?
    }

    /** No floating-point number occurs anywhere. */
    ghost predicate FloatFree() {
      match this
      case Float(_) => false
      case Arr(items) => forall x | x in items :: x.FloatFree()
      case Obj(members) => forall k | k in members :: members[k].FloatFree()
      case _ => true
    }
  }

  /** static_cast<int64_t> of an unsigned 64-bit number. */
  function Signed(u: uint64): int64 {
    if u <= INT64_MAX then u else u - (UINT64_MAX + 1)
  }

  // ----- operator== -----

  predicate Eq(a: Json, b: Json) {
    match (a, b)
    case (Null, Null) => true
    case (Bool(p), Bool(q)) => p == q
    case (Int(i), Int(j)) => i == j
    case (UInt(u), UInt(v)) => u == v
    case (Int(i), UInt(v)) => i == Signed(v)
    case (UInt(u), Int(j)) => Signed(u) == j
    case (Float(l), Float(m)) => l == m
    case (Text(s), Text(t)) => s == t
    case (Arr(xs), Arr(ys)) => |xs| == |ys| && forall i | 0 <= i < |xs| :: Eq(xs[i], ys[i])
    case (Obj(ms), Obj(ns)) => ms.Keys == ns.Keys && forall k | k in ms :: Eq(ms[k], ns[k])
    case _ => false
  }

  lemma {:induction false} EqReflexive(a: Json)
    ensures Eq(a, a)
  {
    match a {
      case Arr(xs) => forall i | 0 <= i < |xs| ensures Eq(xs[i], xs[i]) { EqReflexive(xs[i]); }
      case Obj(ms) => forall k | k in ms ensures Eq(ms[k], ms[k]) { EqReflexive(ms[k]); }
      case _ =>
    }
  }

  lemma {:induction false} EqSymmetric(a: Json, b: Json)
    ensures Eq(a, b) == Eq(b, a)
  {
    match (a, b) {
      case (Arr(xs), Arr(ys)) =>
        forall i | 0 <= i < |xs| && i < |ys| ensures Eq(xs[i], ys[i]) == Eq(ys[i], xs[i]) {
          EqSymmetric(xs[i], ys[i]);
        }
      case (Obj(ms), Obj(ns)) =>
        forall k | k in ms && k in ns ensures Eq(ms[k], ns[k]) == Eq(ns[k], ms[k]) {
          EqSymmetric(ms[k], ns[k]);
        }
      case _ =>
    }
  }

  /** Across types the source compares integers with floating-point numbers after a conversion that rounds,
      so this is about values without them. */
  lemma {:induction false} EqTransitive(a: Json, b: Json, c: Json)
    requires a.FloatFree() && b.FloatFree() && c.FloatFree()
    requires Eq(a, b) && Eq(b, c)
    ensures Eq(a, c)
  {
    match a {
      case Arr(xs) =>
        forall i | 0 <= i < |xs| ensures Eq(xs[i], c.items[i]) {
          EqTransitive(xs[i], b.items[i], c.items[i]);
        }
      case Obj(ms) =>
        forall k | k in ms ensures Eq(ms[k], c.members[k]) {
          EqTransitive(ms[k], b.members[k], c.members[k]);
        }
      case _ =>
    }
  }

  // ----- operator< -----

  /** Position of the type in the order null, boolean, number, object, array, string. */
  function TypeRank(a: Json): nat {
    match a
    case Null => 0
    case Bool(_) => 1
    case Int(_) | UInt(_) | Float(_) => 2
    case Obj(_) => 3
    case Arr(_) => 4
    case Text(_) => 5
  }

  /** How deeply a value nests; only a measure for the recursion below. */
  ghost function Height(a: Json): nat
    decreases a, 1, 0
  {
    match a
    case Arr(items) => 1 + ItemsHeight(a, |items|)
    case Obj(members) => 1 + MembersHeight(a, members.Keys)
    case _ => 0
  }

  ghost function ItemsHeight(a: Json, n: nat): (h: nat)
    requires a.Arr? && n <= |a.items|
    ensures forall i | 0 <= i < n :: Height(a.items[i]) <= h
    decreases a, 0, n
  {
    if n == 0 then 0 else
      var h, g := ItemsHeight(a, n - 1), Height(a.items[n - 1]);
      if g < h then h else g
  }

  ghost function MembersHeight(a: Json, ks: set<Str>): (h: nat)
    requires a.Obj? && ks <= a.members.Keys
    ensures forall k | k in ks :: Height(a.members[k]) <= h
    decreases a, 0, |ks|
  {
    if ks == {} then 0 else
      var k :| k in ks;
      var h, g := MembersHeight(a, ks - {k}), Height(a.members[k]);
      if g < h then h else g
  }

  predicate Lt(a: Json, b: Json)
    decreases Height(a) + Height(b), 1, 0
  {
    match (a, b)
    case (Bool(p), Bool(q)) => !p && q
    case (Int(i), Int(j)) => i < j
    case (UInt(u), UInt(v)) => u < v
    case (Int(i), UInt(v)) => i < Signed(v)
    case (UInt(u), Int(j)) => Signed(u) < j
    case (Text(s), Text(t)) => LexLt(s, t)
    case (Arr(xs), Arr(ys)) => ItemsLt(a, 0, b)
    case (Obj(ms), Obj(ns)) => MembersLt(a, SortedKeys(ms.Keys), b, SortedKeys(ns.Keys))
    case _ => TypeRank(a) < TypeRank(b)
  }

  /** std::lexicographical_compare over two vectors, from position n on. */
  predicate ItemsLt(a: Json, n: nat, b: Json)
    requires a.Arr? && b.Arr? && n <= |a.items| && n <= |b.items|
    decreases Height(a) + Height(b), 0, |a.items| - n
  {
    n < |b.items| &&
    (n == |a.items| ||
     Lt(a.items[n], b.items[n]) ||
     (!Lt(b.items[n], a.items[n]) && ItemsLt(a, n + 1, b)))
  }

  /** std::lexicographical_compare over the remaining pairs of two maps. */
  predicate MembersLt(a: Json, ks: seq<Str>, b: Json, ls: seq<Str>)
    requires a.Obj? && b.Obj?
    requires forall k | k in ks :: k in a.members
    requires forall l | l in ls :: l in b.members
    decreases Height(a) + Height(b), 0, |ks|
  {
    ls != [] &&
    (ks == [] ||
     LexLt(ks[0], ls[0]) ||
     (!LexLt(ls[0], ks[0]) && Lt(a.members[ks[0]], b.members[ls[0]])) ||
     (!LexLt(ls[0], ks[0]) &&
      !(!LexLt(ks[0], ls[0]) && Lt(b.members[ls[0]], a.members[ks[0]])) &&
      MembersLt(a, ks[1..], b, ls[1..])))
  }
}
