/** What `operator==` and `operator<` compare, told apart from their recursion. */
module OrderLaws {
  import opened Bytes
  import opened Json

  // ----- byte strings -----

  /** One string is less than another if it is smaller at the first difference, or a proper prefix. */
  lemma {:induction false} LexByFirstDifference(a: Str, b: Str)
    ensures LexLt(a, b) <==>
      exists n :: 0 <= n <= |a| && n < |b| && SmallerAt(a, b, n)
  {
    if b != [] {
      if a == [] {
        assert SmallerAt(a, b, 0);
      } else if a[0] == b[0] {
        LexByFirstDifference(a[1..], b[1..]);
        forall n | 0 < n <= |a| && n < |b| ensures SmallerAt(a, b, n) == SmallerAt(a[1..], b[1..], n - 1) {
          Shifted(a, b, n);
        }
        assert !SmallerAt(a, b, 0);
        if n :| 0 <= n <= |a| && n < |b| && SmallerAt(a, b, n) { assert SmallerAt(a[1..], b[1..], n - 1); }
        if n :| 0 <= n <= |a[1..]| && n < |b[1..]| && SmallerAt(a[1..], b[1..], n) { assert SmallerAt(a, b, n + 1); }
      } else {
        assert SmallerAt(a, b, 0) <==> a[0] < b[0];
        forall n | 0 < n <= |a| && n < |b| ensures !SmallerAt(a, b, n) {
          assert a[..n][0] != b[..n][0];
        }
      }
    }
  }

  predicate SmallerAt(a: Str, b: Str, n: nat)
    requires n <= |a| && n < |b|
  {
    a[..n] == b[..n] && (n == |a| || a[n] as int < b[n] as int)
  }

  lemma Shifted(a: Str, b: Str, n: nat)
    requires a != [] && b != [] && a[0] == b[0] && 0 < n <= |a| && n < |b|
    ensures SmallerAt(a, b, n) == SmallerAt(a[1..], b[1..], n - 1)
  {
    assert a[..n] == [a[0]] + a[1..][..n - 1] && b[..n] == [b[0]] + b[1..][..n - 1];
    assert a[1..][..n - 1] == a[..n][1..] && b[1..][..n - 1] == b[..n][1..];
  }

  // ----- equality -----

  /** The value with every unsigned number above 2^63 - 1 taken as the signed number with the same bits. */
  function Bits(j: Json): Json {
    match j
    case UInt(u) => Int(if u < 0x8000_0000_0000_0000 then u else u - 0x1_0000_0000_0000_0000)
    case Arr(items) => Arr(seq(|items|, i requires 0 <= i < |items| => Bits(items[i])))
    case Obj(members) => Obj(map k | k in members :: Bits(members[k]))
    case _ => j
  }

  /** Values are equal exactly if they are the same, integers being compared by their 64 bits. */
  lemma {:induction false} EqualIsSame(a: Json, b: Json)
    requires a.FloatFree() && b.FloatFree()
    ensures Eq(a, b) <==> Bits(a) == Bits(b)
  {
    match (a, b) {
      case (Arr(xs), Arr(ys)) =>
        forall i | 0 <= i < |xs| && i < |ys| ensures Eq(xs[i], ys[i]) <==> Bits(xs[i]) == Bits(ys[i]) {
          EqualIsSame(xs[i], ys[i]);
        }
        SameItems(xs, ys);
      case (Obj(ms), Obj(ns)) =>
        forall k | k in ms && k in ns ensures Eq(ms[k], ns[k]) <==> Bits(ms[k]) == Bits(ns[k]) {
          EqualIsSame(ms[k], ns[k]);
        }
        SameMembers(ms, ns);
      case _ =>
    }
  }

  lemma SameItems(xs: seq<Json>, ys: seq<Json>)
    ensures Bits(Arr(xs)) == Bits(Arr(ys)) <==> |xs| == |ys| && forall i | 0 <= i < |xs| :: Bits(xs[i]) == Bits(ys[i])
  {
    var bs, cs := Bits(Arr(xs)).items, Bits(Arr(ys)).items;
    assert |bs| == |xs| && |cs| == |ys|;
    if bs == cs {
      forall i | 0 <= i < |xs| ensures Bits(xs[i]) == Bits(ys[i]) { assert bs[i] == cs[i]; }
    }
  }

  lemma SameMembers(ms: map<Str, Json>, ns: map<Str, Json>)
    ensures Bits(Obj(ms)) == Bits(Obj(ns)) <==> ms.Keys == ns.Keys && forall k | k in ms :: Bits(ms[k]) == Bits(ns[k])
  {
    var bs, cs := Bits(Obj(ms)).members, Bits(Obj(ns)).members;
    assert bs.Keys == ms.Keys && cs.Keys == ns.Keys;
    if bs == cs {
      forall k | k in ms ensures Bits(ms[k]) == Bits(ns[k]) { assert bs[k] == cs[k]; }
    }
  }

  // ----- order -----

  /** Null comes before booleans, these before numbers, then objects, arrays and strings; false before true. */
  lemma TypesInOrder(a: Json, b: Json)
    ensures a.Null? ==> (Lt(a, b) <==> !b.Null?)
    ensures a.Bool? && b.Bool? ==> (Lt(a, b) <==> !a.b && b.b)
    ensures a.Bool? && (b.IsNumber() || b.Obj? || b.Arr? || b.Text?) ==> Lt(a, b) && !Lt(b, a)
    ensures a.IsNumber() && (b.Obj? || b.Arr? || b.Text?) ==> Lt(a, b) && !Lt(b, a)
    ensures a.Obj? && (b.Arr? || b.Text?) ==> Lt(a, b) && !Lt(b, a)
    ensures a.Arr? && b.Text? ==> Lt(a, b) && !Lt(b, a)
    ensures a.Text? && b.Text? ==> (Lt(a, b) <==> LexLt(a.s, b.s))
    ensures !a.Null? && b.Null? ==> !Lt(a, b)
  {
  }

  function ValueOf(j: Json): int
    requires j.IsInteger()
  {
    if j.Int? then j.i else j.u
  }

  /** Integers of either kind are ordered by their values, up to 2^63 - 1. */
  lemma IntegersByValue(a: Json, b: Json)
    requires a.IsInteger() && b.IsInteger()
    requires ValueOf(a) <= 0x7FFF_FFFF_FFFF_FFFF && ValueOf(b) <= 0x7FFF_FFFF_FFFF_FFFF
    ensures Lt(a, b) <==> ValueOf(a) < ValueOf(b)
    ensures Eq(a, b) <==> ValueOf(a) == ValueOf(b)
  {
  }

  /** Neither is less. */
  predicate Tie(a: Json, b: Json) {
    !Lt(a, b) && !Lt(b, a)
  }

  /** Up to position n the elements tie, and there the first array ends or has the smaller element. */
  predicate ItemsLess(xs: seq<Json>, ys: seq<Json>, n: nat) {
    && n <= |xs| && n < |ys|
    && (forall i | 0 <= i < n :: Tie(xs[i], ys[i]))
    && (n == |xs| || Lt(xs[n], ys[n]))
  }

  /** Arrays are compared at the first elements that do not tie. */
  lemma ArraysByFirstDifference(xs: seq<Json>, ys: seq<Json>)
    ensures Lt(Arr(xs), Arr(ys)) <==> exists n: nat :: ItemsLess(xs, ys, n)
  {
    LessFrom(xs, ys, 0);
    assert Lt(Arr(xs), Arr(ys)) == ItemsLt(Arr(xs), 0, Arr(ys));
  }

  lemma {:induction false} LessFrom(xs: seq<Json>, ys: seq<Json>, m: nat)
    requires m <= |xs| && m <= |ys| && forall i | 0 <= i < m :: Tie(xs[i], ys[i])
    ensures ItemsLt(Arr(xs), m, Arr(ys)) <==> exists n: nat :: n >= m && ItemsLess(xs, ys, n)
    decreases |xs| - m
  {
    hide Lt;
    if m < |ys| {
      if m == |xs| || Lt(xs[m], ys[m]) {
        assert ItemsLess(xs, ys, m);
      } else if !Lt(ys[m], xs[m]) {
        LessFrom(xs, ys, m + 1);
        assert !ItemsLess(xs, ys, m);
      } else {
        forall n: nat | n >= m ensures !ItemsLess(xs, ys, n) {
          assert !Tie(xs[m], ys[m]);
        }
      }
    }
  }

  /** A key and its value. */
  predicate PairLess(k: Str, a: Json, l: Str, b: Json) {
    LexLt(k, l) || (!LexLt(l, k) && Lt(a, b))
  }

  predicate PairTie(k: Str, a: Json, l: Str, b: Json) {
    !PairLess(k, a, l, b) && !PairLess(l, b, k, a)
  }

  /** Up to position n in key order the members tie, and there the first object ends or has the smaller one. */
  ghost predicate MembersLess(a: Json, b: Json, n: nat)
    requires a.Obj? && b.Obj?
  {
    var ks, ls := SortedKeys(a.members.Keys), SortedKeys(b.members.Keys);
    LessAt(a, ks, b, ls, n)
  }

  ghost predicate LessAt(a: Json, ks: seq<Str>, b: Json, ls: seq<Str>, n: nat)
    requires a.Obj? && b.Obj?
    requires (forall k | k in ks :: k in a.members) && (forall l | l in ls :: l in b.members)
  {
    && n <= |ks| && n < |ls|
    && (forall i | 0 <= i < n :: TieAt(a, ks, b, ls, i))
    && (n == |ks| || PairLess(ks[n], a.members[ks[n]], ls[n], b.members[ls[n]]))
  }

  ghost predicate TieAt(a: Json, ks: seq<Str>, b: Json, ls: seq<Str>, i: nat)
    requires a.Obj? && b.Obj? && i < |ks| && i < |ls|
    requires (forall k | k in ks :: k in a.members) && (forall l | l in ls :: l in b.members)
  {
    PairTie(ks[i], a.members[ks[i]], ls[i], b.members[ls[i]])
  }

  /** Objects are compared at the first members, in key order, that do not tie: by key, then by value. */
  lemma ObjectsByFirstDifference(a: Json, b: Json)
    requires a.Obj? && b.Obj?
    ensures Lt(a, b) <==> exists n: nat :: MembersLess(a, b, n)
  {
    var ks, ls := SortedKeys(a.members.Keys), SortedKeys(b.members.Keys);
    assert Lt(a, b) == MembersLt(a, ks, b, ls);
    MembersFrom(a, ks, b, ls);
    hide SortedKeys, Lt, MembersLt, LessAt, Ascending;
    if n: nat :| LessAt(a, ks, b, ls, n) { assert MembersLess(a, b, n); }
    if n: nat :| MembersLess(a, b, n) { assert LessAt(a, ks, b, ls, n); }
  }

  lemma {:induction false} MembersFrom(a: Json, ks: seq<Str>, b: Json, ls: seq<Str>)
    requires a.Obj? && b.Obj?
    requires (forall k | k in ks :: k in a.members) && (forall l | l in ls :: l in b.members)
    ensures MembersLt(a, ks, b, ls) <==> exists n: nat :: LessAt(a, ks, b, ls, n)
    decreases |ks|
  {
    hide Lt, LexLt;
    if ls == [] {
    } else if ks == [] {
      assert LessAt(a, ks, b, ls, 0);
    } else {
      var x, y := a.members[ks[0]], b.members[ls[0]];
      if PairLess(ks[0], x, ls[0], y) {
        assert LessAt(a, ks, b, ls, 0);
      } else {
        MembersFrom(a, ks[1..], b, ls[1..]);
        FirstStep(a, ks, b, ls);
        if PairLess(ls[0], y, ks[0], x) {
          forall n: nat ensures !LessAt(a, ks, b, ls, n) {
            assert n > 0 && LessAt(a, ks, b, ls, n) ==> TieAt(a, ks, b, ls, 0);
          }
        } else {
          forall n: nat ensures LessAt(a, ks[1..], b, ls[1..], n) == LessAt(a, ks, b, ls, n + 1) {
            LessShifted(a, ks, b, ls, n);
          }
          hide LessAt;
          if n: nat :| LessAt(a, ks, b, ls, n) { LessLater(a, ks, b, ls, n); }
        }
      }
    }
  }

  lemma FirstStep(a: Json, ks: seq<Str>, b: Json, ls: seq<Str>)
    requires a.Obj? && b.Obj? && ks != [] && ls != []
    requires (forall k | k in ks :: k in a.members) && (forall l | l in ls :: l in b.members)
    requires !PairLess(ks[0], a.members[ks[0]], ls[0], b.members[ls[0]])
    ensures MembersLt(a, ks, b, ls) <==>
      !PairLess(ls[0], b.members[ls[0]], ks[0], a.members[ks[0]]) && MembersLt(a, ks[1..], b, ls[1..])
  {
    hide Lt;
    LexTrichotomy(ks[0], ls[0]);
    hide LexLt;
  }

  lemma LessLater(a: Json, ks: seq<Str>, b: Json, ls: seq<Str>, n: nat)
    requires a.Obj? && b.Obj? && ks != [] && ls != []
    requires (forall k | k in ks :: k in a.members) && (forall l | l in ls :: l in b.members)
    requires !PairLess(ks[0], a.members[ks[0]], ls[0], b.members[ls[0]]) && LessAt(a, ks, b, ls, n)
    ensures n > 0 && LessAt(a, ks[1..], b, ls[1..], n - 1)
  {
    hide PairLess;
    LessShifted(a, ks, b, ls, n - 1);
  }

  lemma LessShifted(a: Json, ks: seq<Str>, b: Json, ls: seq<Str>, n: nat)
    requires a.Obj? && b.Obj? && ks != [] && ls != []
    requires (forall k | k in ks :: k in a.members) && (forall l | l in ls :: l in b.members)
    requires TieAt(a, ks, b, ls, 0) || LessAt(a, ks, b, ls, n + 1)
    ensures LessAt(a, ks[1..], b, ls[1..], n) == LessAt(a, ks, b, ls, n + 1)
  {
    hide PairLess, PairTie;
    forall i | 0 <= i < |ks| - 1 && i < |ls| - 1
      ensures TieAt(a, ks[1..], b, ls[1..], i) == TieAt(a, ks, b, ls, i + 1)
    {
    }
    if LessAt(a, ks[1..], b, ls[1..], n) && TieAt(a, ks, b, ls, 0) {
      forall i | 0 <= i < n + 1 ensures TieAt(a, ks, b, ls, i) {
        if i > 0 { assert TieAt(a, ks[1..], b, ls[1..], i - 1); }
      }
    }
    if LessAt(a, ks, b, ls, n + 1) {
      forall i | 0 <= i < n ensures TieAt(a, ks[1..], b, ls[1..], i) {
        assert TieAt(a, ks, b, ls, i + 1);
      }
    }
  }
}
