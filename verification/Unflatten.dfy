/** unflatten: rebuilding a value from the pointers and values of its leaves. */
module Unflatten {
  import opened Bytes
  import opened Json
  import opened Pointer
  import opened Access
  import opened Flatten

  const FIRST: Str := [ZERO]  // the token "0"

  // ----- get_and_create -----

  /** The document after `v` was assigned to the place that get_and_create returns. */
  function Create(j: Json, tokens: seq<Str>, v: Json): Result<Json>
    decreases |tokens|
  {
    if tokens == [] then Ok(v) else
      var t, rest := tokens[0], tokens[1..];
      match j
      case Null => (
        match Create(Null, rest, v)
        case Ok(c) => Ok(if t == FIRST then Arr([c]) else Obj(map[t := c]))
        case Err(e) => Err(e))
      case Obj(m) => (
        match Create(if t in m then m[t] else Null, rest, v)
        case Ok(c) => Ok(Obj(m[t := c]))
        case Err(e) => Err(e))
      case Arr(xs) => (
        match Stoi(t)
        case Err(e) => Err(e)
        case Ok(i) =>
          if i < 0 then Err(OutOfMemory) else (
            match Create(Filled(xs, i)[i], rest, v)
            case Ok(c) => Ok(Arr(Filled(xs, i)[i := c]))
            case Err(e) => Err(e)))
      case _ => Err(DomainError)
  }

  function Insert(doc: Json, key: Str, v: Json): Result<Json> {
    if !v.Primitive() then Err(DomainError) else
      match Split(key)
      case Err(e) => Err(e)
      case Ok(tokens) => Create(doc, tokens, v)
  }

  /** The loop of unflatten over the remaining keys. */
  function InsertAll(doc: Json, m: map<Str, Json>, ks: seq<Str>): Result<Json>
    requires forall k | k in ks :: k in m
    decreases |ks|
  {
    if ks == [] then Ok(doc) else
      match Insert(doc, ks[0], m[ks[0]])
      case Err(e) => Err(e)
      case Ok(next) => InsertAll(next, m, ks[1..])
  }

  function Unflattened(value: Json): Result<Json> {
    if value.Obj? then InsertAll(Null, value.members, SortedKeys(value.members.Keys)) else Err(DomainError)
  }

  method UnflattenObject(value: Json) returns (r: Result<Json>)
    ensures r == Unflattened(value)
  {
    if !value.Obj? {
      return Err(DomainError);
    }
    var result := Null;
    var ks := SortedKeys(value.members.Keys);
    for n := 0 to |ks|
      invariant InsertAll(result, value.members, ks[n..]) == Unflattened(value)
    {
      assert ks[n..][0] == ks[n] && ks[n..][1..] == ks[n + 1..];
      if !value.members[ks[n]].Primitive() {
        return Err(DomainError);
      }
      match Split(ks[n]) {
        case Err(e) => return Err(e);
        case Ok(tokens) =>
          var next := Create(result, tokens, value.members[ks[n]]);
          if next.Err? {
            return next;
          }
          result := next.value;
      }
    }
    return Ok(result);
  }

  // ----- the document while it is being rebuilt -----

  /** The paths of `S` that start with `t`, without it. */
  ghost function Under(S: set<seq<Str>>, t: Str): set<seq<Str>> {
    set q | q in S && q != [] && q[0] == t :: q[1..]
  }

  /** One more than the largest index below n under which `S` has a path. */
  ghost function Extent(S: set<seq<Str>>, n: nat): (e: nat)
    ensures e <= n
    ensures forall i | e <= i < n :: Under(S, Dec(i)) == {}
    ensures e > 0 ==> Under(S, Dec(e - 1)) != {}
  {
    if n == 0 then 0 else if Under(S, Dec(n - 1)) != {} then n else Extent(S, n - 1)
  }

  /** `j` restricted to the leaves in `S`: what has not been reached yet is missing, or null inside an array. */
  ghost function Partial(j: Json, S: set<seq<Str>>): Json
    decreases j
  {
    if S == {} then Null
    else if j.Arr? then
      Arr(seq(Extent(S, |j.items|), i requires 0 <= i < Extent(S, |j.items|) => Partial(j.items[i], Under(S, Dec(i)))))
    else if j.Obj? then
      Obj(map k | k in j.members && Under(S, k) != {} :: Partial(j.members[k], Under(S, k)))
    else j
  }

  ghost predicate Leaves(j: Json, S: set<seq<Str>>) {
    forall q | q in S :: IsLeaf(j, q)
  }

  lemma UnderLaws(S: set<seq<Str>>, p: seq<Str>)
    requires p != []
    ensures Under(S + {p}, p[0]) == Under(S, p[0]) + {p[1..]}
    ensures forall t | t != p[0] :: Under(S + {p}, t) == Under(S, t)
  {
    forall q | q in Under(S, p[0]) + {p[1..]} ensures q in Under(S + {p}, p[0]) {
      if q == p[1..] {
        assert p in S + {p};
      } else {
        var r :| r in S && r != [] && r[0] == p[0] && q == r[1..];
        assert r in S + {p};
      }
    }
    forall t | t != p[0] ensures Under(S + {p}, t) == Under(S, t) {
      forall q | q in Under(S, t) ensures q in Under(S + {p}, t) {
        var r :| r in S && r != [] && r[0] == t && q == r[1..];
        assert r in S + {p};
      }
    }
  }

  lemma UnderLeaves(j: Json, S: set<seq<Str>>, t: Str)
    requires Leaves(j, S)
    ensures HasChild(j, t) ==> Leaves(ChildOf(j, t), Under(S, t))
    ensures !HasChild(j, t) ==> Under(S, t) == {}
  {
    forall q | q in Under(S, t) ensures HasChild(j, t) && IsLeaf(ChildOf(j, t), q) {
      var r :| r in S && r != [] && r[0] == t && q == r[1..];
      assert IsLeaf(j, r);
    }
  }
}
