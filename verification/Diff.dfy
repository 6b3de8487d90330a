/** diff: the patch that turns one value into another. */
module Diff {
  import opened Bytes
  import opened Json
  import opened Pointer
  import opened Patch

  predicate SameType(s: Json, t: Json) {
    match s
    case Null => t.Null?
    case Bool(_) => t.Bool?
    case Int(_) => t.Int?
    case UInt(_) => t.UInt?
    case Float(_) => t.Float?
    case Text(_) => t.Text?
    case Arr(_) => t.Arr?
    case Obj(_) => t.Obj?
  }

  // ----- the operations, with paths relative to the compared value -----

  function Operations(s: Json, t: Json): seq<Operation>
    decreases s, 1, 0
  {
    if Eq(s, t) then []
    else if s.Arr? && t.Arr? then
      var n := if |s.items| < |t.items| then |s.items| else |t.items|;
      ItemOperations(s, t, n) + Removals(n, |s.items|) + Additions(t.items, n)
    else if s.Obj? && t.Obj? then
      var ks := SortedKeys(s.members.Keys);
      MemberOperations(s, t, ks) + NewMembers(s, t, SortedKeys(t.members.Keys))
    else [Replace([], t)]
  }

  /** First pass over two arrays: the first n items against each other. */
  function ItemOperations(s: Json, t: Json, n: nat): seq<Operation>
    requires s.Arr? && t.Arr? && n <= |s.items| && n <= |t.items|
    decreases s, 0, n
  {
    if n == 0 then [] else
      ItemOperations(s, t, n - 1) + AllBelow([Dec(n - 1)], Operations(s.items[n - 1], t.items[n - 1]))
  }

  /** Surplus items, the last one first. */
  function Removals(lo: nat, hi: nat): seq<Operation> {
    if hi <= lo then [] else [Remove([Dec(hi - 1)])] + Removals(lo, hi - 1)
  }

  /** Missing items from position n on, each added at the end. */
  function Additions(ys: seq<Json>, n: nat): seq<Operation>
    decreases |ys| - n
  {
    if n >= |ys| then [] else [Add([Dec(n)], ys[n])] + Additions(ys, n + 1)
  }

  /** First pass over two objects: the given members of the source. */
  function MemberOperations(s: Json, t: Json, ks: seq<Str>): seq<Operation>
    requires s.Obj? && t.Obj? && forall k | k in ks :: k in s.members
    decreases s, 0, |ks|
  {
    if ks == [] then [] else
      var k := ks[|ks| - 1];
      MemberOperations(s, t, ks[..|ks| - 1]) +
      (if k in t.members then AllBelow([k], Operations(s.members[k], t.members[k])) else [Remove([k])])
  }

  /** Second pass: those of the given target members that the source lacks. */
  function NewMembers(s: Json, t: Json, ls: seq<Str>): seq<Operation>
    requires s.Obj? && t.Obj? && forall l | l in ls :: l in t.members
    decreases |ls|
  {
    if ls == [] then [] else
      var l := ls[|ls| - 1];
      NewMembers(s, t, ls[..|ls| - 1]) + (if l in s.members then [] else [Add([l], t.members[l])])
  }

  // ----- the patch document -----

  function Entry(name: Str, path: Str): map<Str, Json> {
    map[KEY_OP := Text(name), KEY_PATH := Text(path)]
  }

  /** The JSON object that stands for an operation; diff writes the first three kinds. */
  function Document(op: Operation): Json {
    match op
    case Add(path, val) => Obj(Entry(OP_ADD, ToString(path))[KEY_VALUE := val])
    case Remove(path) => Obj(Entry(OP_REMOVE, ToString(path)))
    case Replace(path, val) => Obj(Entry(OP_REPLACE, ToString(path))[KEY_VALUE := val])
    case Move(path, from) => Obj(Entry(OP_MOVE, ToString(path))[KEY_FROM := Text(ToString(from))])
    case Copy(path, from) => Obj(Entry(OP_COPY, ToString(path))[KEY_FROM := Text(ToString(from))])
    case Test(path, val) => Obj(Entry(OP_TEST, ToString(path))[KEY_VALUE := val])
  }

  function Documents(ops: seq<Operation>): (r: seq<Json>)
    ensures |r| == |ops| && forall i | 0 <= i < |ops| :: r[i] == Document(ops[i])
  {
    seq(|ops|, i requires 0 <= i < |ops| => Document(ops[i]))
  }

  lemma NamesDiffer()
    ensures KEY_OP != KEY_PATH && KEY_OP != KEY_VALUE && KEY_OP != KEY_FROM
    ensures KEY_PATH != KEY_VALUE && KEY_PATH != KEY_FROM
    ensures OP_REMOVE != OP_MOVE && OP_REMOVE != OP_COPY && OP_MOVE != OP_COPY
    ensures OP_ADD !in [OP_REMOVE, OP_MOVE, OP_COPY] && OP_REPLACE !in [OP_REMOVE, OP_MOVE, OP_COPY, OP_ADD]
    ensures OP_TEST !in [OP_REMOVE, OP_MOVE, OP_COPY, OP_ADD, OP_REPLACE]
  {
    assert |KEY_OP| == 2 && |KEY_VALUE| == 5 && KEY_PATH[0] == 0x70 && KEY_FROM[0] == 0x66;
    assert |OP_ADD| == 3 && |OP_REMOVE| == 6 && |OP_REPLACE| == 7;
    assert OP_MOVE[0] == 0x6D && OP_COPY[0] == 0x63 && OP_TEST[0] == 0x74;
  }

  lemma ReadEntry(val: Json, name: Str, path: seq<Str>)
    requires val.Obj? && KEY_OP in val.members && val.members[KEY_OP] == Text(name)
    requires KEY_PATH in val.members && val.members[KEY_PATH] == Text(ToString(path))
    ensures ReadOperation(val) == ReadArguments(val, name, path)
  {
    hide ReadArguments, Split;
    SplitToString(path);
  }

  /** Every operation is read back from its document as it was: names, paths and arguments. */
  lemma ReadDocument(op: Operation)
    ensures ReadOperation(Document(op)) == Ok(op)
  {
    hide ReadOperation, Split, ToString;
    hide KEY_OP, KEY_PATH, KEY_VALUE, KEY_FROM, OP_ADD, OP_REMOVE, OP_REPLACE, OP_MOVE, OP_COPY, OP_TEST;
    NamesDiffer();
    match op {
      case Add(path, _) => ReadEntry(Document(op), OP_ADD, path);
      case Remove(path) => ReadEntry(Document(op), OP_REMOVE, path);
      case Replace(path, _) => ReadEntry(Document(op), OP_REPLACE, path);
      case Move(path, from) => ReadEntry(Document(op), OP_MOVE, path); SplitToString(from);
      case Copy(path, from) => ReadEntry(Document(op), OP_COPY, path); SplitToString(from);
      case Test(path, _) => ReadEntry(Document(op), OP_TEST, path);
    }
  }

  lemma {:induction false} StepsOfDocuments(doc: Json, ops: seq<Operation>)
    ensures Steps(doc, Documents(ops)) == ApplyAll(doc, ops)
    decreases |ops|
  {
    if ops != [] {
      ReadDocument(ops[0]);
      assert Documents(ops)[1..] == Documents(ops[1..]);
      var next := Apply(doc, ops[0]);
      if next.Ok? { StepsOfDocuments(next.value, ops[1..]); }
    }
  }

  // ----- diff itself -----

  lemma AllBelowTwice(p: seq<Str>, q: seq<Str>, ops: seq<Operation>)
    ensures AllBelow(p, AllBelow(q, ops)) == AllBelow(p + q, ops)
  {
    forall i | 0 <= i < |ops| ensures Below(p, Below(q, ops[i])) == Below(p + q, ops[i]) {
      BelowTwice(p, q, ops[i]);
    }
  }

  lemma BelowTwice(p: seq<Str>, q: seq<Str>, op: Operation)
    ensures Below(p, Below(q, op)) == Below(p + q, op)
  {
    assert p + (q + op.path) == p + q + op.path;
    if op.Move? || op.Copy? { assert p + (q + op.from) == p + q + op.from; }
  }

  /** What diff puts on its output for operations below the token list `p`. */
  ghost function Output(p: seq<Str>, ops: seq<Operation>): seq<Json> {
    Documents(AllBelow(p, ops))
  }

  lemma OutputConcat(p: seq<Str>, a: seq<Operation>, b: seq<Operation>)
    ensures Output(p, a + b) == Output(p, a) + Output(p, b)
  {
  }

  lemma OutputBelow(p: seq<Str>, token: Str, ops: seq<Operation>)
    ensures Output(p, AllBelow([token], ops)) == Output(p + [token], ops)
  {
    AllBelowTwice(p, [token], ops);
  }

  /** The documents for an operation on a direct child, with the path as diff spells it. */
  lemma OutputOfChild(path: Str, p: seq<Str>, token: Str, val: Json)
    requires path == ToString(p)
    ensures ToString(p + [token]) == path + ([SLASH] + Escape(token))
    ensures Output(p, [Remove([token])]) == [Obj(Entry(OP_REMOVE, path + ([SLASH] + Escape(token))))]
    ensures Output(p, [Add([token], val)]) ==
            [Obj(Entry(OP_ADD, path + ([SLASH] + Escape(token)))[KEY_VALUE := val])]
  {
    hide Escape, ToString;
    ToStringAppend(p, token);
  }

  /** `p` is the token list behind the text `path`. */
  method DiffValues(source: Json, target: Json, path: Str, ghost p: seq<Str>) returns (patch: Json)
    requires path == ToString(p)
    ensures patch == Arr(Output(p, Operations(source, target)))
    decreases source, 1
  {
    hide Eq, Operations, ItemOperations, Removals, Additions, MemberOperations, NewMembers, Output, Escape, ToString,
         SortedKeys, Ascending;
    OutputOfPair(source, target, path, p);
    if Eq(source, target) {
      return Arr([]);
    }
    if SameType(source, target) && source.Arr? {
      var result := DiffItems(source, target, path, p);
      var n := if |source.items| < |target.items| then |source.items| else |target.items|;
      result := RemoveItems(result, n, |source.items|, path, p);
      result := AddItems(result, target.items, n, path, p);
      return Arr(result);
    }
    if SameType(source, target) && source.Obj? {
      var result := DiffMembers(source, target, SortedKeys(source.members.Keys), path, p);
      result := AddMembers(result, source, target, SortedKeys(target.members.Keys), path, p);
      return Arr(result);
    }
    return Arr([Obj(Entry(OP_REPLACE, path)[KEY_VALUE := target])]);
  }

  /** The output for two values, from that of the passes. */
  lemma OutputOfPair(source: Json, target: Json, path: Str, p: seq<Str>)
    requires path == ToString(p)
    ensures var ops := Operations(source, target);
      if Eq(source, target) then Output(p, ops) == []
      else if SameType(source, target) && source.Arr? then
        var n := if |source.items| < |target.items| then |source.items| else |target.items|;
        Output(p, ops) == Output(p, ItemOperations(source, target, n)) + Output(p, Removals(n, |source.items|))
                          + Output(p, Additions(target.items, n))
      else if SameType(source, target) && source.Obj? then
        Output(p, ops) == Output(p, MemberOperations(source, target, SortedKeys(source.members.Keys)))
                          + Output(p, NewMembers(source, target, SortedKeys(target.members.Keys)))
      else Output(p, ops) == [Obj(Entry(OP_REPLACE, path)[KEY_VALUE := target])]
  {
    hide Eq, ItemOperations, Removals, Additions, MemberOperations, NewMembers, ToString, SortedKeys, Ascending, Entry;
    if !Eq(source, target) && source.Arr? && target.Arr? {
      hide Output;
      var n := if |source.items| < |target.items| then |source.items| else |target.items|;
      OutputConcat(p, ItemOperations(source, target, n), Removals(n, |source.items|));
      OutputConcat(p, ItemOperations(source, target, n) + Removals(n, |source.items|), Additions(target.items, n));
    } else if !Eq(source, target) && source.Obj? && target.Obj? {
      hide Output;
      OutputConcat(p, MemberOperations(source, target, SortedKeys(source.members.Keys)),
                   NewMembers(source, target, SortedKeys(target.members.Keys)));
    } else {
      assert p + [] == p;
    }
  }

  /** First pass over two arrays. */
  method DiffItems(source: Json, target: Json, path: Str, ghost p: seq<Str>) returns (result: seq<Json>)
    requires path == ToString(p) && source.Arr? && target.Arr?
    ensures result == Output(p, ItemOperations(source, target,
                      if |source.items| < |target.items| then |source.items| else |target.items|))
    decreases source, 0
  {
    result := [];
    var i := 0;
    while i < |source.items| && i < |target.items|
      invariant i <= |source.items| && i <= |target.items|
      invariant result == Output(p, ItemOperations(source, target, i))
    {
      hide Output, Escape, Operations;
      OutputOfChild(path, p, Dec(i), Null);
      EscapeDec(i);
      var temp := DiffValues(source.items[i], target.items[i], path + ([SLASH] + Dec(i)), p + [Dec(i)]);
      var ops := Operations(source.items[i], target.items[i]);
      OutputBelow(p, Dec(i), ops);
      OutputConcat(p, ItemOperations(source, target, i), AllBelow([Dec(i)], ops));
      result := result + temp.items;
      i := i + 1;
    }
  }

  /** Surplus items: every operation is inserted at the same place, so the last index comes first. */
  method RemoveItems(first: seq<Json>, n: nat, size: nat, path: Str, ghost p: seq<Str>) returns (result: seq<Json>)
    requires path == ToString(p) && n <= size
    ensures result == first + Output(p, Removals(n, size))
  {
    result := first;
    var end := |result|;
    var i := n;
    while i < size
      invariant n <= i <= size
      invariant result == first + Output(p, Removals(n, i))
    {
      OneMoreRemoval(path, p, n, i);
      hide Output, Removals, Entry;
      assert result[..end] == first && result[end..] == Output(p, Removals(n, i));
      result := result[..end] + [Obj(Entry(OP_REMOVE, path + ([SLASH] + Dec(i))))] + result[end..];
      i := i + 1;
    }
  }

  lemma OneMoreRemoval(path: Str, p: seq<Str>, n: nat, i: nat)
    requires path == ToString(p) && n <= i
    ensures Output(p, Removals(n, i + 1)) ==
            [Obj(Entry(OP_REMOVE, path + ([SLASH] + Dec(i))))] + Output(p, Removals(n, i))
  {
    hide Output, Entry, Escape;
    OutputOfChild(path, p, Dec(i), Null);
    EscapeDec(i);
    OutputConcat(p, [Remove([Dec(i)])], Removals(n, i));
  }

  method AddItems(first: seq<Json>, ys: seq<Json>, n: nat, path: Str, ghost p: seq<Str>) returns (result: seq<Json>)
    requires path == ToString(p) && n <= |ys|
    ensures result == first + Output(p, Additions(ys, n))
  {
    result := first;
    var i := n;
    while i < |ys|
      invariant n <= i <= |ys|
      invariant result + Output(p, Additions(ys, i)) == first + Output(p, Additions(ys, n))
    {
      OutputOfChild(path, p, Dec(i), ys[i]);
      EscapeDec(i);
      OutputConcat(p, [Add([Dec(i)], ys[i])], Additions(ys, i + 1));
      result := result + [Obj(Entry(OP_ADD, path + ([SLASH] + Dec(i)))[KEY_VALUE := ys[i]])];
      i := i + 1;
    }
    assert Output(p, Additions(ys, i)) == [];
  }

  /** First pass over two objects. */
  method DiffMembers(source: Json, target: Json, ks: seq<Str>, path: Str, ghost p: seq<Str>) returns (result: seq<Json>)
    requires path == ToString(p) && source.Obj? && target.Obj? && forall k | k in ks :: k in source.members
    ensures result == Output(p, MemberOperations(source, target, ks))
    decreases source, 0
  {
    result := [];
    for n := 0 to |ks|
      invariant result == Output(p, MemberOperations(source, target, ks[..n]))
    {
      hide Output, Escape, Operations;
      var k := ks[n];
      var key := EscapeToken(k);
      OutputOfChild(path, p, k, Null);
      assert ks[..n + 1][..n] == ks[..n] && ks[..n + 1][n] == k;
      if k in target.members {
        var temp := DiffValues(source.members[k], target.members[k], path + ([SLASH] + key), p + [k]);
        var ops := Operations(source.members[k], target.members[k]);
        OutputBelow(p, k, ops);
        OutputConcat(p, MemberOperations(source, target, ks[..n]), AllBelow([k], ops));
        result := result + temp.items;
      } else {
        OutputConcat(p, MemberOperations(source, target, ks[..n]), [Remove([k])]);
        result := result + [Obj(Entry(OP_REMOVE, path + ([SLASH] + key)))];
      }
    }
    assert ks[..|ks|] == ks;
  }

  /** Second pass over two objects. */
  method AddMembers(first: seq<Json>, source: Json, target: Json, ls: seq<Str>, path: Str, ghost p: seq<Str>)
    returns (result: seq<Json>)
    requires path == ToString(p) && source.Obj? && target.Obj? && forall l | l in ls :: l in target.members
    ensures result == first + Output(p, NewMembers(source, target, ls))
  {
    result := first;
    for n := 0 to |ls|
      invariant result == first + Output(p, NewMembers(source, target, ls[..n]))
    {
      hide Escape;
      var l := ls[n];
      assert ls[..n + 1][..n] == ls[..n] && ls[..n + 1][n] == l;
      if l !in source.members {
        var key := EscapeToken(l);
        OutputOfChild(path, p, l, target.members[l]);
        OutputConcat(p, NewMembers(source, target, ls[..n]), [Add([l], target.members[l])]);
        result := result + [Obj(Entry(OP_ADD, path + ([SLASH] + key))[KEY_VALUE := target.members[l]])];
      } else {
        assert NewMembers(source, target, ls[..n]) + [] == NewMembers(source, target, ls[..n]);
      }
    }
    assert ls[..|ls|] == ls;
  }
}
