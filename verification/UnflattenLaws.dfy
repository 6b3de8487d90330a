/** What unflatten builds from single entries, and what it refuses. */
module UnflattenLaws {
  import opened Bytes
  import opened Json
  import opened Pointer
  import opened Access
  import opened Unflatten
  import FlattenRoundTrip

  // ----- refusals -----

  /** Nothing but an object is unflattened. */
  lemma OnlyObjects(value: Json)
    ensures !value.Obj? ==> Unflattened(value) == Err(DomainError)
  {
  }

  lemma {:induction false} EntriesAreFine(doc: Json, m: map<Str, Json>, ks: seq<Str>)
    requires (forall k | k in ks :: k in m) && InsertAll(doc, m, ks).Ok?
    ensures forall k | k in ks :: m[k].Primitive() && Split(k).Ok?
    decreases |ks|
  {
    hide Split, Create;
    if ks != [] {
      EntriesAreFine(Insert(doc, ks[0], m[ks[0]]).value, m, ks[1..]);
      forall k | k in ks ensures m[k].Primitive() && Split(k).Ok? {
        if k != ks[0] { assert k in ks[1..]; }
      }
    }
  }

  /** One entry with an array or object as its value, or with a malformed pointer as its key, is enough. */
  lemma BadEntryIsRefused(m: map<Str, Json>, k: Str)
    requires k in m && (!m[k].Primitive() || Split(k).Err?)
    ensures Unflattened(Obj(m)).Err?
  {
    hide Split, InsertAll, SortedKeys, Ascending;
    var ks := SortedKeys(m.Keys);
    assert k in ks;
    if InsertAll(Null, m, ks).Ok? { EntriesAreFine(Null, m, ks); }
  }

  lemma {:induction false} FirstBadEntry(doc: Json, m: map<Str, Json>, ks: seq<Str>, n: nat)
    requires (forall k | k in ks :: k in m) && n < |ks|
    requires InsertAll(doc, m, ks[..n]).Ok? && !m[ks[n]].Primitive()
    ensures InsertAll(doc, m, ks) == Err(DomainError)
    decreases n
  {
    hide Split, Create;
    if n > 0 {
      assert ks[..n][1..] == ks[1..][..n - 1] && ks[1..][n - 1] == ks[n];
      FirstBadEntry(Insert(doc, ks[0], m[ks[0]]).value, m, ks[1..], n - 1);
    }
  }

  /** The exception is the domain error of the entry, unless an entry before it in key order throws first. */
  lemma ContainerIsDomainError(m: map<Str, Json>, n: nat)
    requires n < |SortedKeys(m.Keys)|
    requires InsertAll(Null, m, SortedKeys(m.Keys)[..n]).Ok?
    requires SortedKeys(m.Keys)[n] in m && !m[SortedKeys(m.Keys)[n]].Primitive()
    ensures Unflattened(Obj(m)) == Err(DomainError)
  {
    hide InsertAll, SortedKeys, Ascending;
    FirstBadEntry(Null, m, SortedKeys(m.Keys), n);
  }

  // ----- single entries -----

  /** Arrays and objects with one element each, an array for the token "0". */
  function Chain(tokens: seq<Str>, v: Json): Json
    decreases |tokens|
  {
    if tokens == [] then v
    else if tokens[0] == [0x30] then Arr([Chain(tokens[1..], v)])
    else Obj(map[tokens[0] := Chain(tokens[1..], v)])
  }

  lemma {:induction false} CreateFromNothing(tokens: seq<Str>, v: Json)
    ensures Create(Null, tokens, v) == Ok(Chain(tokens, v))
    decreases |tokens|
  {
    if tokens != [] { CreateFromNothing(tokens[1..], v); }
  }

  lemma SingleEntry(tokens: seq<Str>, v: Json)
    requires v.Primitive()
    ensures Unflattened(Obj(map[ToString(tokens) := v])) == Ok(Chain(tokens, v))
  {
    hide ToString, Create;
    var key := ToString(tokens);
    var m := map[key := v];
    assert m.Keys == {key};
    FlattenRoundTrip.SingleKey(key);
    SplitToString(tokens);
    CreateFromNothing(tokens, v);
    assert [key][1..] == [];
    hide Split;
    assert InsertAll(Null, m, [key]) == Insert(Null, key, v);
  }

  // ----- one assignment -----

  predicate SuperfluousZero(token: Str) {
    |token| > 1 && token[0] == 0x30
  }

  /** A value that was assigned is found at its pointer, unless an index on the way was written with a
      superfluous zero, which unflatten takes and at() refuses. */
  lemma {:induction false} AssignedIsFound(j: Json, tokens: seq<Str>, v: Json)
    requires Create(j, tokens, v).Ok?
    requires forall t | t in tokens :: !SuperfluousZero(t)
    ensures At(Create(j, tokens, v).value, tokens) == Ok(v)
    decreases |tokens|
  {
    hide Stoi;
    if tokens != [] {
      var t, rest := tokens[0], tokens[1..];
      assert t in tokens;
      match j {
        case Null =>
          AssignedIsFound(Null, rest, v);
          ZeroIsRead();
        case Obj(m) => AssignedIsFound(if t in m then m[t] else Null, rest, v);
        case Arr(xs) =>
          DashIsNotRead();
          AssignedIsFound(Filled(xs, Stoi(t).value)[Stoi(t).value], rest, v);
        case _ =>
      }
    }
  }

  lemma ZeroIsRead()
    ensures Stoi(FIRST) == Ok(0)
  {
    StoiOfDec(0);
  }

  lemma DashIsNotRead()
    ensures Stoi(DASH).Err?
  {
  }

  /** Below a value that is neither null nor a container nothing can be assigned. */
  lemma NothingBelowLeaves(j: Json, tokens: seq<Str>, v: Json)
    requires j.Primitive() && !j.Null? && tokens != []
    ensures Create(j, tokens, v) == Err(DomainError)
  {
  }
}
