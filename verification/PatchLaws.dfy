/** What the operations of a patch mean for each other (RFC 6902, section 4). */
module PatchLaws {
  import opened Bytes
  import opened Json
  import opened Access
  import opened Pointer
  import opened Patch
  import D = Diff
  import Names

  /** The path without its last token. */
  function Parent(path: seq<Str>): seq<Str>
    requires path != []
  {
    path[..|path| - 1]
  }

  function Last(path: seq<Str>): Str
    requires path != []
  {
    path[|path| - 1]
  }

  lemma ParentAndLast(path: seq<Str>)
    requires path != []
    ensures path == Parent(path) + [Last(path)]
  {
  }

  lemma AtConcat(j: Json, p: seq<Str>, q: seq<Str>)
    ensures At(j, p + q) == if At(j, p).Ok? then At(At(j, p).value, q) else At(j, p)
    decreases |p|
  {
    if p == [] {
      assert p + q == q;
    } else {
      assert (p + q)[0] == p[0] && (p + q)[1..] == p[1..] + q;
      if CheckedSlot(j, p[0]).Ok? { AtConcat(Child(j, CheckedSlot(j, p[0]).value), p[1..], q); }
    }
  }

  lemma AtChild(doc: Json, path: seq<Str>)
    requires path != [] && At(doc, Parent(path)).Ok?
    ensures At(doc, path) == At(At(doc, Parent(path)).value, [Last(path)])
  {
    ParentAndLast(path);
    AtConcat(doc, Parent(path), [Last(path)]);
  }

  // ----- what one operation does to the document -----

  /** A place that an addition creates: a new key of an object, or a position of an array up to its end. */
  predicate Insertable(parent: Json, last: Str) {
    match parent
    case Obj(m) => last !in m
    case Arr(xs) => last != DASH && IndexToken(last).Ok? && 0 <= IndexToken(last).value <= |xs|
    case _ => false
  }

  /** An addition below an existing parent changes the parent only. */
  lemma AddPuts(doc: Json, path: seq<Str>, v: Json)
    requires path != [] && At(doc, Parent(path)).Ok?
    ensures ApplyAdd(doc, path, v) == PutInto(doc, Parent(path), AddChild(At(doc, Parent(path)).value, Last(path), v))
  {
    hide ModifyCreated, AddChild;
    var p := Parent(path);
    ModifyBelow(doc, p, [], Adding(Last(path), v));
    assert p + [] == p;
    if p != [] {
      AtConcat(doc, path[..1], p[1..]);
      assert path[..1] + p[1..] == p;
    }
    assert ModifyCreated(At(doc, p).value, [], Adding(Last(path), v)) == AddChild(At(doc, p).value, Last(path), v) by {
      NothingCreated(At(doc, p).value, Adding(Last(path), v));
    }
  }

  lemma NothingCreated(j: Json, f: Json -> Result<Json>)
    ensures ModifyCreated(j, [], f) == f(j) && ModifyChecked(j, [], f) == f(j)
  {
  }

  lemma RemovePuts(doc: Json, path: seq<Str>)
    requires path != [] && At(doc, Parent(path)).Ok?
    ensures ApplyRemove(doc, path) == PutInto(doc, Parent(path), RemoveChild(At(doc, Parent(path)).value, Last(path)))
  {
    hide ModifyChecked, RemoveChild;
    var p := Parent(path);
    ModifyBelow(doc, p, [], Removing(Last(path)));
    assert p + [] == p;
    NothingCreated(At(doc, p).value, Removing(Last(path)));
  }

  /** What an insertion does to the parent, seen from outside: the new child is there, and every other one is
      where it was, or one further. */
  lemma AddedChild(parent: Json, last: Str, v: Json)
    requires Insertable(parent, last)
    ensures AddChild(parent, last, v).Ok?
    ensures var r := AddChild(parent, last, v).value;
      && At(r, [last]) == Ok(v)
      && RemoveChild(r, last) == Ok(parent)
  {
    match parent {
      case Obj(m) =>
        assert m[last := v] - {last} == m;
        assert At(Obj(m[last := v]), [last]) == At(v, []);
      case Arr(xs) =>
        var i := IndexToken(last).value;
        var ys := xs[..i] + [v] + xs[i..];
        assert ys[..i] + ys[i + 1..] == xs;
        assert ys[i] == v;
        assert At(Arr(ys), [last]) == At(v, []);
      case _ =>
    }
  }

  /** A child that is removed can be put back where it was. */
  lemma RemovedChild(parent: Json, last: Str)
    requires At(parent, [last]).Ok?
    ensures RemoveChild(parent, last).Ok?
    ensures var r := RemoveChild(parent, last).value;
      Insertable(r, last) && AddChild(r, last, At(parent, [last]).value) == Ok(parent)
  {
    var slot := CheckedSlot(parent, last).value;
    var v := Child(parent, slot);
    assert At(parent, [last]) == At(v, []) == Ok(v);
    match parent {
      case Obj(m) =>
        assert (m - {last})[last := v] == m;
      case Arr(xs) =>
        var i := slot.index;
        var ys := xs[..i] + xs[i + 1..];
        assert ys[..i] + [v] + ys[i..] == xs;
      case _ =>
    }
  }

  // ----- the laws -----

  ghost predicate CanInsert(doc: Json, path: seq<Str>) {
    path != [] && At(doc, Parent(path)).Ok? && Insertable(At(doc, Parent(path)).value, Last(path))
  }

  /** Adding at a new place brings the value there, and removing it again restores the document. */
  lemma RemoveUndoesAdd(doc: Json, path: seq<Str>, v: Json)
    requires CanInsert(doc, path)
    ensures ApplyAdd(doc, path, v).Ok?
    ensures var r := ApplyAdd(doc, path, v).value;
      At(r, path) == Ok(v) && ApplyRemove(r, path) == Ok(doc)
  {
    hide ApplyAdd, ApplyRemove, AddChild, RemoveChild, Insertable, Put, At, Parent, Last;
    var p := Parent(path);
    var parent := At(doc, p).value;
    AddPuts(doc, path, v);
    AddedChild(parent, Last(path), v);
    var next := AddChild(parent, Last(path), v).value;
    PutLaws(doc, p, next, parent);
    PutLaws(doc, p, parent, parent);
    AtChild(Put(doc, p, next), path);
    RemovePuts(Put(doc, p, next), path);
  }

  /** What exists can be removed, and adding it back at its place restores the document. */
  lemma AddUndoesRemove(doc: Json, path: seq<Str>)
    requires path != [] && At(doc, path).Ok?
    ensures ApplyRemove(doc, path).Ok?
    ensures var r := ApplyRemove(doc, path).value;
      CanInsert(r, path) && ApplyAdd(r, path, At(doc, path).value) == Ok(doc)
  {
    var p := Parent(path);
    ParentAndLast(path);
    AtConcat(doc, p, [Last(path)]);
    hide ApplyAdd, ApplyRemove, AddChild, RemoveChild, Insertable, Put, At, Parent, Last;
    var parent := At(doc, p).value;
    RemovePuts(doc, path);
    RemovedChild(parent, Last(path));
    var next := RemoveChild(parent, Last(path)).value;
    PutLaws(doc, p, next, parent);
    PutLaws(doc, p, parent, parent);
    AddPuts(Put(doc, p, next), path, At(doc, path).value);
  }

  /** Moving a value to a new place and back restores the document. */
  lemma MoveBack(doc: Json, from: seq<Str>, path: seq<Str>)
    requires from != [] && At(doc, from).Ok?
    requires ApplyRemove(doc, from).Ok? ==> CanInsert(ApplyRemove(doc, from).value, path)
    ensures Apply(doc, Move(path, from)).Ok?
    ensures var r := Apply(doc, Move(path, from)).value;
      At(r, path) == At(doc, from) && Apply(r, Move(from, path)) == Ok(doc)
  {
    hide ApplyAdd, ApplyRemove, CanInsert, At;
    AddUndoesRemove(doc, from);
    RemoveUndoesAdd(ApplyRemove(doc, from).value, path, At(doc, from).value);
  }

  /** The target of a replacement must exist; nothing else is changed, and the old value can be put back. */
  lemma ReplaceLaws(doc: Json, path: seq<Str>, v: Json)
    ensures Apply(doc, Replace(path, v)).Ok? <==> At(doc, path).Ok?
    ensures At(doc, path).Ok? ==>
      var r := Apply(doc, Replace(path, v)).value;
      && r == Put(doc, path, v) && At(r, path) == Ok(v)
      && Apply(r, Replace(path, At(doc, path).value)) == Ok(doc)
  {
    ReplaceIsPut(doc, path, v);
    if At(doc, path).Ok? {
      hide ModifyChecked, At, Put;
      var before := At(doc, path).value;
      PutLaws(doc, path, v, before);
      ReplaceIsPut(Put(doc, path, v), path, before);
    }
  }

  lemma {:induction false} ReplaceIsPut(doc: Json, path: seq<Str>, v: Json)
    ensures ModifyChecked(doc, path, Setting(v)) ==
            if At(doc, path).Ok? then Ok(Put(doc, path, v)) else Err(At(doc, path).error)
    decreases |path|
  {
    if path != [] && CheckedSlot(doc, path[0]).Ok? {
      ReplaceIsPut(Child(doc, CheckedSlot(doc, path[0]).value), path[1..], v);
    }
  }

  /** The walk comes to an array with a token that is neither "-" nor starts like a number. */
  ghost predicate Unreadable(doc: Json, path: seq<Str>) {
    exists n :: 0 <= n < |path| && UnreadableAt(doc, path, n)
  }

  ghost predicate UnreadableAt(doc: Json, path: seq<Str>, n: nat)
    requires n < |path|
  {
    && At(doc, path[..n]).Ok? && At(doc, path[..n]).value.Arr?
    && path[n] != DASH && IndexToken(path[n]) == Err(InvalidArgument)
  }

  /** The walk comes to an array with a token of several characters that starts with a zero. */
  ghost predicate ZeroFirst(doc: Json, path: seq<Str>) {
    exists n :: 0 <= n < |path| && ZeroFirstAt(doc, path, n)
  }

  ghost predicate ZeroFirstAt(doc: Json, path: seq<Str>, n: nat)
    requires n < |path|
  {
    At(doc, path[..n]).Ok? && At(doc, path[..n]).value.Arr? && |path[n]| > 1 && path[n][0] == 0x30
  }

  /** A place that does not exist is reported by invalid_argument if an index on the way cannot be read, by
      domain_error if one has a superfluous zero, and by out_of_range in every other case. */
  lemma {:induction false} AtError(doc: Json, path: seq<Str>)
    ensures At(doc, path).Err? ==> At(doc, path).error in {InvalidArgument, OutOfRange, DomainError}
    ensures At(doc, path) == Err(InvalidArgument) <==> Unreadable(doc, path)
    ensures At(doc, path) == Err(DomainError) <==> ZeroFirst(doc, path)
    decreases |path|
  {
    if path != [] {
      assert path[..0] == [];
      var slot := CheckedSlot(doc, path[0]);
      if slot.Ok? {
        var c, tail := Child(doc, slot.value), path[1..];
        AtError(c, tail);
        forall n | 0 <= n < |tail|
          ensures UnreadableAt(doc, path, n + 1) == UnreadableAt(c, tail, n)
          ensures ZeroFirstAt(doc, path, n + 1) == ZeroFirstAt(c, tail, n)
        {
          assert path[..n + 1][0] == path[0] && path[..n + 1][1..] == tail[..n];
        }
        assert !UnreadableAt(doc, path, 0) && !ZeroFirstAt(doc, path, 0);
        hide UnreadableAt, ZeroFirstAt;
        if n :| 0 <= n < |path| && ZeroFirstAt(doc, path, n) {
          assert ZeroFirstAt(c, tail, n - 1);
        }
        if n :| 0 <= n < |tail| && ZeroFirstAt(c, tail, n) {
          assert ZeroFirstAt(doc, path, n + 1);
        }
        if n :| 0 <= n < |path| && UnreadableAt(doc, path, n) {
          assert UnreadableAt(c, tail, n - 1);
        }
        if n :| 0 <= n < |tail| && UnreadableAt(c, tail, n) {
          assert UnreadableAt(doc, path, n + 1);
        }
      } else {
        if slot == Err(InvalidArgument) { assert UnreadableAt(doc, path, 0); }
        if slot == Err(DomainError) { assert ZeroFirstAt(doc, path, 0); }
        forall n | 0 < n < |path| ensures !UnreadableAt(doc, path, n) && !ZeroFirstAt(doc, path, n) {
          assert path[..n][0] == path[0];
        }
      }
    }
  }

  /** How a test ends: it succeeds exactly if the place exists and holds an equal value, and then changes
      nothing; otherwise it ends in domain_error, except that a token that cannot be read as an index ends
      in invalid_argument. */
  lemma TestLaws(doc: Json, path: seq<Str>, v: Json)
    ensures Apply(doc, Test(path, v)).Ok? <==> At(doc, path).Ok? && Eq(At(doc, path).value, v)
    ensures Apply(doc, Test(path, v)).Ok? ==> Apply(doc, Test(path, v)).value == doc
    ensures Apply(doc, Test(path, v)).Err? ==>
              Apply(doc, Test(path, v)).error == if Unreadable(doc, path) then InvalidArgument else DomainError
  {
    hide At, Eq, Unreadable;
    AtError(doc, path);
  }

  /** A test sees what the operation before it wrote: a replacement or an insertion followed by a test of the
      same place goes through exactly if the value written equals the value tested. */
  lemma TestSeesWrites(doc: Json, path: seq<Str>, v: Json, w: Json)
    ensures At(doc, path).Ok? ==>
              ApplyAll(doc, [Replace(path, v), Test(path, w)]) ==
                if Eq(v, w) then Ok(Put(doc, path, v)) else Err(DomainError)
    ensures CanInsert(doc, path) ==>
              ApplyAll(doc, [Add(path, v), Test(path, w)]) ==
                if Eq(v, w) then ApplyAdd(doc, path, v) else Err(DomainError)
  {
    hide At, Eq, Put, ApplyAdd, ApplyRemove, CanInsert;
    if At(doc, path).Ok? {
      ReplaceLaws(doc, path, v);
      Twice(doc, Replace(path, v), Test(path, w));
    }
    if CanInsert(doc, path) {
      RemoveUndoesAdd(doc, path, v);
      Twice(doc, Add(path, v), Test(path, w));
    }
  }

  lemma Twice(doc: Json, a: Operation, b: Operation)
    requires Apply(doc, a).Ok?
    ensures ApplyAll(doc, [a, b]) == Apply(Apply(doc, a).value, b)
  {
    hide Apply;
    var next := Apply(doc, a).value;
    assert [a, b][1..] == [b] && [b][1..] == [];
    assert ApplyAll(next, [b]) == Apply(next, b);
  }

  // ----- every kind of addition -----

  /** What an addition makes of its parent: a member is set, whether it was there or not; null becomes an
      object; "-" appends; an index up to the end inserts; any other index, or a parent without children, is
      refused. */
  lemma AdditionIs(parent: Json, last: Str, v: Json)
    ensures parent.Null? ==> AddChild(parent, last, v) == Ok(Obj(map[last := v]))
    ensures parent.Obj? ==> AddChild(parent, last, v) == Ok(Obj(parent.members[last := v]))
    ensures parent.Arr? && last == Ascii("-") ==> AddChild(parent, last, v) == Ok(Arr(parent.items + [v]))
    ensures parent.Arr? && last != Ascii("-") && Stoi(last).Ok? && 0 <= Stoi(last).value <= |parent.items| ==>
              AddChild(parent, last, v)
              == Ok(Arr(parent.items[..Stoi(last).value] + [v] + parent.items[Stoi(last).value..]))
    ensures parent.Arr? && last != Ascii("-") && !(Stoi(last).Ok? && 0 <= Stoi(last).value <= |parent.items|) ==>
              AddChild(parent, last, v).Err?
    ensures parent.Primitive() && !parent.Null? ==> AddChild(parent, last, v) == Err(AssertionFailed)
  {
    hide Stoi;
    assert DASH == Ascii("-");
  }

  /** Adding at "-" appends: the value is found at the index that was the length, every other element is where
      it was, and it is the addition at that index. */
  lemma DashAppends(xs: seq<Json>, v: Json)
    ensures AddChild(Arr(xs), Ascii("-"), v).Ok?
    ensures var r := AddChild(Arr(xs), Ascii("-"), v).value;
      && r.Arr? && |r.items| == |xs| + 1
      && (forall k | 0 <= k < |xs| :: r.items[k] == xs[k])
      && r.items[|xs|] == v
      && (|xs| <= INT_MAX ==> At(r, [Dec(|xs|)]) == Ok(v) && AddChild(Arr(xs), Dec(|xs|), v) == Ok(r))
  {
    AdditionIs(Arr(xs), Ascii("-"), v);
    hide AddChild, Ascii, Stoi, Dec;
    var ys := xs + [v];
    if |xs| <= INT_MAX {
      StoiOfDec(|xs|);
      AdditionIs(Arr(xs), Dec(|xs|), v);
      assert [Dec(|xs|)][1..] == [];
      assert xs[..|xs|] + [v] + xs[|xs|..] == ys;
      assert DASH == Ascii("-") by { DashIs(); }
      assert CheckedSlot(Arr(ys), Dec(|xs|)) == Ok(Item(|xs|));
    }
  }

  lemma DashIs()
    ensures DASH == Ascii("-")
  {
  }

  /** An addition to the whole document replaces it; the whole document cannot be removed. */
  lemma WholeDocument(doc: Json, v: Json)
    ensures Apply(doc, Add([], v)) == Ok(v) && Apply(doc, Replace([], v)) == Ok(v)
    ensures Apply(doc, Remove([])) == Err(DomainError)
  {
  }

  /** Adding where a member exists replaces it. */
  lemma AddReplacesMember(doc: Json, path: seq<Str>, v: Json)
    requires path != [] && At(doc, path).Ok? && At(doc, Parent(path)).Ok? && At(doc, Parent(path)).value.Obj?
    ensures Apply(doc, Add(path, v)) == Ok(Put(doc, path, v)) && Apply(doc, Replace(path, v)) == Ok(Put(doc, path, v))
  {
    var p, k := Parent(path), Last(path);
    var parent := At(doc, p).value;
    AddPuts(doc, path, v);
    AtChild(doc, path);
    ReplaceIsPut(doc, path, v);
    ParentAndLast(path);
    PutConcat(doc, p, [k], v);
    PutMember(parent, k, v);
  }

  lemma PutMember(j: Json, k: Str, v: Json)
    requires j.Obj? && At(j, [k]).Ok?
    ensures Put(j, [k], v) == Obj(j.members[k := v])
  {
    assert [k][1..] == [];
  }

  lemma {:induction false} PutConcat(j: Json, p: seq<Str>, q: seq<Str>, v: Json)
    requires At(j, p + q).Ok?
    ensures At(j, p).Ok? && At(At(j, p).value, q).Ok?
    ensures Put(j, p + q, v) == Put(j, p, Put(At(j, p).value, q, v))
    decreases |p|
  {
    AtConcat(j, p, q);
    if p == [] {
      assert p + q == q;
    } else {
      assert (p + q)[0] == p[0] && (p + q)[1..] == p[1..] + q;
      PutConcat(Child(j, CheckedSlot(j, p[0]).value), p[1..], q, v);
    }
  }

  /** Without the place to remove, or the source to move or copy, nothing happens but the exception. */
  lemma MissingIsRefused(doc: Json, path: seq<Str>, from: seq<Str>)
    requires At(doc, from).Err?
    ensures Apply(doc, Move(path, from)) == Err(At(doc, from).error)
    ensures Apply(doc, Copy(path, from)) == Err(At(doc, from).error)
  {
  }

  /** A move is a removal followed by an addition of what was removed. */
  lemma MoveIsRemovalAndAddition(doc: Json, path: seq<Str>, from: seq<Str>)
    requires At(doc, from).Ok?
    ensures Apply(doc, Move(path, from)) == ApplyAll(doc, [Remove(from), Add(path, At(doc, from).value)])
  {
    var v := At(doc, from).value;
    hide At, ApplyAdd, ApplyRemove;
    assert [Remove(from), Add(path, v)][1..] == [Add(path, v)] && [Add(path, v)][1..] == [];
    if Apply(doc, Remove(from)).Ok? { Twice(doc, Remove(from), Add(path, v)); }
  }

  lemma RemovalNeedsMember(doc: Json, path: seq<Str>)
    requires path != [] && At(doc, Parent(path)).Ok? && At(doc, Parent(path)).value.Obj? && At(doc, path).Err?
    ensures Apply(doc, Remove(path)) == Err(OutOfRange)
  {
    RemovePuts(doc, path);
    AtChild(doc, path);
    assert [Last(path)][1..] == [];
  }

  /** What a removal makes of its parent. Below a value without children it does nothing at all. */
  lemma RemovalIs(parent: Json, last: Str)
    ensures parent.Primitive() ==> RemoveChild(parent, last) == Ok(parent)
    ensures parent.Arr? && Stoi(last).Ok? && 0 <= Stoi(last).value < |parent.items| ==>
              var i := Stoi(last).value;
              RemoveChild(parent, last).Ok? && RemoveChild(parent, last).value.Arr?
              && var ys := RemoveChild(parent, last).value.items;
                 && |ys| == |parent.items| - 1
                 && (forall k | 0 <= k < i :: ys[k] == parent.items[k])
                 && (forall k | i <= k < |ys| :: ys[k] == parent.items[k + 1])
    ensures parent.Arr? && Stoi(last).Ok? && !(0 <= Stoi(last).value < |parent.items|) ==>
              RemoveChild(parent, last) == Err(OutOfRange)
    ensures parent.Arr? && Stoi(last).Err? ==> RemoveChild(parent, last) == Err(Stoi(last).error)
  {
    hide Stoi;
  }

  lemma RemovalBelowLeaf(doc: Json, path: seq<Str>)
    requires path != [] && At(doc, Parent(path)).Ok? && At(doc, Parent(path)).value.Primitive()
    ensures Apply(doc, Remove(path)) == Ok(doc)
  {
    RemovePuts(doc, path);
    RemovalIs(At(doc, Parent(path)).value, Last(path));
    PutLaws(doc, Parent(path), Null, Null);
  }

  // ----- parents that an addition creates -----

  /** The value behind the first token must exist. */
  lemma AddBelowMissing(doc: Json, path: seq<Str>, v: Json)
    requires |path| > 1 && At(doc, path[..1]).Err?
    ensures Apply(doc, Add(path, v)) == Err(At(doc, path[..1]).error)
  {
  }

  /** Further down, one missing parent is created as an object. */
  lemma AddCreatesOneParent(doc: Json, p: seq<Str>, k: Str, last: Str, v: Json)
    requires p != [] && At(doc, p).Ok? && At(doc, p).value.Obj? && k !in At(doc, p).value.members
    ensures Apply(doc, Add(p + [k, last], v)) ==
            Ok(Put(doc, p, Obj(At(doc, p).value.members[k := Obj(map[last := v])])))
  {
    var parent, path := At(doc, p).value, p + [k, last];
    FirstExists(doc, p, [k, last]);
    ModifyBelow(doc, p, [k], Adding(last, v));
    assert path[..|path| - 1] == p + [k];
    assert [k][1..] == [];
    assert parent.members[k := Null][k := Obj(map[last := v])] == parent.members[k := Obj(map[last := v])];
    assert ModifyCreated(Null, [], Adding(last, v)) == Ok(Obj(map[last := v]));
    hide At, Put;
  }

  /** But not two. */
  lemma AddCreatesNoMore(doc: Json, p: seq<Str>, k: Str, rest: seq<Str>, v: Json)
    requires p != [] && At(doc, p).Ok? && At(doc, p).value.Obj? && k !in At(doc, p).value.members && |rest| >= 2
    ensures Apply(doc, Add(p + ([k] + rest), v)) == Err(OutOfRange)
  {
    var path := p + ([k] + rest);
    var q := [k] + rest[..|rest| - 1];
    var f := Adding(path[|path| - 1], v);
    FirstExists(doc, p, [k] + rest);
    ModifyBelow(doc, p, q, f);
    assert path[..|path| - 1] == p + q;
    assert q[1..] == rest[..|rest| - 1];
    assert ModifyCreated(Null, q[1..], f) == Err(OutOfRange);
  }

  lemma FirstExists(doc: Json, p: seq<Str>, q: seq<Str>)
    requires p != [] && At(doc, p).Ok?
    ensures At(doc, (p + q)[..1]).Ok?
  {
    AtConcat(doc, p[..1], p[1..]);
    assert p[..1] + p[1..] == p && (p + q)[..1] == p[..1];
  }

  /** A copy onto an existing place overwrites it with the value at the source, also in an array. */
  lemma CopyOverwrites(doc: Json, path: seq<Str>, from: seq<Str>)
    requires At(doc, from).Ok? && At(doc, path).Ok?
    ensures Apply(doc, Copy(path, from)) == Ok(Put(doc, path, At(doc, from).value))
  {
    var v := At(doc, from).value;
    hide At, Put, ModifyCreated;
    ModifyBelow(doc, path, [], Setting(v));
    assert path + [] == path;
    NothingCreated(At(doc, path).value, Setting(v));
  }

  /** A copy to a new member of an existing object adds it. */
  lemma CopyAddsMember(doc: Json, path: seq<Str>, from: seq<Str>)
    requires At(doc, from).Ok? && path != [] && At(doc, Parent(path)).Ok?
    requires At(doc, Parent(path)).value.Obj? && Last(path) !in At(doc, Parent(path)).value.members
    ensures Apply(doc, Copy(path, from)) == Apply(doc, Add(path, At(doc, from).value))
  {
    var p, k, v := Parent(path), Last(path), At(doc, from).value;
    var parent := At(doc, p).value;
    ParentAndLast(path);
    ModifyBelow(doc, p, [k], Setting(v));
    AddPuts(doc, path, v);
    CreatedMember(parent, k, v);
    hide At, Put, ModifyCreated, AddChild, Parent, Last;
  }

  lemma CreatedMember(parent: Json, k: Str, v: Json)
    requires parent.Obj? && k !in parent.members
    ensures ModifyCreated(parent, [k], Setting(v)) == AddChild(parent, k, v)
  {
    assert [k][1..] == [];
    assert parent.members[k := Null][k := v] == parent.members[k := v];
  }

  // ----- reading a patch document -----

  /** The name under which an operation is written. */
  function NameOf(op: Operation): Str {
    match op
    case Add(_, _) => Ascii("add")
    case Remove(_) => Ascii("remove")
    case Replace(_, _) => Ascii("replace")
    case Move(_, _) => Ascii("move")
    case Copy(_, _) => Ascii("copy")
    case Test(_, _) => Ascii("test")
  }

  /** The member holds a text that splits into these tokens. */
  predicate HoldsPath(val: Json, member: Str, path: seq<Str>)
    requires val.Obj?
  {
    member in val.members && val.members[member].Text? && Split(val.members[member].s) == Ok(path)
  }

  predicate Holds(val: Json, member: Str, x: Json)
    requires val.Obj?
  {
    member in val.members && val.members[member] == x
  }

  lemma OperationName(op: Operation)
    ensures NameOf(op) == match op case Add(_, _) => OP_ADD case Remove(_) => OP_REMOVE case Replace(_, _) => OP_REPLACE
                          case Move(_, _) => OP_MOVE case Copy(_, _) => OP_COPY case Test(_, _) => OP_TEST
  {
    Names.PatchMembers();
    hide Ascii;
  }

  /** An element of a patch is read as an operation exactly if it is an object with the name and the path of
      the operation, and, where the operation has them, its value and its source; other members do not matter. */
  lemma ReadsExactly(val: Json, op: Operation)
    ensures ReadOperation(val) == Ok(op) <==>
      && val.Obj?
      && Holds(val, Ascii("op"), Text(NameOf(op)))
      && HoldsPath(val, Ascii("path"), op.path)
      && (op.Add? || op.Replace? || op.Test? ==> Holds(val, Ascii("value"), op.value))
      && (op.Move? || op.Copy? ==> HoldsPath(val, Ascii("from"), op.from))
  {
    OperationName(op);
    Names.PatchMembers();
    D.NamesDiffer();
    hide Ascii, Split, NameOf;
    hide KEY_OP, KEY_PATH, KEY_VALUE, KEY_FROM, OP_ADD, OP_REMOVE, OP_REPLACE, OP_MOVE, OP_COPY, OP_TEST;
  }
}
