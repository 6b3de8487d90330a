/** JSON Patch (RFC 6902): applying a patch, and computing one with diff. */
module Patch {
  import opened Bytes
  import opened Json
  import opened Pointer
  import opened Access

  const KEY_OP: Str := [0x6F, 0x70]                             // "op"
  const KEY_PATH: Str := [0x70, 0x61, 0x74, 0x68]               // "path"
  const KEY_VALUE: Str := [0x76, 0x61, 0x6C, 0x75, 0x65]        // "value"
  const KEY_FROM: Str := [0x66, 0x72, 0x6F, 0x6D]               // "from"
  const OP_ADD: Str := [0x61, 0x64, 0x64]                       // "add"
  const OP_REMOVE: Str := [0x72, 0x65, 0x6D, 0x6F, 0x76, 0x65]  // "remove"
  const OP_REPLACE: Str := [0x72, 0x65, 0x70, 0x6C, 0x61, 0x63, 0x65]  // "replace"
  const OP_MOVE: Str := [0x6D, 0x6F, 0x76, 0x65]                // "move"
  const OP_COPY: Str := [0x63, 0x6F, 0x70, 0x79]                // "copy"
  const OP_TEST: Str := [0x74, 0x65, 0x73, 0x74]                // "test"

  // ----- one operation -----

  datatype Operation =
    | Add(path: seq<Str>, value: Json)
    | Remove(path: seq<Str>)
    | Replace(path: seq<Str>, value: Json)
    | Move(path: seq<Str>, from: seq<Str>)
    | Copy(path: seq<Str>, from: seq<Str>)
    | Test(path: seq<Str>, value: Json)

  /** operation_add at the parent of the new value. */
  function AddChild(parent: Json, last: Str, val: Json): Result<Json> {
    match parent
    case Null => Ok(Obj(map[last := val]))
    case Obj(m) => Ok(Obj(m[last := val]))
    case Arr(xs) =>
      if last == DASH then Ok(Arr(xs + [val])) else (
        match Stoi(last)
        case Ok(i) => if i < 0 || i > |xs| then Err(OutOfRange) else Ok(Arr(xs[..i] + [val] + xs[i..]))
        case Err(e) => Err(e))
    case _ => Err(AssertionFailed)
  }

  function Adding(last: Str, val: Json): Json -> Result<Json> {
    parent => AddChild(parent, last, val)
  }

  function ApplyAdd(doc: Json, path: seq<Str>, val: Json): Result<Json> {
    if path == [] then Ok(val)
    else if |path| > 1 && At(doc, path[..1]).Err? then Err(At(doc, path[..1]).error)
    else ModifyCreated(doc, path[..|path| - 1], Adding(path[|path| - 1], val))
  }

  /** operation_remove at the parent; a primitive parent is left as it is. */
  function RemoveChild(parent: Json, last: Str): Result<Json> {
    match parent
    case Obj(m) => if last in m then Ok(Obj(m - {last})) else Err(OutOfRange)
    case Arr(xs) => (
      match Stoi(last)
      case Ok(i) => if 0 <= i < |xs| then Ok(Arr(xs[..i] + xs[i + 1..])) else Err(OutOfRange)
      case Err(e) => Err(e))
    case _ => Ok(parent)
  }

  function Removing(last: Str): Json -> Result<Json> {
    parent => RemoveChild(parent, last)
  }

  function ApplyRemove(doc: Json, path: seq<Str>): Result<Json> {
    if path == [] then Err(DomainError)
    else ModifyChecked(doc, path[..|path| - 1], Removing(path[|path| - 1]))
  }

  function Setting(val: Json): Json -> Result<Json> {
    _ => Ok(val)
  }

  function Apply(doc: Json, op: Operation): Result<Json> {
    match op
    case Add(path, val) => ApplyAdd(doc, path, val)
    case Remove(path) => ApplyRemove(doc, path)
    case Replace(path, val) => ModifyChecked(doc, path, Setting(val))
    case Move(path, from) => (
      match At(doc, from)
      case Err(e) => Err(e)
      case Ok(v) => (
        match ApplyRemove(doc, from)
        case Err(e) => Err(e)
        case Ok(rest) => ApplyAdd(rest, path, v)))
    case Copy(path, from) => (
      match At(doc, from)
      case Err(e) => Err(e)
      case Ok(v) => ModifyCreated(doc, path, Setting(v)))
    case Test(path, val) => (
      match At(doc, path)
      case Ok(v) => if Eq(v, val) then Ok(doc) else Err(DomainError)
      case Err(e) => if e == OutOfRange then Err(DomainError) else Err(e))
  }

  // ----- reading a patch document -----

  /** get_value: a mandatory member of an operation. */
  function Mandatory(val: Json, member: Str, textual: bool): (r: Result<Json>)
    requires val.Obj?
    ensures r.Ok? && textual ==> r.value.Text?
  {
    if member !in val.members then Err(InvalidArgument)
    else if textual && !val.members[member].Text? then Err(InvalidArgument)
    else Ok(val.members[member])
  }

  function ReadOperation(val: Json): Result<Operation> {
    if !val.Obj? then Err(InvalidArgument) else
      var op := Mandatory(val, KEY_OP, true);
      if op.Err? then Err(op.error) else
        var path := Mandatory(val, KEY_PATH, true);
        if path.Err? then Err(path.error) else
          match Split(path.value.s)
          case Err(e) => Err(e)
          case Ok(tokens) => ReadArguments(val, op.value.s, tokens)
  }

  function ReadArguments(val: Json, op: Str, tokens: seq<Str>): Result<Operation>
    requires val.Obj?
  {
    if op == OP_REMOVE then Ok(Remove(tokens))
    else if op == OP_MOVE || op == OP_COPY then
      var from := Mandatory(val, KEY_FROM, true);
      if from.Err? then Err(from.error) else
        match Split(from.value.s)
        case Err(e) => Err(e)
        case Ok(source) => Ok(if op == OP_MOVE then Move(tokens, source) else Copy(tokens, source))
    else if op == OP_ADD || op == OP_REPLACE || op == OP_TEST then
      var value := Mandatory(val, KEY_VALUE, false);
      if value.Err? then Err(value.error)
      else Ok(if op == OP_ADD then Add(tokens, value.value)
              else if op == OP_REPLACE then Replace(tokens, value.value)
              else Test(tokens, value.value))
    else Err(InvalidArgument)
  }

  function Step(doc: Json, val: Json): Result<Json> {
    match ReadOperation(val)
    case Err(e) => Err(e)
    case Ok(op) => Apply(doc, op)
  }

  function Steps(doc: Json, vals: seq<Json>): Result<Json>
    decreases |vals|
  {
    if vals == [] then Ok(doc) else
      match Step(doc, vals[0])
      case Err(e) => Err(e)
      case Ok(next) => Steps(next, vals[1..])
  }

  /** What patch() returns: all operations in order, or the exception of the first that fails. */
  function Patched(doc: Json, patch: Json): Result<Json> {
    if patch.Arr? then Steps(doc, patch.items) else Err(InvalidArgument)
  }

  method PatchDocument(doc: Json, patch: Json) returns (r: Result<Json>)
    ensures r == Patched(doc, patch)
  {
    var result := doc;
    if !patch.Arr? {
      return Err(InvalidArgument);
    }
    for n := 0 to |patch.items|
      invariant Steps(result, patch.items[n..]) == Steps(doc, patch.items)
    {
      assert patch.items[n..][0] == patch.items[n] && patch.items[n..][1..] == patch.items[n + 1..];
      match ReadOperation(patch.items[n]) {
        case Err(e) => return Err(e);
        case Ok(op) =>
          var next := Apply(result, op);
          if next.Err? {
            return next;
          }
          result := next.value;
      }
    }
    return Ok(result);
  }

  // ----- sequences of operations, and moving them below a path -----

  function ApplyAll(doc: Json, ops: seq<Operation>): Result<Json>
    decreases |ops|
  {
    if ops == [] then Ok(doc) else
      match Apply(doc, ops[0])
      case Err(e) => Err(e)
      case Ok(next) => ApplyAll(next, ops[1..])
  }

  lemma {:induction false} ApplyAllConcat(doc: Json, a: seq<Operation>, b: seq<Operation>)
    ensures ApplyAll(doc, a + b) ==
            if ApplyAll(doc, a).Ok? then ApplyAll(ApplyAll(doc, a).value, b) else ApplyAll(doc, a)
    decreases |a|
  {
    if a == [] {
      assert a + b == b;
    } else {
      assert (a + b)[0] == a[0] && (a + b)[1..] == a[1..] + b;
      if Apply(doc, a[0]).Ok? { ApplyAllConcat(Apply(doc, a[0]).value, a[1..], b); }
    }
  }

  /** The operations diff emits, relative to the value it compares. */
  predicate Relative(op: Operation) {
    match op
    case Add(path, _) => path != []
    case Remove(path) => path != []
    case Replace(_, _) => true
    case _ => false
  }

  function Below(p: seq<Str>, op: Operation): Operation {
    match op
    case Add(path, val) => Add(p + path, val)
    case Remove(path) => Remove(p + path)
    case Replace(path, val) => Replace(p + path, val)
    case Move(path, from) => Move(p + path, p + from)
    case Copy(path, from) => Copy(p + path, p + from)
    case Test(path, val) => Test(p + path, val)
  }

  function AllBelow(p: seq<Str>, ops: seq<Operation>): (r: seq<Operation>)
    ensures |r| == |ops| && forall i | 0 <= i < |ops| :: r[i] == Below(p, ops[i])
  {
    seq(|ops|, i requires 0 <= i < |ops| => Below(p, ops[i]))
  }

  lemma ApplyAddBelow(doc: Json, p: seq<Str>, q: seq<Str>, val: Json)
    requires At(doc, p).Ok? && q != [] && ApplyAdd(At(doc, p).value, q, val).Ok?
    ensures ApplyAdd(doc, p + q, val) == Ok(Put(doc, p, ApplyAdd(At(doc, p).value, q, val).value))
  {
    if p == [] {
      assert p + q == q;
    } else {
      hide AddChild, Put, ModifyCreated, CreatedSlot;
      var n := |q| - 1;
      ModifyBelow(doc, p, q[..n], Adding(q[n], val));
      assert (p + q)[..|p + q| - 1] == p + q[..n] && (p + q)[|p + q| - 1] == q[n];
      assert (p + q)[..1] == [p[0]] && [p[0]][1..] == [];
      assert At(doc, [p[0]]).Ok?;
      assert ApplyAdd(At(doc, p).value, q, val) == ModifyCreated(At(doc, p).value, q[..n], Adding(q[n], val));
      assert ApplyAdd(doc, p + q, val) == ModifyCreated(doc, p + q[..n], Adding(q[n], val));
    }
  }

  lemma ApplyBelow(doc: Json, p: seq<Str>, op: Operation)
    requires At(doc, p).Ok? && Relative(op) && Apply(At(doc, p).value, op).Ok?
    ensures Apply(doc, Below(p, op)) == Ok(Put(doc, p, Apply(At(doc, p).value, op).value))
  {
    hide Put, ModifyChecked, At, ApplyAdd;
    match op {
      case Add(q, val) => ApplyAddBelow(doc, p, q, val);
      case Remove(q) =>
        var n := |q| - 1;
        assert (p + q)[..|p + q| - 1] == p + q[..n] && (p + q)[|p + q| - 1] == q[n];
        ModifyBelow(doc, p, q[..n], Removing(q[n]));
      case Replace(q, val) =>
        ModifyBelow(doc, p, q, Setting(val));
    }
  }

  /** Operations below an existing path change that subtree as they change the subtree alone, and
      nothing else: the rest of the document is `Put` back unchanged. */
  lemma {:induction false} ApplyAllBelow(doc: Json, p: seq<Str>, ops: seq<Operation>)
    requires At(doc, p).Ok? && ApplyAll(At(doc, p).value, ops).Ok?
    requires forall op | op in ops :: Relative(op)
    ensures ApplyAll(doc, AllBelow(p, ops)) == Ok(Put(doc, p, ApplyAll(At(doc, p).value, ops).value))
    decreases |ops|
  {
    var sub := At(doc, p).value;
    PutLaws(doc, p, sub, sub);
    if ops != [] {
      ApplyBelow(doc, p, ops[0]);
      var next := Apply(sub, ops[0]).value;
      PutLaws(doc, p, next, ApplyAll(next, ops[1..]).value);
      ApplyAllBelow(Put(doc, p, next), p, ops[1..]);
      assert AllBelow(p, ops)[1..] == AllBelow(p, ops[1..]);
    }
  }
}
