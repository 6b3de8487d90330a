/** Reaching into a document along a list of reference tokens.

    A C++ reference into a document is a value together with the way back to the root: the
    functions below return the whole document after the referenced place was changed. */
module Access {
  import opened Bytes
  import opened Json

  const INT_MIN := -0x8000_0000
  const INT_MAX := 0x7FFF_FFFF
  const DASH: Str := [MINUS]

  // ----- std::stoi -----

  predicate IsSpace(c: byte) {
    c == SPACE || 0x09 <= c <= 0x0D
  }

  function SkipSpaces(s: Str): Str {
    if s != [] && IsSpace(s[0]) then SkipSpaces(s[1..]) else s
  }

  /** The longest prefix made of digits. */
  function DigitRun(s: Str): (ds: Str)
    ensures AllDigits(ds)
  {
    if s != [] && IsDigit(s[0]) then [s[0]] + DigitRun(s[1..]) else []
  }

  function Stoi(s: Str): Result<int> {
    var t := SkipSpaces(s);
    var negative := t != [] && t[0] == MINUS;
    var ds := DigitRun(if t != [] && (t[0] == MINUS || t[0] == PLUS) then t[1..] else t);
    var v: int := if negative then 0 - Value(ds) else Value(ds);
    if ds == [] then Err(InvalidArgument)
    else if INT_MIN <= v <= INT_MAX then Ok(v)
    else Err(OutOfRange)
  }

  lemma {:induction false} DigitRunOfDigits(s: Str)
    requires AllDigits(s)
    ensures DigitRun(s) == s
  {
    if s != [] {
      DigitRunOfDigits(s[1..]);
      assert s == [s[0]] + s[1..];
    }
  }

  /** An index survives std::to_string followed by std::stoi exactly when it fits into an int. */
  lemma StoiOfDec(n: nat)
    ensures Stoi(Dec(n)) == if n <= INT_MAX then Ok(n) else Err(OutOfRange)
    ensures Dec(n) != DASH && !(|Dec(n)| > 1 && Dec(n)[0] == ZERO)
  {
    DigitRunOfDigits(Dec(n));
    DecDenotes(n);
    assert IsDigit(Dec(n)[0]);
  }

  /** No array is longer than an int can count. */
  ghost predicate Indexable(j: Json) {
    match j
    case Arr(items) => |items| <= INT_MAX + 1 && forall x | x in items :: Indexable(x)
    case Obj(members) => forall k | k in members :: Indexable(members[k])
    case _ => true
  }

  // ----- one step of a walk -----

  /** Where a token leads to inside an array or an object. */
  datatype Slot = Member(key: Str) | Item(index: nat)

  predicate HasSlot(j: Json, slot: Slot) {
    match slot
    case Member(k) => j.Obj? && k in j.members
    case Item(i) => j.Arr? && i < |j.items|
  }

  function Child(j: Json, slot: Slot): Json
    requires HasSlot(j, slot)
  {
    match slot
    case Member(k) => j.members[k]
    case Item(i) => j.items[i]
  }

  function WithChild(j: Json, slot: Slot, v: Json): Json
    requires HasSlot(j, slot)
  {
    match slot
    case Member(k) => Obj(j.members[k := v])
    case Item(i) => Arr(j.items[i := v])
  }

  /** An array index as get_checked and get_unchecked read it. */
  function IndexToken(token: Str): Result<int> {
    if |token| > 1 && token[0] == ZERO then Err(DomainError) else Stoi(token)
  }

  /** One step of get_checked: the place must exist. */
  function CheckedSlot(j: Json, token: Str): (r: Result<Slot>)
    ensures r.Ok? ==> HasSlot(j, r.value)
  {
    match j
    case Obj(m) => if token in m then Ok(Member(token)) else Err(OutOfRange)
    case Arr(xs) =>
      if token == DASH then Err(OutOfRange) else (
        match IndexToken(token)
        case Ok(i) => if 0 <= i < |xs| then Ok(Item(i)) else Err(OutOfRange)
        case Err(e) => Err(e))
    case _ => Err(OutOfRange)
  }

  /** `xs` filled up with nulls until index n exists. */
  function Filled(xs: seq<Json>, n: nat): seq<Json> {
    if n < |xs| then xs else xs + seq(n + 1 - |xs|, _ => Null)
  }

  /** One step of the non-const get_unchecked: a missing place is created, holding null. */
  function CreatedSlot(j: Json, token: Str): (r: Result<(Json, Slot)>)
    ensures r.Ok? ==> HasSlot(r.value.0, r.value.1)
  {
    match j
    case Obj(m) => Ok((if token in m then j else Obj(m[token := Null]), Member(token)))
    case Arr(xs) => (
      match if token == DASH then Ok(|xs|) else IndexToken(token)
      case Ok(i) => if i < 0 then Err(OutOfMemory) else Ok((Arr(Filled(xs, i)), Item(i)))
      case Err(e) => Err(e))
    case _ => Err(OutOfRange)
  }

  lemma CheckedIsCreated(j: Json, token: Str)
    requires CheckedSlot(j, token).Ok?
    ensures CreatedSlot(j, token) == Ok((j, CheckedSlot(j, token).value))
  {
  }

  lemma WithChildLaws(j: Json, slot: Slot, v: Json, w: Json)
    requires HasSlot(j, slot)
    ensures HasSlot(WithChild(j, slot, v), slot) && Child(WithChild(j, slot, v), slot) == v
    ensures WithChild(WithChild(j, slot, v), slot, w) == WithChild(j, slot, w)
    ensures WithChild(j, slot, Child(j, slot)) == j
  {
    match slot {
      case Member(k) => assert j.members[k := v][k := w] == j.members[k := w];
      case Item(i) => assert j.items[i := v][i := w] == j.items[i := w];
    }
  }

  lemma CheckedSlotKept(j: Json, token: Str, v: Json)
    requires CheckedSlot(j, token).Ok?
    ensures CheckedSlot(WithChild(j, CheckedSlot(j, token).value, v), token) == CheckedSlot(j, token)
  {
  }

  // ----- get_checked -----

  /** The value a pointer refers to: at() of a JSON pointer. */
  function At(j: Json, tokens: seq<Str>): Result<Json> {
    if tokens == [] then Ok(j) else
      match CheckedSlot(j, tokens[0])
      case Ok(slot) => At(Child(j, slot), tokens[1..])
      case Err(e) => Err(e)
  }

  method GetChecked(j: Json, tokens: seq<Str>) returns (r: Result<Json>)
    ensures r == At(j, tokens)
  {
    var p := j;
    for n := 0 to |tokens|
      invariant At(p, tokens[n..]) == At(j, tokens)
    {
      assert tokens[n..][0] == tokens[n] && tokens[n..][1..] == tokens[n + 1..];
      match CheckedSlot(p, tokens[n]) {
        case Ok(slot) => p := Child(p, slot);
        case Err(e) => return Err(e);
      }
    }
    return Ok(p);
  }

  /** The document after the value at an existing place was replaced. */
  function Put(j: Json, tokens: seq<Str>, v: Json): Json
    requires At(j, tokens).Ok?
  {
    if tokens == [] then v else
      var slot := CheckedSlot(j, tokens[0]).value;
      WithChild(j, slot, Put(Child(j, slot), tokens[1..], v))
  }

  lemma {:induction false} PutLaws(j: Json, tokens: seq<Str>, v: Json, w: Json)
    requires At(j, tokens).Ok?
    ensures At(Put(j, tokens, v), tokens) == Ok(v)
    ensures Put(Put(j, tokens, v), tokens, w) == Put(j, tokens, w)
    ensures Put(j, tokens, At(j, tokens).value) == j
  {
    if tokens != [] {
      var slot := CheckedSlot(j, tokens[0]).value;
      var c := Child(j, slot);
      PutLaws(c, tokens[1..], v, w);
      CheckedSlotKept(j, tokens[0], Put(c, tokens[1..], v));
      WithChildLaws(j, slot, Put(c, tokens[1..], v), Put(c, tokens[1..], w));
    }
  }

  // ----- changing what a pointer refers to -----

  /** Result of a change inside the document: `f` says what becomes of the value found. */
  function ModifyChecked(j: Json, tokens: seq<Str>, f: Json -> Result<Json>): Result<Json> {
    if tokens == [] then f(j) else
      match CheckedSlot(j, tokens[0])
      case Err(e) => Err(e)
      case Ok(slot) =>
        match ModifyChecked(Child(j, slot), tokens[1..], f)
        case Err(e) => Err(e)
        case Ok(v) => Ok(WithChild(j, slot, v))
  }

  function ModifyCreated(j: Json, tokens: seq<Str>, f: Json -> Result<Json>): Result<Json>
    decreases |tokens|
  {
    if tokens == [] then f(j) else
      match CreatedSlot(j, tokens[0])
      case Err(e) => Err(e)
      case Ok((k, slot)) =>
        match ModifyCreated(Child(k, slot), tokens[1..], f)
        case Err(e) => Err(e)
        case Ok(v) => Ok(WithChild(k, slot, v))
  }

  function PutInto(j: Json, tokens: seq<Str>, r: Result<Json>): Result<Json>
    requires At(j, tokens).Ok?
  {
    match r case Ok(v) => Ok(Put(j, tokens, v)) case Err(e) => Err(e)
  }

  /** A change below an existing place stays below it. */
  lemma {:induction false} ModifyBelow(j: Json, p: seq<Str>, q: seq<Str>, f: Json -> Result<Json>)
    requires At(j, p).Ok?
    ensures ModifyChecked(j, p + q, f) == PutInto(j, p, ModifyChecked(At(j, p).value, q, f))
    ensures ModifyCreated(j, p + q, f) == PutInto(j, p, ModifyCreated(At(j, p).value, q, f))
    decreases |p|
  {
    if p == [] {
      assert p + q == q;
    } else {
      assert (p + q)[0] == p[0] && (p + q)[1..] == p[1..] + q;
      CheckedIsCreated(j, p[0]);
      ModifyBelow(Child(j, CheckedSlot(j, p[0]).value), p[1..], q, f);
    }
  }
}
