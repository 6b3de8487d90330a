/** How tokens are read as indices, and what a step into a document finds or creates. */
module AccessLaws {
  import opened Bytes
  import opened Json
  import opened Access

  // ----- std::stoi -----

  predicate IsBlankC(c: byte) {
    c == 0x20 || 0x09 <= c <= 0x0D
  }

  predicate AllBlank(w: Str) {
    forall i | 0 <= i < |w| :: IsBlankC(w[i])
  }

  predicate IsSignText(sign: Str) {
    sign == [] || sign == [0x2B] || sign == [0x2D]
  }

  lemma {:induction false} SkipsBlanks(w: Str, s: Str)
    requires AllBlank(w) && (s == [] || !IsBlankC(s[0]))
    ensures SkipSpaces(w + s) == s
  {
    if w == [] {
      assert w + s == s;
    } else {
      assert (w + s)[1..] == w[1..] + s && (w + s)[0] == w[0];
      SkipsBlanks(w[1..], s);
    }
  }

  lemma {:induction false} RunOfDigits(ds: Str, rest: Str)
    requires AllDigits(ds) && (rest == [] || !IsDigit(rest[0]))
    ensures DigitRun(ds + rest) == ds
  {
    if ds == [] {
      assert ds + rest == rest;
    } else {
      assert (ds + rest)[1..] == ds[1..] + rest && (ds + rest)[0] == ds[0];
      RunOfDigits(ds[1..], rest);
      assert ds == [ds[0]] + ds[1..];
    }
  }

  /** White space, a sign and digits are read, whatever follows; the number must fit into an int. Without a
      digit there is no number. */
  lemma StoiReads(w: Str, sign: Str, ds: Str, rest: Str)
    requires AllBlank(w) && IsSignText(sign) && AllDigits(ds) && (rest == [] || !IsDigit(rest[0]))
    requires sign == [] && ds == [] && rest != [] ==> !IsBlankC(rest[0]) && rest[0] != 0x2B && rest[0] != 0x2D
    ensures var v := if sign == [0x2D] then 0 - Value(ds) else Value(ds);
      Stoi(w + (sign + (ds + rest))) ==
        if ds == [] then Err(InvalidArgument)
        else if -0x8000_0000 <= v <= 0x7FFF_FFFF then Ok(v)
        else Err(OutOfRange)
  {
    hide Value;
    var s := sign + (ds + rest);
    SkipsBlanks(w, s);
    if sign == [] { assert s == ds + rest; } else { assert s[1..] == ds + rest; }
    RunOfDigits(ds, rest);
  }

  // ----- one step -----

  /** What a token finds in a value: a member by its key; an array element by an index without a superfluous
      zero; nothing in any other value, and never "-". */
  lemma StepFinds(j: Json, token: Str)
    ensures j.Obj? ==> CheckedSlot(j, token) == if token in j.members then Ok(Member(token)) else Err(OutOfRange)
    ensures j.Arr? && token == Ascii("-") ==> CheckedSlot(j, token) == Err(OutOfRange)
    ensures j.Arr? && |token| > 1 && token[0] == 0x30 ==> CheckedSlot(j, token) == Err(DomainError)
    ensures j.Arr? && token != Ascii("-") && !(|token| > 1 && token[0] == 0x30) ==>
              CheckedSlot(j, token) == match Stoi(token)
                                       case Ok(i) => if 0 <= i < |j.items| then Ok(Item(i)) else Err(OutOfRange)
                                       case Err(e) => Err(e)
    ensures !j.Obj? && !j.Arr? ==> CheckedSlot(j, token) == Err(OutOfRange)
  {
    assert DASH == Ascii("-");
    hide Stoi;
  }

  /** What it creates where nothing is: a null member; null elements up to the index, "-" being the one behind
      the last; nothing in any other value. */
  lemma StepCreates(j: Json, token: Str)
    ensures j.Obj? && token !in j.members ==>
              CreatedSlot(j, token) == Ok((Obj(j.members[token := Null]), Member(token)))
    ensures j.Arr? && token == Ascii("-") ==> CreatedSlot(j, token) == Ok((Arr(j.items + [Null]), Item(|j.items|)))
    ensures !j.Obj? && !j.Arr? ==> CreatedSlot(j, token) == Err(OutOfRange)
  {
    assert DASH == Ascii("-");
    hide Stoi;
    if j.Arr? { assert Filled(j.items, |j.items|) == j.items + [Null]; }
  }

  lemma StepFillsUp(xs: seq<Json>, i: nat)
    requires i <= INT_MAX
    ensures CreatedSlot(Arr(xs), Dec(i)).Ok?
    ensures var (after, slot) := CreatedSlot(Arr(xs), Dec(i)).value;
      && slot == Item(i) && after.Arr?
      && |after.items| == (if i < |xs| then |xs| else i + 1)
      && forall k | 0 <= k < |after.items| :: after.items[k] == if k < |xs| then xs[k] else Null
  {
    StoiOfDec(i);
    hide Stoi, Dec;
  }
}
