/** get_number: which numbers are stored as integers, and which become floating-point numbers. */
module Numbers {
  import opened Bytes
  import opened Json
  import opened Lexical

  const TWO64 := 0x1_0000_0000_0000_0000

  // ----- get_number -----

  /** One round of the loop: the 64-bit accumulator takes in a digit, unless an overflow is noticed. */
  function Accumulate(value: nat, digit: nat, max: nat): (r: Option<nat>)
    ensures r.Some? ==> r.value <= max
  {
    var temp := (value * 10 + digit) % TWO64;
    if temp < value || temp > max then None else Some(temp)
  }

  /** The accumulator after all digits, none once an overflow was noticed. */
  function Stored(ds: Str, max: nat): (r: Option<nat>)
    requires AllDigits(ds)
    ensures r.Some? ==> r.value <= max
  {
    if ds == [] then Some(0) else
      match Stored(ds[..|ds| - 1], max)
      case None => None
      case Some(value) => Accumulate(value, DigitValue(ds[|ds| - 1]), max)
  }

  /** The limit that get_number compares with: 2^63 behind a minus sign, else the largest unsigned number. */
  function Limit(negative: bool): nat {
    if negative then INT64_MAX + 1 else UINT64_MAX
  }

  /** A literal without its sign. */
  function Magnitude(lexeme: Str): Str {
    if lexeme != [] && lexeme[0] == MINUS then lexeme[1..] else lexeme
  }

  function IsNegative(lexeme: Str): bool {
    lexeme != [] && lexeme[0] == MINUS
  }

  /** A fraction or an exponent, or an overflow that is noticed, makes the number a floating-point one.
      Negating the smallest integer wraps around to itself. */
  function NumberValue(lexeme: Str): Json {
    var ds := Magnitude(lexeme);
    if !AllDigits(ds) then Float(lexeme) else
      match Stored(ds, Limit(IsNegative(lexeme)))
      case None => Float(lexeme)
      case Some(value) => if IsNegative(lexeme) then Int(0 - value) else UInt(value)
  }

  method GetNumber(lexeme: Str) returns (r: Json)
    requires IsNumber(lexeme)
    ensures r == NumberValue(lexeme)
  {
    hide Stored, Accumulate, IsNumber;
    var negative := IsNegative(lexeme);
    var max := Limit(negative);
    var value: nat := 0;
    var floating := false;  // the type has become number_float
    var i := if negative then 1 else 0;
    ghost var first, ds := i, Magnitude(lexeme);
    StoredNothing(ds, max);
    while i < |lexeme|
      invariant first <= i <= |lexeme| && ds == lexeme[first..]
      invariant !floating ==> AllDigits(ds[..i - first]) && Stored(ds[..i - first], max) == Some(value)
      invariant floating ==> NumberValue(lexeme) == Float(lexeme)
    {
      var c := lexeme[i];
      ghost var n := i - first;
      assert ds[n] == c;
      if !IsDigit(c) {
        assert !AllDigits(ds);
        floating := true;
        if c != DOT {
          break;
        }
      } else if !floating {
        StoredNext(ds, n, max);
        var temp := (value * 10 + DigitValue(c)) % TWO64;
        assert Accumulate(value, DigitValue(c), max) == if temp < value || temp > max then None else Some(temp) by {
          AccumulateIs(value, DigitValue(c), max);
        }
        if temp < value || temp > max {
          OverflowStays(ds, n + 1, max);
          floating := true;
        } else {
          value := temp;
        }
      }
      i := i + 1;
    }
    if floating {
      return Float(lexeme);
    }
    assert ds[..i - first] == ds;
    return if negative then Int(0 - value) else UInt(value);
  }

  lemma AccumulateIs(value: nat, digit: nat, max: nat)
    ensures var temp := (value * 10 + digit) % TWO64;
      Accumulate(value, digit, max) == if temp < value || temp > max then None else Some(temp)
  {
  }

  lemma StoredNothing(ds: Str, max: nat)
    ensures AllDigits(ds[..0]) && Stored(ds[..0], max) == Some(0)
  {
  }

  lemma StoredNext(ds: Str, n: nat, max: nat)
    requires n < |ds| && AllDigits(ds[..n]) && IsDigit(ds[n])
    ensures AllDigits(ds[..n + 1])
    ensures Stored(ds[..n + 1], max) == (match Stored(ds[..n], max)
                                         case None => None
                                         case Some(value) => Accumulate(value, DigitValue(ds[n]), max))
  {
    hide Accumulate;
    var next := ds[..n + 1];
    assert forall i | 0 <= i < n :: next[i] == ds[..n][i];
    assert next[..n] == ds[..n] && next[n] == ds[n];
  }

  /** An overflow that was noticed is never forgotten. */
  lemma {:induction false} OverflowStays(ds: Str, n: nat, max: nat)
    requires n <= |ds| && AllDigits(ds[..n]) && Stored(ds[..n], max).None?
    ensures AllDigits(ds) ==> Stored(ds, max).None?
    decreases |ds|
  {
    if AllDigits(ds) && n < |ds| {
      assert ds[..|ds| - 1][..n] == ds[..n];
      OverflowStays(ds[..|ds| - 1], n, max);
    } else {
      assert n == |ds| ==> ds[..n] == ds;
    }
  }

  // ----- which literals are integer literals -----

  /** A decimal point or the letter of an exponent stands at position i. */
  predicate MarksFloat(lexeme: Str, i: nat) {
    i < |lexeme| && (lexeme[i] == 0x2E || lexeme[i] == 0x65 || lexeme[i] == 0x45)
  }

  /** With a decimal point or an exponent a literal becomes a floating-point number, even if its value is
      integral; without, it is a run of digits behind an optional minus sign. */
  lemma PointOrExponentIsFloat(lexeme: Str)
    requires IsNumber(lexeme)
    ensures (exists i: nat :: MarksFloat(lexeme, i)) ==> NumberValue(lexeme) == Float(lexeme)
    ensures (forall i: nat :: !MarksFloat(lexeme, i)) ==> AllDigits(Magnitude(lexeme)) && Magnitude(lexeme) != []
  {
    hide Stored;
    var ds := Magnitude(lexeme);
    if i: nat :| MarksFloat(lexeme, i) {
      var n := if IsNegative(lexeme) then i - 1 else i;
      assert ds[n] == lexeme[i] && !IsDigit(ds[n]);
    } else {
      assert forall i | 0 <= i < |ds| :: ds[i] == lexeme[if IsNegative(lexeme) then i + 1 else i];
      assert forall i: nat :: !MarksFloat(ds, i) by {
        forall i: nat ensures !MarksFloat(ds, i) {
          assert !MarksFloat(lexeme, if IsNegative(lexeme) then i + 1 else i);
        }
      }
      if IsUnsigned(lexeme) { UnsignedStarts(lexeme); }
      UnmarkedIsDigits(ds);
    }
  }

  lemma UnsignedStarts(s: Str)
    requires IsUnsigned(s)
    ensures s != [] && IsDigit(s[0])
  {
    var n :| 0 < n <= |s| && IsInt(s[..n]) && IsFracExp(s[n..]);
    assert s[..n][0] == s[0];
  }

  lemma FracExpIsMarked(s: Str)
    requires IsFracExp(s)
    ensures s != [] ==> MarksFloat(s, 0)
  {
    if s != [] && !IsExp(s) {
      var k :| 0 < k <= |s| && IsFrac(s[..k]) && (s[k..] == [] || IsExp(s[k..]));
      assert s[..k][0] == s[0];
    }
  }

  lemma UnmarkedIsDigits(s: Str)
    requires IsUnsigned(s) && forall i: nat :: !MarksFloat(s, i)
    ensures AllDigits(s) && s != []
  {
    var n :| 0 < n <= |s| && IsInt(s[..n]) && IsFracExp(s[n..]);
    FracExpIsMarked(s[n..]);
    assert !MarksFloat(s, n);
    assert s[n..] == [] && s[..n] == s;
  }

  // ----- which literals are stored exactly -----

  /** What the first n digits denote. */
  function PrefixValue(ds: Str, n: nat): nat
    requires AllDigits(ds) && n <= |ds|
  {
    Value(ds[..n])
  }

  lemma PrefixStep(ds: Str, n: nat)
    requires AllDigits(ds) && 0 < n <= |ds|
    ensures PrefixValue(ds, n) == PrefixValue(ds, n - 1) * 10 + DigitValue(ds[n - 1])
  {
    assert ds[..n][..n - 1] == ds[..n - 1];
  }

  lemma {:induction false} PrefixMonotone(ds: Str, m: nat, n: nat)
    requires AllDigits(ds) && m <= n <= |ds|
    ensures PrefixValue(ds, m) <= PrefixValue(ds, n)
  {
    if m < n {
      PrefixStep(ds, n);
      PrefixMonotone(ds, m, n - 1);
    }
  }

  /** A digit at which the loop notices an overflow: modulo 2^64 the prefix shrinks or exceeds the limit. */
  ghost predicate NoticedAt(ds: Str, max: nat, n: nat)
    requires AllDigits(ds) && 0 < n <= |ds|
  {
    PrefixValue(ds, n) % TWO64 < PrefixValue(ds, n - 1) % TWO64 || PrefixValue(ds, n) % TWO64 > max
  }

  lemma WrapStep(v: nat, d: nat)
    ensures (v % TWO64 * 10 + d) % TWO64 == (v * 10 + d) % TWO64
  {
    var q := v / TWO64;
    assert v == q * TWO64 + v % TWO64;
    assert v * 10 + d == q * 10 * TWO64 + (v % TWO64 * 10 + d);
    AddMultiple(v % TWO64 * 10 + d, q * 10);
  }

  lemma {:induction false} AddMultiple(x: nat, k: nat)
    ensures (k * TWO64 + x) % TWO64 == x % TWO64
  {
    if k > 0 {
      AddMultiple(x, k - 1);
      assert k * TWO64 + x == (k - 1) * TWO64 + x + TWO64;
    }
  }

  lemma AccumulateModulo(ds: Str, max: nat, n: nat)
    requires AllDigits(ds) && 0 < n <= |ds|
    ensures Accumulate(PrefixValue(ds, n - 1) % TWO64, DigitValue(ds[n - 1]), max) ==
            if NoticedAt(ds, max, n) then None else Some(PrefixValue(ds, n) % TWO64)
  {
    PrefixStep(ds, n);
    WrapStep(PrefixValue(ds, n - 1), DigitValue(ds[n - 1]));
    hide PrefixValue, DigitValue;
  }

  /** The stored number is the literal modulo 2^64, and a float results exactly if some digit is noticed. */
  lemma {:induction false} StoredModulo(ds: Str, max: nat, n: nat)
    requires AllDigits(ds) && n <= |ds|
    ensures Stored(ds[..n], max).None? <==> exists k :: 0 < k <= n && NoticedAt(ds, max, k)
    ensures Stored(ds[..n], max).Some? ==> Stored(ds[..n], max).value == PrefixValue(ds, n) % TWO64
  {
    if n > 0 {
      hide Stored, Accumulate, PrefixValue, NoticedAt;
      StoredModulo(ds, max, n - 1);
      StoredNext(ds, n - 1, max);
      AccumulateModulo(ds, max, n);
    }
  }

  // ----- the promise: an integer literal that fits is stored as it is, any other becomes a float -----

  /** The smallest magnitude whose overflow can go unnoticed. */
  const UNNOTICED := 20496382304121724017

  /** A literal that fits is stored exactly. */
  lemma FittingIsExact(ds: Str, max: nat)
    requires AllDigits(ds) && Value(ds) <= max < TWO64
    ensures Stored(ds, max) == Some(Value(ds))
  {
    hide Stored, NoticedAt, Value;
    forall k | 0 < k <= |ds| ensures !NoticedAt(ds, max, k) { NeverNoticed(ds, max, k); }
    StoredModulo(ds, max, |ds|);
    assert ds[..|ds|] == ds;
  }

  lemma NeverNoticed(ds: Str, max: nat, k: nat)
    requires AllDigits(ds) && Value(ds) <= max < TWO64 && 0 < k <= |ds|
    ensures !NoticedAt(ds, max, k)
  {
    hide Value;
    PrefixMonotone(ds, k, |ds|);
    PrefixMonotone(ds, k - 1, k);
    assert ds[..|ds|] == ds;
  }

  /** The documented promise holds of a literal exactly if it fits or one of its digits is noticed. */
  lemma PromiseKept(ds: Str, max: nat)
    requires AllDigits(ds) && max < TWO64
    ensures Stored(ds, max) == (if Value(ds) <= max then Some(Value(ds)) else None)
      <==> Value(ds) <= max || exists k :: 0 < k <= |ds| && NoticedAt(ds, max, k)
  {
    StoredModulo(ds, max, |ds|);
    assert ds[..|ds|] == ds;
    if Value(ds) <= max { FittingIsExact(ds, max); }
  }

  /** The first prefix beyond the limit. */
  lemma {:induction false} FirstBeyond(ds: Str, max: nat, n: nat) returns (k: nat)
    requires AllDigits(ds) && n <= |ds| && PrefixValue(ds, n) > max
    ensures 0 < k <= n && PrefixValue(ds, k) > max && PrefixValue(ds, k - 1) <= max
  {
    assert ds[..0] == [];
    if PrefixValue(ds, n - 1) <= max {
      k := n;
    } else {
      k := FirstBeyond(ds, max, n - 1);
    }
  }

  /** Below the bound every literal that does not fit becomes a float, with either sign. */
  lemma BelowBoundIsFloat(ds: Str, negative: bool)
    requires AllDigits(ds) && Limit(negative) < Value(ds) < UNNOTICED
    ensures Stored(ds, Limit(negative)).None?
  {
    var max := Limit(negative);
    assert ds[..|ds|] == ds;
    var k := FirstBeyond(ds, max, |ds|);
    PrefixMonotone(ds, k, |ds|);
    PrefixStep(ds, k);
    NoticedBelowBound(PrefixValue(ds, k - 1), DigitValue(ds[k - 1]), max);
    assert NoticedAt(ds, max, k);
    StoredModulo(ds, max, |ds|);
  }

  lemma NoticedBelowBound(v: nat, d: nat, max: nat)
    requires d < 10 && v <= max < TWO64 && max >= INT64_MAX + 1 && max < v * 10 + d < UNNOTICED
    ensures (v * 10 + d) % TWO64 < v % TWO64 || (v * 10 + d) % TWO64 > max
  {
    var w := v * 10 + d;
    assert v % TWO64 == v;
    if w >= TWO64 {
      assert w % TWO64 == w - TWO64;
    } else {
      assert w % TWO64 == w;
    }
  }

  /** At the bound, the overflow of the last digit goes unnoticed: the literal is stored as a number
      with a tenth of its magnitude. */
  lemma AtBoundIsStored(ds: Str, negative: bool)
    requires AllDigits(ds) && Value(ds) == UNNOTICED && |ds| == 20
    ensures Stored(ds, Limit(negative)) == Some(2049638230412172401)
  {
    var init := ds[..19];
    assert Value(init) * 10 + DigitValue(ds[19]) == UNNOTICED;
    assert Value(init) == 2049638230412172401 && DigitValue(ds[19]) == 7;
    FittingIsExact(init, Limit(negative));
  }

  /** The literal at the bound, with either sign. */
  lemma BoundIsTight()
    ensures NumberValue(Dec(UNNOTICED)) == UInt(2049638230412172401)
    ensures NumberValue([MINUS] + Dec(UNNOTICED)) == Int(-2049638230412172401)
  {
    hide Stored, Value, Dec;
    var ds := Dec(UNNOTICED);
    DecDenotes(UNNOTICED);
    BoundHasTwentyDigits();
    AtBoundIsStored(ds, false);
    AtBoundIsStored(ds, true);
    assert IsDigit(ds[0]);
    assert Magnitude([MINUS] + ds) == ds;
  }

  lemma BoundHasTwentyDigits()
    ensures |Dec(UNNOTICED)| == 20
  {
    hide Dec;
    assert Power10(10) == 10000000000;
    assert Power10(19) == 10000000000000000000 && Power10(20) == 100000000000000000000;
    DecDigits(UNNOTICED, 20);
  }

  /** The number of digits of a number between two powers of ten. */
  lemma {:induction false} DecDigits(n: nat, d: nat)
    requires d > 0 && (d > 1 ==> Power10(d - 1) <= n) && n < Power10(d)
    ensures |Dec(n)| == d
  {
    if d > 1 {
      DecDigits(n / 10, d - 1);
    }
  }

  ghost function Power10(d: nat): nat {
    if d == 0 then 1 else 10 * Power10(d - 1)
  }

  /** What get_number makes of an integer literal, sign included. */
  lemma IntegerLiterals(lexeme: Str)
    requires AllDigits(Magnitude(lexeme))
    ensures var n := Value(Magnitude(lexeme));
      n <= Limit(IsNegative(lexeme)) ==>
        NumberValue(lexeme) == if IsNegative(lexeme) then Int(0 - n) else UInt(n)
    ensures var n := Value(Magnitude(lexeme));
      Limit(IsNegative(lexeme)) < n < UNNOTICED ==> NumberValue(lexeme) == Float(lexeme)
    ensures NumberValue(lexeme).UInt? ==> NumberValue(lexeme).u == Value(Magnitude(lexeme)) % TWO64
    ensures NumberValue(lexeme).Int? ==> 0 - NumberValue(lexeme).i == Value(Magnitude(lexeme)) % TWO64
  {
    var ds, negative := Magnitude(lexeme), IsNegative(lexeme);
    if Value(ds) <= Limit(negative) { FittingIsExact(ds, Limit(negative)); }
    if Limit(negative) < Value(ds) < UNNOTICED { BelowBoundIsFloat(ds, negative); }
    StoredModulo(ds, Limit(negative), |ds|);
    assert ds[..|ds|] == ds;
  }
}
