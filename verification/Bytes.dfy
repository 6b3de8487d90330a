/** Byte strings, their order, and the decimal notation used for indices and integers. */
module Bytes {

  newtype byte = x: int | 0 <= x < 256

  type Str = seq<byte>

  const NUL: byte := 0x00
  const NEWLINE: byte := 0x0A
  const SPACE: byte := 0x20
  const QUOTE: byte := 0x22
  const PLUS: byte := 0x2B
  const COMMA: byte := 0x2C
  const MINUS: byte := 0x2D
  const DOT: byte := 0x2E
  const SLASH: byte := 0x2F
  const ZERO: byte := 0x30
  const ONE: byte := 0x31
  const COLON: byte := 0x3A
  const LBRACKET: byte := 0x5B
  const BACKSLASH: byte := 0x5C
  const RBRACKET: byte := 0x5D
  const LBRACE: byte := 0x7B
  const RBRACE: byte := 0x7D
  const TILDE: byte := 0x7E

  /** The bytes of an ASCII text. */
  function Ascii(s: string): Str
    requires forall c | c in s :: c as int < 128
  {
    seq(|s|, i requires 0 <= i < |s| => assert s[i] in s; s[i] as int as byte)
  }

  datatype Option<+T> = None | Some(value: T)

  /** A value, or the class of the exception that the library throws instead. */
  datatype Result<+T> = Ok(value: T) | Err(error: Error)

  datatype Error =
    | InvalidArgument  // std::invalid_argument
    | DomainError      // std::domain_error
    | OutOfRange       // std::out_of_range
    | OutOfMemory      // std::bad_alloc
    | AssertionFailed  // assert(false) in the source

  // ----- lexicographic order: operator< of std::string -----

  predicate LexLt(a: Str, b: Str) {
    b != [] && (a == [] || a[0] < b[0] || (a[0] == b[0] && LexLt(a[1..], b[1..])))
  }

  lemma {:induction false} LexTrichotomy(a: Str, b: Str)
    ensures LexLt(a, b) || a == b || LexLt(b, a)
    ensures !(LexLt(a, b) && LexLt(b, a))
    ensures !LexLt(a, a)
  {
    if a != [] {
      LexTrichotomy(a[1..], if b == [] then [] else b[1..]);
      if b != [] && a[0] == b[0] && a[1..] == b[1..] {
        assert a == [a[0]] + a[1..] == b;
      }
    }
  }

  lemma {:induction false} LexTransitive(a: Str, b: Str, c: Str)
    requires LexLt(a, b) && LexLt(b, c)
    ensures LexLt(a, c)
  {
    if a != [] && a[0] == b[0] == c[0] {
      LexTransitive(a[1..], b[1..], c[1..]);
    }
  }

  lemma {:induction false} LexCommonPrefix(p: Str, a: Str, b: Str)
    ensures LexLt(p + a, p + b) == LexLt(a, b)
  {
    if p == [] {
      assert p + a == a && p + b == b;
    } else {
      assert (p + a)[1..] == p[1..] + a && (p + b)[1..] == p[1..] + b;
      LexCommonPrefix(p[1..], a, b);
    }
  }

  // ----- the key order of a std::map -----

  predicate Ascending(ks: seq<Str>) {
    forall i, j | 0 <= i < j < |ks| :: LexLt(ks[i], ks[j])
  }

  predicate IsLeast(k: Str, s: set<Str>) {
    k in s && forall x | x in s :: x == k || LexLt(k, x)
  }

  lemma {:induction false} LeastExists(s: set<Str>)
    requires s != {}
    ensures exists k :: IsLeast(k, s)
  {
    hide LexLt;
    var y :| y in s;
    if s == {y} {
      assert IsLeast(y, s);
    } else {
      LeastExists(s - {y});
      var k :| IsLeast(k, s - {y});
      LexTrichotomy(k, y);
      if LexLt(y, k) {
        forall x | x in s ensures x == y || LexLt(y, x) {
          if x != y && x != k { LexTransitive(y, k, x); }
        }
        assert IsLeast(y, s);
      } else {
        assert IsLeast(k, s);
      }
    }
  }

  function Least(s: set<Str>): (k: Str)
    requires s != {}
    ensures IsLeast(k, s)
  {
    LeastExists(s);
    assert forall a, b | IsLeast(a, s) && IsLeast(b, s) :: a == b by {
      forall a, b | IsLeast(a, s) && IsLeast(b, s) ensures a == b { LexTrichotomy(a, b); }
    }
    var k :| k in s && IsLeast(k, s);
    k
  }

  /** The keys in the order in which a std::map iterates over them. */
  function SortedKeys(s: set<Str>): (ks: seq<Str>)
    ensures forall k :: k in ks <==> k in s
    ensures |ks| == |s|
    ensures Ascending(ks)
  {
    if s == {} then [] else
      var k := Least(s);
      var ks := SortedKeys(s - {k});
      AscendingCons(k, ks, s);
      [k] + ks
  }

  lemma AscendingCons(k: Str, ks: seq<Str>, s: set<Str>)
    requires IsLeast(k, s) && Ascending(ks) && forall x | x in ks :: x in s && x != k
    ensures Ascending([k] + ks)
  {
    hide LexLt;
    var all := [k] + ks;
    forall i, j | 0 <= i < j < |all| ensures LexLt(all[i], all[j]) {
      assert all[j] == ks[j - 1];
    }
  }

  /** An ascending sequence is determined by its elements. */
  lemma {:induction false} AscendingIsUnique(ks: seq<Str>, ls: seq<Str>)
    requires Ascending(ks) && Ascending(ls)
    requires forall k :: k in ks <==> k in ls
    ensures ks == ls
  {
    assert ks != [] ==> ks[0] in ls;
    assert ls != [] ==> ls[0] in ks;
    if ks != [] {
      LexTrichotomy(ks[0], ls[0]);
      LexTrichotomy(ks[0], ks[0]);
      LexTrichotomy(ls[0], ls[0]);
      assert ks[0] in ls && ls[0] in ks;
      assert ks[0] == ls[0];
      forall k ensures k in ks[1..] <==> k in ls[1..] {
        assert k in ks <==> k in ls;
        if k in ks[1..] { assert LexLt(ks[0], k); }
        if k in ls[1..] { assert LexLt(ls[0], k); }
      }
      AscendingIsUnique(ks[1..], ls[1..]);
      assert ks == [ks[0]] + ks[1..] && ls == [ls[0]] + ls[1..];
    }
  }

  lemma SortedKeysInjective(s: set<Str>, t: set<Str>)
    ensures SortedKeys(s) == SortedKeys(t) <==> s == t
  {
    if SortedKeys(s) == SortedKeys(t) {
      assert forall k :: k in s <==> k in SortedKeys(s);
      assert forall k :: k in t <==> k in SortedKeys(t);
    }
  }

  // ----- decimal notation -----

  predicate IsDigit(c: byte) {
    0x30 <= c <= 0x39
  }

  predicate AllDigits(s: Str) {
    forall i | 0 <= i < |s| :: IsDigit(s[i])
  }

  /** std::to_string of a natural number. */
  function Dec(n: nat): (s: Str)
    ensures s != [] && AllDigits(s)
    ensures n > 0 ==> s[0] != ZERO
    ensures n == 0 <==> s == [ZERO]
    ensures |s| == 1 <==> n < 10
  {
    if n < 10 then [(0x30 + n) as byte] else Dec(n / 10) + [(0x30 + n % 10) as byte]
  }

  function DigitValue(c: byte): nat
    requires IsDigit(c)
  {
    c as int - 0x30
  }

  /** The number that a run of digits denotes. */
  function Value(s: Str): nat
    requires AllDigits(s)
  {
    if s == [] then 0 else Value(s[..|s| - 1]) * 10 + DigitValue(s[|s| - 1])
  }

  lemma {:induction false} DecDenotes(n: nat)
    ensures Value(Dec(n)) == n
  {
    if n >= 10 {
      DecDenotes(n / 10);
      assert Dec(n)[..|Dec(n)| - 1] == Dec(n / 10);
    } else {
      assert Dec(n)[..0] == [];
    }
  }

  lemma DecInjective(m: nat, n: nat)
    requires Dec(m) == Dec(n)
    ensures m == n
  {
    DecDenotes(m);
    DecDenotes(n);
  }
}
