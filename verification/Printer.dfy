/** dump(): escaping strings in a preallocated buffer, and writing values. */
module Printer {
  import opened Bytes
  import opened Json

  const NULL_TEXT: Str := [0x6E, 0x75, 0x6C, 0x6C]         // null
  const TRUE_TEXT: Str := [0x74, 0x72, 0x75, 0x65]         // true
  const FALSE_TEXT: Str := [0x66, 0x61, 0x6C, 0x73, 0x65]  // false

  // ----- string escapes -----

  /** The letter of a two-byte escape, if the byte has one. */
  function ShortEscape(c: byte): Option<byte> {
    if c == QUOTE then Some(QUOTE)
    else if c == BACKSLASH then Some(BACKSLASH)
    else if c == 0x08 then Some(0x62)  // \b
    else if c == 0x0C then Some(0x66)  // \f
    else if c == 0x0A then Some(0x6E)  // \n
    else if c == 0x0D then Some(0x72)  // \r
    else if c == 0x09 then Some(0x74)  // \t
    else None
  }

  /** A hexadecimal digit, in lower case. */
  function Hexify(v: int): byte
    requires 0 <= v < 16
  {
    if v < 10 then (0x30 + v) as byte else (0x61 + v - 10) as byte
  }

  /** What a byte looks like inside a JSON string. */
  function EscapedByte(c: byte): (r: Str)
    ensures 1 <= |r| <= 6
  {
    if ShortEscape(c).Some? then [BACKSLASH, ShortEscape(c).value]
    else if c <= 0x1F then [BACKSLASH, 0x75, ZERO, ZERO, Hexify(c as int / 16), Hexify(c as int % 16)]
    else [c]
  }

  function EscapedText(s: Str): Str {
    if s == [] then [] else EscapedByte(s[0]) + EscapedText(s[1..])
  }

  lemma {:induction false} EscapedTextConcat(a: Str, b: Str)
    ensures EscapedText(a + b) == EscapedText(a) + EscapedText(b)
  {
    if a == [] {
      assert a + b == b;
    } else {
      assert (a + b)[1..] == a[1..] + b;
      EscapedTextConcat(a[1..], b);
    }
  }

  lemma EscapedTextNext(s: Str, n: nat)
    requires n < |s|
    ensures EscapedText(s[..n + 1]) == EscapedText(s[..n]) + EscapedByte(s[n])
    ensures EscapedText(s[n..]) == EscapedByte(s[n]) + EscapedText(s[n + 1..])
  {
    assert s[..n + 1] == s[..n] + [s[n]];
    EscapedTextConcat(s[..n], [s[n]]);
    assert EscapedText([s[n]]) == EscapedByte(s[n]) + EscapedText([]);
    assert s[n..][1..] == s[n + 1..];
  }

  /** extra_space: by how much escaping lengthens the text. */
  method ExtraSpace(s: Str) returns (result: nat)
    ensures |s| + result == |EscapedText(s)|
  {
    result := 0;
    assert s[..0] == [];
    for n := 0 to |s|
      invariant n + result == |EscapedText(s[..n])|
    {
      EscapedTextNext(s, n);
      var c := s[n];
      if c == QUOTE || c == BACKSLASH || c == 0x08 || c == 0x0C || c == 0x0A || c == 0x0D || c == 0x09 {
        result := result + 1;
      } else if c <= 0x1F {
        result := result + 5;
      }
    }
    assert s[..|s|] == s;
  }

  /** No byte needs escaping exactly if escaping does not lengthen the text. */
  lemma {:induction false} EscapedTextUnchanged(s: Str)
    ensures |EscapedText(s)| >= |s|
    ensures |EscapedText(s)| == |s| ==> EscapedText(s) == s
  {
    if s != [] {
      EscapedTextUnchanged(s[1..]);
      assert s == [s[0]] + s[1..];
    }
  }

  lemma EscapedNothing()
    ensures EscapedText([]) == []
  {
  }

  /** The buffer starts out full of backslashes; the loop writes everything else and ends at its end. */
  method EscapeString(s: Str) returns (r: Str)
    ensures r == EscapedText(s)
  {
    var space := ExtraSpace(s);
    EscapedTextUnchanged(s);
    EscapedNothing();
    hide EscapedText, EscapedByte;
    if space == 0 {
      return s;
    }
    var result := new byte[|s| + space](_ => BACKSLASH);
    var pos := 0;
    assert s[..0] == [] && s[0..] == s && result[..0] == [];
    for n := 0 to |s|
      invariant pos == |EscapedText(s[..n])|
      invariant pos + |EscapedText(s[n..])| == result.Length
      invariant result[..pos] == EscapedText(s[..n])
      invariant forall i | pos <= i < result.Length :: result[i] == BACKSLASH
    {
      EscapedTextNext(s, n);
      ghost var before := result[..pos];
      ghost var start := pos;
      pos := WriteEscaped(result, pos, s[n]);
      assert result[..pos] == result[..start] + result[start..pos];
      assert result[..start] == before;
    }
    assert s[..|s|] == s && s[|s|..] == [];
    r := result[..];
    assert result[..result.Length] == result[..];
  }

  lemma EscapedByteIs(c: byte)
    ensures c == QUOTE || c == BACKSLASH ==> EscapedByte(c) == [BACKSLASH, c]
    ensures c == 0x08 ==> EscapedByte(c) == [BACKSLASH, 0x62]
    ensures c == 0x0C ==> EscapedByte(c) == [BACKSLASH, 0x66]
    ensures c == 0x0A ==> EscapedByte(c) == [BACKSLASH, 0x6E]
    ensures c == 0x0D ==> EscapedByte(c) == [BACKSLASH, 0x72]
    ensures c == 0x09 ==> EscapedByte(c) == [BACKSLASH, 0x74]
    ensures c <= 0x1F && c !in {0x08, 0x09, 0x0A, 0x0C, 0x0D} ==>
      EscapedByte(c) == [BACKSLASH] + [0x75, ZERO, ZERO, Hexify(c as int / 16), Hexify(c as int % 16)]
    ensures c > 0x1F && c != QUOTE && c != BACKSLASH ==> EscapedByte(c) == [c]
  {
  }

  /** The body of the loop: cells that are not written keep their backslash. */
  method WriteEscaped(result: array<byte>, start: nat, c: byte) returns (pos: nat)
    requires start + |EscapedByte(c)| <= result.Length
    requires forall i | start <= i < start + |EscapedByte(c)| :: result[i] == BACKSLASH
    modifies result
    ensures pos == start + |EscapedByte(c)|
    ensures result[start..pos] == EscapedByte(c)
    ensures forall i | 0 <= i < result.Length && !(start <= i < pos) :: result[i] == old(result[i])
  {
    EscapedByteIs(c);
    hide EscapedByte, Hexify;
    pos := start;
    if c == QUOTE {
      result[pos + 1] := QUOTE;
      pos := pos + 2;
    } else if c == BACKSLASH {
      pos := pos + 2;
    } else if c == 0x08 {
      result[pos + 1] := 0x62;
      pos := pos + 2;
    } else if c == 0x0C {
      result[pos + 1] := 0x66;
      pos := pos + 2;
    } else if c == 0x0A {
      result[pos + 1] := 0x6E;
      pos := pos + 2;
    } else if c == 0x0D {
      result[pos + 1] := 0x72;
      pos := pos + 2;
    } else if c == 0x09 {
      result[pos + 1] := 0x74;
      pos := pos + 2;
    } else if c <= 0x1F {
      var text: Str := [0x75, ZERO, ZERO, Hexify(c as int / 16), Hexify(c as int % 16)];
      for k := 0 to 5
        invariant pos == start + k
        invariant result[start] == BACKSLASH
        invariant forall i | start < i <= pos :: result[i] == text[i - start - 1]
        invariant forall i | 0 <= i < result.Length && !(start <= i <= pos) :: result[i] == old(result[i])
      {
        pos := pos + 1;
        result[pos] := text[k];
      }
      pos := pos + 1;
    } else {
      result[pos] := c;
      pos := pos + 1;
    }
    assert forall i | 0 <= i < |EscapedByte(c)| :: result[start + i] == EscapedByte(c)[i];
    assert result[start..pos] == EscapedByte(c);
  }

  // ----- dump -----

  /** std::ostream << integer. */
  function IntegerText(n: int): Str {
    if n < 0 then [MINUS] + Dec(-n) else Dec(n)
  }

  function Spaces(n: nat): (s: Str)
    ensures |s| == n && forall i | 0 <= i < n :: s[i] == SPACE
  {
    seq(n, _ => SPACE)
  }

  /** The indentation counter is an unsigned 32-bit number. */
  type indent = n: nat | n < 0x1_0000_0000

  /** How a value is to be laid out. */
  datatype Layout = Layout(pretty: bool, step: indent)
  {
    function Deeper(current: indent): indent {
      if pretty then (current + step) % 0x1_0000_0000 else current
    }

    function Break(): Str {
      if pretty then [NEWLINE] else []
    }
  }

  /** The text of a value; `current` is the indentation of the line it starts on. */
  function ValueText(j: Json, l: Layout, current: indent): Str
    decreases j, 1, 0
  {
    match j
    case Null => NULL_TEXT
    case Bool(b) => if b then TRUE_TEXT else FALSE_TEXT
    case Int(i) => IntegerText(i)
    case UInt(u) => IntegerText(u)
    case Float(literal) => literal
    case Text(s) => Quoted(s)
    case Arr(items) =>
      if items == [] then [LBRACKET, RBRACKET] else
        [LBRACKET] + l.Break() + ItemsText(j, |items|, l, l.Deeper(current)) + l.Break() + Spaces(current) + [RBRACKET]
    case Obj(members) =>
      if members == map[] then [LBRACE, RBRACE] else
        [LBRACE] + l.Break()
        + MembersText(j, SortedKeys(members.Keys), |SortedKeys(members.Keys)|, l, l.Deeper(current))
        + l.Break() + Spaces(current) + [RBRACE]
  }

  function Quoted(s: Str): Str {
    [QUOTE] + EscapedText(s) + [QUOTE]
  }

  /** What precedes an item on the output: a comma unless it is the first one, and the indentation. */
  function Lead(first: bool, l: Layout, current: indent): Str {
    (if first then [] else [COMMA] + l.Break()) + Spaces(current)
  }

  /** What precedes the value of a member. */
  function KeyLead(first: bool, k: Str, l: Layout, current: indent): Str {
    Lead(first, l, current) + Quoted(k) + [COLON] + (if l.pretty then [SPACE] else [])
  }

  /** The first n items, separated by commas. */
  function ItemsText(j: Json, n: nat, l: Layout, current: indent): Str
    requires j.Arr? && n <= |j.items|
    decreases j, 0, n
  {
    if n == 0 then [] else
      ItemsText(j, n - 1, l, current) + (Lead(n == 1, l, current) + ValueText(j.items[n - 1], l, current))
  }

  /** The first n of the given members, separated by commas. */
  function MembersText(j: Json, ks: seq<Str>, n: nat, l: Layout, current: indent): Str
    requires j.Obj? && n <= |ks| && forall k | k in ks :: k in j.members
    decreases j, 0, n
  {
    if n == 0 then [] else
      MembersText(j, ks, n - 1, l, current)
      + (KeyLead(n == 1, ks[n - 1], l, current) + ValueText(j.members[ks[n - 1]], l, current))
  }

  /** dump to a stream: the value is appended to what was written before. */
  method DumpTo(j: Json, o: Str, l: Layout, current: indent) returns (r: Str)
    ensures r == o + ValueText(j, l, current)
    decreases j, 1
  {
    match j {
      case Obj(members) =>
        if members == map[] {
          return o + [LBRACE, RBRACE];
        }
        r := DumpMembers(j, o + [LBRACE] + l.Break(), l, l.Deeper(current));
        var ks := SortedKeys(members.Keys);
        var body := MembersText(j, ks, |ks|, l, l.Deeper(current));
        Regroup(o, [LBRACE], l.Break(), body, l.Break(), Spaces(current), [RBRACE]);
        r := r + l.Break() + Spaces(current) + [RBRACE];
      case Arr(items) =>
        if items == [] {
          return o + [LBRACKET, RBRACKET];
        }
        r := DumpItems(j, o + [LBRACKET] + l.Break(), l, l.Deeper(current));
        var body := ItemsText(j, |items|, l, l.Deeper(current));
        Regroup(o, [LBRACKET], l.Break(), body, l.Break(), Spaces(current), [RBRACKET]);
        r := r + l.Break() + Spaces(current) + [RBRACKET];
      case Text(s) =>
        var e := EscapeString(s);
        r := o + ([QUOTE] + e + [QUOTE]);
      case Bool(b) => r := o + (if b then TRUE_TEXT else FALSE_TEXT);
      case Int(i) => r := o + IntegerText(i);
      case UInt(u) => r := o + IntegerText(u);
      case Float(literal) => r := o + literal;
      case Null => r := o + NULL_TEXT;
    }
  }

  lemma Regroup(a: Str, b: Str, c: Str, d: Str, e: Str, f: Str, g: Str)
    ensures a + b + c + d + e + f + g == a + (b + c + d + e + f + g)
  {
  }

  method DumpItems(j: Json, o: Str, l: Layout, current: indent) returns (r: Str)
    requires j.Arr?
    ensures r == o + ItemsText(j, |j.items|, l, current)
    decreases j, 0
  {
    r := o;
    for n := 0 to |j.items|
      invariant r == o + ItemsText(j, n, l, current)
    {
      hide ValueText, Lead;
      var lead := Lead(n == 0, l, current);
      Append4(o, ItemsText(j, n, l, current), lead, ValueText(j.items[n], l, current));
      r := DumpTo(j.items[n], r + lead, l, current);
    }
  }

  lemma Append3(o: Str, a: Str, b: Str)
    ensures o + a + b == o + (a + b)
  {
  }

  lemma Append4(o: Str, a: Str, b: Str, c: Str)
    ensures o + a + b + c == o + (a + (b + c))
  {
  }

  method DumpMember(j: Json, first: bool, k: Str, o: Str, l: Layout, current: indent) returns (r: Str)
    requires j.Obj? && k in j.members
    ensures r == o + (KeyLead(first, k, l, current) + ValueText(j.members[k], l, current))
    decreases j, 0, 0
  {
    var key := EscapeString(k);
    hide ValueText, Lead, EscapedText;
    var lead := Lead(first, l, current) + ([QUOTE] + key + [QUOTE]) + [COLON] + (if l.pretty then [SPACE] else []);
    Append3(o, lead, ValueText(j.members[k], l, current));
    r := DumpTo(j.members[k], o + lead, l, current);
  }

  /** One more member; the keys are those of the object. */
  lemma NextMember(j: Json, ks: seq<Str>, n: nat, o: Str, l: Layout, current: indent)
    requires j.Obj? && n < |ks| && forall k | k in ks :: k in j.members
    ensures ks[n] in j.members
    ensures o + MembersText(j, ks, n, l, current)
            + (KeyLead(n == 0, ks[n], l, current) + ValueText(j.members[ks[n]], l, current)) ==
            o + MembersText(j, ks, n + 1, l, current)
  {
    hide ValueText, KeyLead;
    assert ks[n] in ks;
    Append3(o, MembersText(j, ks, n, l, current),
            KeyLead(n == 0, ks[n], l, current) + ValueText(j.members[ks[n]], l, current));
  }

  /** The loop over the members, in the order of the given keys. */
  method DumpKeys(j: Json, ks: seq<Str>, o: Str, l: Layout, current: indent) returns (r: Str)
    requires j.Obj? && forall k | k in ks :: k in j.members
    ensures r == o + MembersText(j, ks, |ks|, l, current)
    decreases j, 0, 1
  {
    r := o;
    for n := 0 to |ks|
      invariant r == o + MembersText(j, ks, n, l, current)
    {
      hide MembersText, ValueText, KeyLead;
      NextMember(j, ks, n, o, l, current);
      r := DumpMember(j, n == 0, ks[n], r, l, current);
    }
  }

  method DumpMembers(j: Json, o: Str, l: Layout, current: indent) returns (r: Str)
    requires j.Obj?
    ensures r == o + MembersText(j, SortedKeys(j.members.Keys), |SortedKeys(j.members.Keys)|, l, current)
    decreases j, 0, 2
  {
    hide MembersText, SortedKeys, Ascending;
    r := DumpKeys(j, SortedKeys(j.members.Keys), o, l, current);
  }

  /** dump(indent): a negative argument selects the compact form. */
  function LayoutOf(indent: int): Layout
    requires indent < 0x8000_0000
  {
    if indent >= 0 then Layout(true, indent) else Layout(false, 0)
  }

  function Dumped(j: Json, indent: int): Str
    requires indent < 0x8000_0000
  {
    ValueText(j, LayoutOf(indent), 0)
  }

  /** The text that goes over the wire: dump() without an argument. */
  function Compact(j: Json): Str {
    Dumped(j, -1)
  }

  method Dump(j: Json, indent: int) returns (text: Str)
    requires indent < 0x8000_0000
    ensures text == Dumped(j, indent)
  {
    text := DumpTo(j, [], LayoutOf(indent), 0);
  }
}
