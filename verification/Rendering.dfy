/** The layout of printed text, told from its tokens alone. */
module Rendering {
  import opened Bytes
  import opened Json
  import opened Printer
  import opened Lexical
  import opened Grammar
  import opened RoundTrip
  import opened Spelling

  // ----- escapes -----

  /** What a byte looks like inside a printed string: the two-byte escapes, six bytes with lower-case digits
      for the other control characters, and every other byte as it is. */
  lemma EscapeTable(c: byte)
    ensures c == 0x22 ==> EscapedByte(c) == Ascii("\\\"")
    ensures c == 0x5C ==> EscapedByte(c) == Ascii("\\\\")
    ensures c == 0x08 ==> EscapedByte(c) == Ascii("\\b")
    ensures c == 0x09 ==> EscapedByte(c) == Ascii("\\t")
    ensures c == 0x0A ==> EscapedByte(c) == Ascii("\\n")
    ensures c == 0x0C ==> EscapedByte(c) == Ascii("\\f")
    ensures c == 0x0D ==> EscapedByte(c) == Ascii("\\r")
    ensures c < 0x20 && c !in {0x08, 0x09, 0x0A, 0x0C, 0x0D} ==>
      EscapedByte(c) == Ascii("\\u00") + [LowerDigit(c as int / 16), LowerDigit(c as int % 16)]
    ensures c >= 0x20 && c != 0x22 && c != 0x5C ==> EscapedByte(c) == [c]
  {
  }

  function LowerDigit(n: nat): byte
    requires n < 16
  {
    Ascii("0123456789abcdef")[n]
  }

  // ----- layout -----

  predicate Opens(t: Token) {
    t == BeginArray || t == BeginObject
  }

  predicate Closes(t: Token) {
    t == EndArray || t == EndObject
  }

  /** How many brackets are open behind a token. */
  function Behind(t: Token, depth: int): int {
    if Opens(t) then depth + 1 else if Closes(t) then depth - 1 else depth
  }

  function BehindAll(ts: seq<Token>, depth: int): int {
    if ts == [] then depth else BehindAll(ts[1..], Behind(ts[0], depth))
  }

  /** Indentation at a depth; the source counts in 32 bits. */
  function Indent(l: Layout, depth: int): indent {
    if l.pretty && depth >= 0 then (depth * l.step) % 0x1_0000_0000 else 0
  }

  function NewLine(l: Layout, depth: int): Str {
    [0x0A] + Spaces(Indent(l, depth))
  }

  /** What stands between two tokens, `depth` brackets being open. In the compact layout it is nothing. In the
      other one there is a space behind a colon and a new line behind a comma, behind an opening bracket and
      in front of a closing one; only between the two brackets of an empty container there is nothing. */
  function Gap(prev: Token, next: Token, depth: int, l: Layout): Str {
    if !l.pretty then []
    else if prev == NameSeparator then [0x20]
    else if prev == ValueSeparator then NewLine(l, depth)
    else if Opens(prev) then (if Closes(next) then [] else NewLine(l, depth))
    else if Closes(next) then NewLine(l, depth - 1)
    else []
  }

  function Rendered(ts: seq<Token>, depth: int, l: Layout): Str {
    if ts == [] then [] else
      var d := Behind(ts[0], depth);
      Spelled(ts[0]) + (if |ts| == 1 then [] else Gap(ts[0], ts[1], d, l)) + Rendered(ts[1..], d, l)
  }

  lemma {:induction false} RenderedConcat(a: seq<Token>, b: seq<Token>, depth: int, l: Layout)
    requires a != [] && b != []
    ensures Rendered(a + b, depth, l) ==
            Rendered(a, depth, l)
            + (Gap(a[|a| - 1], b[0], BehindAll(a, depth), l) + Rendered(b, BehindAll(a, depth), l))
  {
    hide Gap, Spelled, Behind;
    var d := Behind(a[0], depth);
    assert (a + b)[1..] == a[1..] + b;
    if |a| == 1 {
      assert a[1..] == [] && (a + b)[1..] == b;
      assert BehindAll(a, depth) == d;
      RenderedOne(a[0], depth, l);
      assert a == [a[0]];
      Bytes3(Spelled(a[0]), Gap(a[0], b[0], d, l), Rendered(b, d, l));
    } else {
      RenderedConcat(a[1..], b, d, l);
      Bytes3(Spelled(a[0]) + Gap(a[0], a[1], d, l), Rendered(a[1..], d, l),
             Gap(a[|a| - 1], b[0], BehindAll(a, depth), l) + Rendered(b, BehindAll(a, depth), l));
    }
  }

  lemma RenderedOne(t: Token, depth: int, l: Layout)
    ensures Rendered([t], depth, l) == Spelled(t)
  {
    hide Spelled;
    assert Spelled(t) + [] + [] == Spelled(t);
  }

  lemma Bytes3(a: Str, b: Str, c: Str)
    ensures a + b + c == a + (b + c)
  {
  }

  lemma {:induction false} BehindConcat(a: seq<Token>, b: seq<Token>, depth: int)
    ensures BehindAll(a + b, depth) == BehindAll(b, BehindAll(a, depth))
  {
    if a == [] {
      assert a + b == b;
    } else {
      assert (a + b)[1..] == a[1..] + b;
      BehindConcat(a[1..], b, Behind(a[0], depth));
    }
  }

  // ----- the tokens of a value -----

  /** They leave no bracket open, and neither start like the end of a value nor end like its beginning. */
  predicate Solid(ts: seq<Token>) {
    && ts != [] && !Closes(ts[0]) && ts[0] != ValueSeparator && ts[0] != NameSeparator
    && !Opens(ts[|ts| - 1]) && ts[|ts| - 1] != ValueSeparator && ts[|ts| - 1] != NameSeparator
  }

  ghost predicate Balanced(ts: seq<Token>) {
    forall depth: int :: BehindAll(ts, depth) == depth
  }

  lemma OneIsBalanced(t: Token)
    requires !Opens(t) && !Closes(t)
    ensures Balanced([t])
  {
    forall depth: int ensures BehindAll([t], depth) == depth {
      assert [t][1..] == [];
    }
  }

  lemma BothAreBalanced(a: seq<Token>, b: seq<Token>)
    requires Balanced(a) && Balanced(b)
    ensures Balanced(a + b)
  {
    forall depth: int ensures BehindAll(a + b, depth) == depth {
      BehindConcat(a, b, depth);
    }
  }

  lemma BracketsAreBalanced(open: Token, body: seq<Token>, close: Token)
    requires Opens(open) && Closes(close) && Balanced(body)
    ensures Balanced([open] + body + [close])
  {
    forall depth: int ensures BehindAll([open] + body + [close], depth) == depth {
      BehindOpen(open, depth);
      BehindOpen(close, depth + 1);
      BehindConcat([open], body, depth);
      BehindConcat([open] + body, [close], depth);
    }
  }

  lemma BehindOpen(t: Token, depth: int)
    ensures BehindAll([t], depth) == Behind(t, depth)
  {
    assert [t][1..] == [];
  }

  /** A comma between two parts. */
  lemma Separated(a: seq<Token>, b: seq<Token>, depth: nat, l: Layout)
    requires Solid(a) && Balanced(a) && Solid(b) && Balanced(b)
    ensures var all := a + ([ValueSeparator] + b);
      Solid(all) && Balanced(all)
      && Rendered(all, depth, l) == Rendered(a, depth, l) + (Lead(false, l, Indent(l, depth)) + Rendered(b, depth, l))
  {
    hide Rendered, Balanced, Indent;
    var comma := [ValueSeparator];
    OneIsBalanced(ValueSeparator);
    BothAreBalanced(comma, b);
    BothAreBalanced(a, comma + b);
    InBalance(a, depth);
    InBalance(comma, depth);
    RenderedConcat(a, comma + b, depth, l);
    RenderedConcat(comma, b, depth, l);
    RenderedOne(ValueSeparator, depth, l);
    SpelledIs(ValueSeparator);
    LeadIs(l, depth);
    Bytes3([COMMA], if l.pretty then NewLine(l, depth) else [], Rendered(b, depth, l));
    assert Gap(a[|a| - 1], ValueSeparator, depth, l) == [];
    assert [] + Rendered(comma + b, depth, l) == Rendered(comma + b, depth, l);
  }

  lemma InBalance(ts: seq<Token>, depth: int)
    requires Balanced(ts)
    ensures BehindAll(ts, depth) == depth
  {
  }

  lemma LeadIs(l: Layout, depth: nat)
    ensures Lead(false, l, Indent(l, depth)) == [COMMA] + (if l.pretty then NewLine(l, depth) else [])
    ensures Lead(true, l, Indent(l, depth)) == Spaces(Indent(l, depth))
    ensures l.Break() + Spaces(Indent(l, depth)) == if l.pretty then NewLine(l, depth) else []
  {
  }

  /** A key, a colon and what follows. */
  lemma Named(key: Str, b: seq<Token>, depth: nat, l: Layout)
    requires Solid(b) && Balanced(b)
    ensures var all := [StringToken(key), NameSeparator] + b;
      Solid(all) && Balanced(all)
      && Rendered(all, depth, l) == key + [COLON] + (if l.pretty then [SPACE] else []) + Rendered(b, depth, l)
  {
    assert Solid([StringToken(key), NameSeparator] + b);
    hide Rendered, Balanced, Indent, Solid, Gap;
    var first, colon := [StringToken(key)], [NameSeparator];
    ColonGaps(key, b[0], depth, l);
    OneIsBalanced(StringToken(key));
    OneIsBalanced(NameSeparator);
    BothAreBalanced(colon, b);
    BothAreBalanced(first, colon + b);
    InBalance(first, depth);
    InBalance(colon, depth);
    RenderedConcat(first, colon + b, depth, l);
    RenderedConcat(colon, b, depth, l);
    RenderedOne(StringToken(key), depth, l);
    RenderedOne(NameSeparator, depth, l);
    SpelledIs(NameSeparator);
    assert first + (colon + b) == [StringToken(key), NameSeparator] + b;
    Bytes4(key, [COLON], if l.pretty then [SPACE] else [], Rendered(b, depth, l));
  }

  lemma ColonGaps(key: Str, next: Token, depth: int, l: Layout)
    requires !Closes(next)
    ensures Gap(StringToken(key), NameSeparator, depth, l) == []
    ensures Gap(NameSeparator, next, depth, l) == if l.pretty then [SPACE] else []
  {
  }

  lemma Bytes4(a: Str, b: Str, c: Str, d: Str)
    ensures a + ([] + (b + (c + d))) == a + b + c + d
  {
  }

  /** Brackets around a body that is not empty. */
  lemma Bracketed(open: Token, body: seq<Token>, close: Token, depth: nat, l: Layout)
    requires Opens(open) && Closes(close) && Solid(body) && Balanced(body)
    ensures var all := [open] + body + [close];
      Solid(all) && Balanced(all)
      && Rendered(all, depth, l) ==
           Spelled(open) + l.Break() + (Spaces(Indent(l, depth + 1)) + Rendered(body, depth + 1, l))
           + l.Break() + Spaces(Indent(l, depth)) + Spelled(close)
  {
    BracketsAreBalanced(open, body, close);
    assert Solid([open] + body + [close]);
    hide Rendered, Balanced, Indent, Spelled, Spaces, Solid, Gap, NewLine, Opens, Closes, Layout.Break;
    var inner, outer := l.Break() + Spaces(Indent(l, depth + 1)), l.Break() + Spaces(Indent(l, depth));
    GapsInside(open, body, close, depth, l);
    BehindOpen(open, depth);
    InBalance(body, depth + 1);
    BehindConcat([open], body, depth);
    RenderedConcat([open] + body, [close], depth, l);
    RenderedConcat([open], body, depth, l);
    RenderedOne(open, depth, l);
    RenderedOne(close, depth + 1, l);
    Bytes7(Spelled(open), l.Break(), Spaces(Indent(l, depth + 1)), Rendered(body, depth + 1, l), l.Break(),
           Spaces(Indent(l, depth)), Spelled(close));
  }

  lemma GapsInside(open: Token, body: seq<Token>, close: Token, depth: nat, l: Layout)
    requires Opens(open) && Closes(close) && Solid(body)
    ensures Behind(open, depth) == depth + 1
    ensures Gap(open, body[0], depth + 1, l) == l.Break() + Spaces(Indent(l, depth + 1))
    ensures Gap(([open] + body)[|body|], close, depth + 1, l) == l.Break() + Spaces(Indent(l, depth))
  {
    hide Indent, Spaces;
    LeadIs(l, depth);
    LeadIs(l, depth + 1);
  }

  lemma Bytes7(a: Str, b: Str, c: Str, d: Str, e: Str, f: Str, g: Str)
    ensures a + ((b + c) + d) + ((e + f) + g) == a + b + (c + d) + e + f + g
  {
  }

  /** An empty container is the two brackets, in every layout. */
  lemma EmptyBrackets(open: Token, close: Token, depth: nat, l: Layout)
    requires Opens(open) && Closes(close)
    ensures Solid([open, close]) && Balanced([open, close])
    ensures Rendered([open, close], depth, l) == Spelled(open) + Spelled(close)
  {
    hide Rendered, Balanced, Spelled;
    NoneIsBalanced();
    BracketsAreBalanced(open, [], close);
    assert [open] + [] + [close] == [open] + [close] == [open, close];
    BehindOpen(open, depth);
    RenderedConcat([open], [close], depth, l);
    RenderedOne(open, depth, l);
    RenderedOne(close, depth + 1, l);
    assert Gap(open, close, depth + 1, l) == [];
    assert [] + Spelled(close) == Spelled(close);
  }

  lemma NoneIsBalanced()
    ensures Balanced([])
  {
  }

  lemma DeeperIs(l: Layout, depth: nat)
    ensures l.Deeper(Indent(l, depth)) == Indent(l, depth + 1)
  {
    if l.pretty {
      ModStep(depth * l.step, l.step);
      assert (depth + 1) * l.step == depth * l.step + l.step;
    }
  }

  lemma ModStep(n: nat, m: nat)
    ensures (n % 0x1_0000_0000 + m) % 0x1_0000_0000 == (n + m) % 0x1_0000_0000
  {
  }

  // ----- the text of a value -----

  lemma {:induction false} ValueRendered(j: Json, depth: nat, l: Layout)
    requires j.FloatFree()
    ensures var ts := Yield(TreeOf(j));
      Solid(ts) && Balanced(ts) && ValueText(j, l, Indent(l, depth)) == Rendered(ts, depth, l)
    decreases j, 1, 0
  {
    hide Rendered, Balanced, Indent, Spelled, Yield, YieldItems, YieldMembers, TreeOf, ValueText, ItemsText,
         MembersText, SortedKeys, Ascending;
    SpelledIs(BeginArray);
    SpelledIs(EndArray);
    SpelledIs(BeginObject);
    SpelledIs(EndObject);
    DeeperIs(l, depth);
    if j.Primitive() {
      ScalarRendered(j, depth, l);
    } else if j == Arr([]) {
      EmptyLayers(j, l, Indent(l, depth));
      EmptyBrackets(BeginArray, EndArray, depth, l);
    } else if j == Obj(map[]) {
      EmptyLayers(j, l, Indent(l, depth));
      EmptyBrackets(BeginObject, EndObject, depth, l);
    } else if j.Arr? {
      ArrayLayers(j, l, Indent(l, depth));
      ItemsRendered(j, |j.items|, depth + 1, l);
      Bracketed(BeginArray, YieldItems(TreeOf(j), |j.items|), EndArray, depth, l);
    } else {
      var n := |SortedKeys(j.members.Keys)|;
      ObjectLayers(j, l, Indent(l, depth));
      MembersRendered(j, n, depth + 1, l);
      Bracketed(BeginObject, YieldMembers(TreeOf(j), n), EndObject, depth, l);
    }
  }

  lemma ScalarRendered(j: Json, depth: nat, l: Layout)
    requires j.Primitive() && !j.Float?
    ensures var ts := Yield(TreeOf(j));
      Solid(ts) && Balanced(ts) && ValueText(j, l, Indent(l, depth)) == Rendered(ts, depth, l)
  {
    hide Rendered, Balanced, Indent, Ascii;
    OneIsBalanced(TokenOf(j));
    RenderedOne(TokenOf(j), depth, l);
    SpelledIs(TokenOf(j));
  }

  lemma {:induction false} ItemsRendered(j: Json, n: nat, depth: nat, l: Layout)
    requires j.Arr? && 0 < n <= |j.items| && j.FloatFree()
    ensures TreeOf(j).ArrayTree? && n <= |TreeOf(j).items|
    ensures var ts := YieldItems(TreeOf(j), n);
      Solid(ts) && Balanced(ts)
      && ItemsText(j, n, l, Indent(l, depth)) == Spaces(Indent(l, depth)) + Rendered(ts, depth, l)
    decreases j, 0, n
  {
    hide Rendered, Balanced, Indent, Solid, Spelled, Yield, YieldItems, TreeOf, ValueText, ItemsText, Lead, Spaces;
    var x, lead := j.items[n - 1], Spaces(Indent(l, depth));
    var ts := Yield(TreeOf(x));
    ItemLayer(j, n, l, Indent(l, depth));
    ValueRendered(x, depth, l);
    LeadIs(l, depth);
    if n == 1 {
      NoItemLayer(j, l, Indent(l, depth));
      Nothing(lead, Rendered(ts, depth, l), ts);
    } else {
      ItemsRendered(j, n - 1, depth, l);
      Separated(YieldItems(TreeOf(j), n - 1), ts, depth, l);
      Bytes3(lead, Rendered(YieldItems(TreeOf(j), n - 1), depth, l),
             Lead(false, l, Indent(l, depth)) + Rendered(ts, depth, l));
    }
  }

  /** One more item, in the text and among the tokens. */
  lemma ItemLayer(j: Json, n: nat, l: Layout, current: indent)
    requires j.Arr? && 0 < n <= |j.items|
    ensures TreeOf(j).ArrayTree? && n <= |TreeOf(j).items|
    ensures ItemsText(j, n, l, current) ==
            ItemsText(j, n - 1, l, current) + (Lead(n == 1, l, current) + ValueText(j.items[n - 1], l, current))
    ensures YieldItems(TreeOf(j), n) ==
            YieldItems(TreeOf(j), n - 1) + ((if n == 1 then [] else [ValueSeparator]) + Yield(TreeOf(j.items[n - 1])))
  {
    hide ValueText, Lead, Yield;
  }

  lemma NoItemLayer(j: Json, l: Layout, current: indent)
    requires j.Arr?
    ensures ItemsText(j, 0, l, current) == []
    ensures TreeOf(j).ArrayTree? && YieldItems(TreeOf(j), 0) == []
  {
  }

  lemma Nothing<T>(lead: Str, text: Str, ts: seq<T>)
    ensures [] + (lead + text) == lead + text && [] + ([] + ts) == ts
  {
  }

  lemma {:induction false} MembersRendered(j: Json, n: nat, depth: nat, l: Layout)
    requires j.Obj? && 0 < n <= |SortedKeys(j.members.Keys)| && j.FloatFree()
    ensures TreeOf(j).ObjectTree? && n <= |TreeOf(j).members|
    ensures var ts := YieldMembers(TreeOf(j), n);
      Solid(ts) && Balanced(ts)
      && MembersText(j, SortedKeys(j.members.Keys), n, l, Indent(l, depth)) ==
           Spaces(Indent(l, depth)) + Rendered(ts, depth, l)
    decreases j, 0, n
  {
    hide Rendered, Balanced, Indent, Solid, Spelled, Yield, YieldMembers, TreeOf, ValueText, MembersText, Lead, Spaces,
         SortedKeys, Ascending, Quoted;
    var k := SortedKeys(j.members.Keys)[n - 1];
    MemberLayer(j, n, l, Indent(l, depth));
    var ts := Yield(TreeOf(j.members[k]));
    ValueRendered(j.members[k], depth, l);
    Named(Quoted(k), ts, depth, l);
    LeadIs(l, depth);
    if n == 1 {
      NoMemberLayer(j, l, Indent(l, depth));
      FirstMember(Spaces(Indent(l, depth)), Quoted(k), [COLON], if l.pretty then [SPACE] else [],
                  Rendered(ts, depth, l));
      FirstPair([StringToken(Quoted(k)), NameSeparator], ts);
    } else {
      MembersRendered(j, n - 1, depth, l);
      Separated(YieldMembers(TreeOf(j), n - 1), [StringToken(Quoted(k)), NameSeparator] + ts, depth, l);
      NextPair(YieldMembers(TreeOf(j), n - 1), [StringToken(Quoted(k)), NameSeparator], ts);
      LaterMember(Spaces(Indent(l, depth)), Rendered(YieldMembers(TreeOf(j), n - 1), depth, l),
                  Lead(false, l, Indent(l, depth)), Quoted(k), [COLON], if l.pretty then [SPACE] else [],
                  Rendered(ts, depth, l));
    }
  }

  lemma FirstMember(lead: Str, key: Str, colon: Str, space: Str, text: Str)
    ensures [] + (lead + key + colon + space + text) == lead + (key + colon + space + text)
  {
  }

  lemma LaterMember(a: Str, b: Str, lead: Str, key: Str, colon: Str, space: Str, text: Str)
    ensures a + b + (lead + key + colon + space + text) == a + (b + (lead + (key + colon + space + text)))
  {
  }

  lemma FirstPair<T>(a: seq<T>, b: seq<T>)
    ensures [] + ([] + a + b) == a + b
  {
  }

  lemma NextPair(a: seq<Token>, b: seq<Token>, c: seq<Token>)
    ensures a + ([ValueSeparator] + b + c) == a + ([ValueSeparator] + (b + c))
  {
  }

  /** All layouts of a value have the same tokens, and each is what its rules make of these. In particular the
      compact text holds nothing but the tokens. */
  lemma TextIsLaidOut(j: Json, indent: int) returns (ts: seq<Token>)
    requires j.FloatFree() && indent < 0x8000_0000
    ensures Tokens(Dumped(j, indent)) == ts + [EndOfInput] == Tokens(Compact(j))
    ensures Dumped(j, indent) == Rendered(ts, 0, Layout(indent >= 0, if indent >= 0 then indent else 0))
    ensures Compact(j) == Spread(seq(|ts|, _ => []), ts)
  {
    hide Tokens, ValueText, Yield, TreeOf, Rendered, Spread;
    ts := Yield(TreeOf(j));
    ValueRendered(j, 0, LayoutOf(indent));
    ValueTokens(j, LayoutOf(indent), 0, []);
    ValueRendered(j, 0, LayoutOf(-1));
    ValueTokens(j, LayoutOf(-1), 0, []);
    LexBlank([]);
    assert Dumped(j, indent) + [] == Dumped(j, indent) && Compact(j) + [] == Compact(j);
    CompactIsSpread(ts, 0, LayoutOf(-1));
  }

  lemma {:induction false} CompactIsSpread(ts: seq<Token>, depth: int, l: Layout)
    requires !l.pretty
    ensures Rendered(ts, depth, l) == Spread(seq(|ts|, _ => []), ts)
  {
    hide Spelled;
    if ts != [] {
      var ws: seq<Str> := seq(|ts|, _ => []);
      CompactIsSpread(ts[1..], Behind(ts[0], depth), l);
      assert ws[1..] == seq(|ts[1..]|, _ => []);
      assert Spelled(ts[0]) + [] == [] + Spelled(ts[0]);
    }
  }
}
