/**
 * Selectors of the supported subset of section 5 of CSS 2.1, their parser and
 * a canonical rendering that the parser reads back.
 *
 * A compound selector is an optional type name (absent for `*`, section 5.3,
 * or when only other tests are written) followed by ID (section 5.9), class
 * (section 5.8.3) and attribute tests (section 5.8), all of which must hold.
 * A selector chains compounds with the descendant (whitespace, section 5.5),
 * child (`>`, section 5.6) and adjacent sibling (`+`, section 5.7)
 * combinators; the rightmost compound is the one that must match the element
 * being styled.
 */
module Selectors {
  import opened Wrappers
  import opened Text

  datatype Combinator = Descendant | Child | AdjacentSibling

  datatype Test =
    | HasId(id: string)
    | HasClass(name: string)
    | HasAttr(attr: string)
    | AttrEquals(attr: string, value: string)

  datatype Compound = Compound(tag: Option<string>, tests: seq<Test>)

  /** `Key(c)` is a selector of one compound; `Chain(left, comb, right)` is
      `left`, the combinator, then `right`, read left to right. */
  datatype Selector =
    | Key(c: Compound)
    | Chain(left: Selector, comb: Combinator, right: Compound)

  /** Characters that may appear in names: type, ID, class and attribute
      names and unquoted attribute values. */
  predicate IsNameChar(c: char) {
    'a' <= c <= 'z' || 'A' <= c <= 'Z' || '0' <= c <= '9' || c == '-' || c == '_'
  }

  predicate IsName(s: string) {
    s != [] && forall i :: 0 <= i < |s| ==> IsNameChar(s[i])
  }

  /** The longest prefix of `s` made of name characters. */
  function NamePrefix(s: string): (n: string)
    ensures |n| <= |s| && n == s[..|n|]
    ensures forall i :: 0 <= i < |n| ==> IsNameChar(n[i])
    ensures |n| < |s| ==> !IsNameChar(s[|n|])
    decreases |s|
  {
    if |s| > 0 && IsNameChar(s[0]) then [s[0]] + NamePrefix(s[1..]) else []
  }

  /** The text before the first `q` in `s`, and the text after that `q`;
      nothing when `s` holds no `q`. */
  function UpTo(s: string, q: char): (r: Option<(string, string)>)
    ensures r.Some? ==> |r.value.0| < |s| && s == r.value.0 + [q] + r.value.1 && q !in r.value.0
    ensures r.None? ==> q !in s
    decreases |s|
  {
    if s == [] then None
    else if s[0] == q then Some(([], s[1..]))
    else match UpTo(s[1..], q)
      case None => None
      case Some((a, b)) => Some(([s[0]] + a, b))
  }

  /** An attribute value after `=`: a double- or single-quoted string, or a
      bare name. Returns the value and the text after it. */
  function ParseValue(s: string): (r: Option<(string, string)>)
    ensures r.Some? ==> |r.value.1| < |s|
  {
    if s != [] && (s[0] == '"' || s[0] == '\'') then
      UpTo(s[1..], s[0])
    else
      var n := NamePrefix(s);
      if n == [] then None else Some((n, s[|n|..]))
  }

  predicate StartsTest(ch: char) {
    ch == '#' || ch == '.' || ch == '['
  }

  /** One ID, class or attribute test at the start of `s`, and the text after
      it. Attribute names are lower-cased, as HTML attribute names are
      case-insensitive. */
  function ParseTest(s: string): (r: Option<(Test, string)>)
    requires s != []
    ensures r.Some? ==> |r.value.1| < |s|
  {
    var n := NamePrefix(s[1..]);
    var after := s[1 + |n|..];
    if n == [] then None
    else if s[0] == '#' then Some((HasId(n), after))
    else if s[0] == '.' then Some((HasClass(n), after))
    else if s[0] != '[' then None
    else if after != [] && after[0] == ']' then Some((HasAttr(Lower(n)), after[1..]))
    else if after != [] && after[0] == '=' then
      match ParseValue(after[1..])
      case None => None
      case Some((v, tail)) =>
        if tail != [] && tail[0] == ']' then Some((AttrEquals(Lower(n), v), tail[1..])) else None
    else None
  }

  /** The tests at the start of `s` and the text after them. A `#`, `.` or
      `[` that does not start a well-formed test rejects the selector. */
  function ParseTests(s: string): (r: Option<(seq<Test>, string)>)
    ensures r.Some? ==> |r.value.1| <= |s| && (r.value.0 != [] ==> |r.value.1| < |s|)
    decreases |s|
  {
    if s == [] || !StartsTest(s[0]) then Some(([], s))
    else
      match ParseTest(s)
      case None => None
      case Some((t, after)) =>
        match ParseTests(after)
        case None => None
        case Some((ts, rest)) => Some(([t] + ts, rest))
  }

  /** The compound selector at the start of `s` and the text after it: `*` or
      a type name (lower-cased, as HTML tag names are case-insensitive), then
      the tests. A compound with neither a type nor a test is rejected. */
  function ParseCompound(s: string): (r: Option<(Compound, string)>)
    ensures r.Some? ==> |r.value.1| < |s|
  {
    if s != [] && s[0] == '*' then
      match ParseTests(s[1..])
      case None => None
      case Some((ts, rest)) => Some((Compound(None, ts), rest))
    else
      var n := NamePrefix(s);
      match ParseTests(s[|n|..])
      case None => None
      case Some((ts, rest)) =>
        if n == [] && ts == [] then None
        else Some((Compound(if n == [] then None else Some(Lower(n)), ts), rest))
  }

  /** The combinator at the start of `s` and the text after it. Whitespace
      alone is the descendant combinator; whitespace around `>` and `+` is
      ignored. Any other character where a combinator is expected (`~`, `:`,
      `,`, ...) is not a combinator. */
  function ReadCombinator(s: string): (r: Option<(Combinator, string)>)
    ensures r.Some? ==> |r.value.1| < |s|
  {
    var t := TrimLeft(s);
    if t != [] && t[0] == '>' then Some((Child, TrimLeft(t[1..])))
    else if t != [] && t[0] == '+' then Some((AdjacentSibling, TrimLeft(t[1..])))
    else if |t| < |s| then Some((Descendant, t))
    else None
  }

  /** Reads the combinators and compounds that follow the selector `acc`
      parsed so far, up to the end of the text. */
  function ParseChain(acc: Selector, s: string): (r: Option<Selector>)
    decreases |s|
  {
    if TrimLeft(s) == [] then Some(acc)
    else
      match ReadCombinator(s)
      case None => None
      case Some((k, u)) =>
        match ParseCompound(u)
        case None => None
        case Some((c, rest)) => ParseChain(Chain(acc, k, c), rest)
  }

  /** Parses one selector; surrounding whitespace is ignored. Nothing is
      returned for a selector outside the supported subset. */
  function ParseSelector(text: string): Option<Selector> {
    var t := Trim(text);
    match ParseCompound(t)
    case None => None
    case Some((c, rest)) => ParseChain(Key(c), rest)
  }

  // ---------------------------------------------------------------------
  // Canonical rendering, and the round trip through the parser.
  // ---------------------------------------------------------------------

  predicate WfTest(t: Test) {
    match t
    case HasId(n) => IsName(n)
    case HasClass(n) => IsName(n)
    case HasAttr(n) => IsName(n) && Lower(n) == n
    case AttrEquals(n, v) => IsName(n) && Lower(n) == n && '"' !in v
  }

  /** A compound the parser can produce: a lower-case type name, and
      well-formed tests. */
  predicate WfCompound(c: Compound) {
    && (c.tag.Some? ==> IsName(c.tag.value) && Lower(c.tag.value) == c.tag.value)
    && forall i :: 0 <= i < |c.tests| ==> WfTest(c.tests[i])
  }

  predicate WfSelector(s: Selector) {
    match s
    case Key(c) => WfCompound(c)
    case Chain(l, _, r) => WfSelector(l) && WfCompound(r)
  }

  function RenderTest(t: Test): string {
    match t
    case HasId(n) => "#" + n
    case HasClass(n) => "." + n
    case HasAttr(n) => "[" + n + "]"
    case AttrEquals(n, v) => "[" + n + "=\"" + v + "\"]"
  }

  function RenderTests(ts: seq<Test>): string {
    if ts == [] then [] else RenderTest(ts[0]) + RenderTests(ts[1..])
  }

  function RenderCompound(c: Compound): string {
    (if c.tag.Some? then c.tag.value else if c.tests == [] then "*" else [])
    + RenderTests(c.tests)
  }

  function Separator(k: Combinator): string {
    match k
    case Descendant => " "
    case Child => " > "
    case AdjacentSibling => " + "
  }

  function Render(s: Selector): string {
    match s
    case Key(c) => RenderCompound(c)
    case Chain(l, k, r) => Render(l) + Separator(k) + RenderCompound(r)
  }

  lemma {:induction false} NamePrefixExact(n: string, rest: string)
    requires forall i :: 0 <= i < |n| ==> IsNameChar(n[i])
    requires rest == [] || !IsNameChar(rest[0])
    ensures NamePrefix(n + rest) == n
    decreases |n|
  {
    if |n| > 0 {
      assert (n + rest)[1..] == n[1..] + rest;
      NamePrefixExact(n[1..], rest);
    } else {
      assert n + rest == rest;
    }
  }

  lemma {:induction false} UpToExact(v: string, q: char, rest: string)
    requires q !in v
    ensures UpTo(v + [q] + rest, q) == Some((v, rest))
    decreases |v|
  {
    if |v| > 0 {
      assert (v + [q] + rest)[0] == v[0] != q;
      assert (v + [q] + rest)[1..] == v[1..] + [q] + rest;
      UpToExact(v[1..], q, rest);
      assert [v[0]] + v[1..] == v;
    } else {
      assert v + [q] + rest == [q] + rest;
    }
  }

  /** Text that can follow the tests of a compound without being read as
      one more test. */
  predicate EndsTests(rest: string) {
    rest == [] || (rest[0] != '#' && rest[0] != '.' && rest[0] != '[' && !IsNameChar(rest[0]))
  }

  lemma {:induction false} ParseTestsRender(ts: seq<Test>, rest: string)
    requires forall i :: 0 <= i < |ts| ==> WfTest(ts[i])
    requires EndsTests(rest)
    ensures ParseTests(RenderTests(ts) + rest) == Some((ts, rest))
    decreases |ts|
  {
    if ts == [] {
      assert RenderTests(ts) + rest == rest;
    } else {
      ParseTestsRender(ts[1..], rest);
      ParseTestsStep(ts, rest);
    }
  }

  /** The step of `ParseTestsRender`: one more test in front. */
  lemma {:induction false} ParseTestsStep(ts: seq<Test>, rest: string)
    requires ts != [] && WfTest(ts[0]) && EndsTests(rest)
    requires ParseTests(RenderTests(ts[1..]) + rest) == Some((ts[1..], rest))
    ensures ParseTests(RenderTests(ts) + rest) == Some((ts, rest))
  {
    var tail := RenderTests(ts[1..]) + rest;
    RenderTestsCons(ts, rest);
    TestsTailStart(ts[1..], rest);
    ParseTestRender(RenderTests(ts) + rest, ts[0], tail, ts[1..], rest);
    HeadTail(ts);
  }

  lemma HeadTail(ts: seq<Test>)
    requires ts != []
    ensures [ts[0]] + ts[1..] == ts
  {
  }

  /** The canonical text of tests, split after the first test; what follows
      that test does not continue its name. */
  lemma {:induction false} RenderTestsCons(ts: seq<Test>, rest: string)
    requires ts != []
    ensures RenderTests(ts) + rest == RenderTest(ts[0]) + (RenderTests(ts[1..]) + rest)
  {
    var a, b := RenderTest(ts[0]), RenderTests(ts[1..]);
    assert RenderTests(ts) == a + b;
    Regroup3(a, b, rest);
  }

  lemma {:induction false} TestsTailStart(ts: seq<Test>, rest: string)
    requires EndsTests(rest)
    ensures var tail := RenderTests(ts) + rest; tail == [] || !IsNameChar(tail[0])
  {
    if ts != [] {
      RenderTestsHead(ts);
      assert (RenderTests(ts) + rest)[0] == RenderTests(ts)[0];
    } else {
      assert RenderTests(ts) + rest == rest;
    }
  }

  /** One test in canonical form, followed by text the parser reads as
      `ts` and `rest`. */
  lemma ParseTestRender(s: string, t: Test, tail: string, ts: seq<Test>, rest: string)
    requires s == RenderTest(t) + tail
    requires WfTest(t)
    requires tail == [] || !IsNameChar(tail[0])
    requires ParseTests(tail) == Some((ts, rest))
    ensures ParseTests(s) == Some(([t] + ts, rest))
  {
    match t
    case HasId(n) => ParseNameTest('#', n, tail, ts, rest);
    case HasClass(n) => ParseNameTest('.', n, tail, ts, rest);
    case HasAttr(n) => ParseAttrTest(n, tail, ts, rest);
    case AttrEquals(n, v) => ParseAttrEqualsTest(n, v, tail, ts, rest);
  }

  /** A test followed by text the parser reads as `ts` and `rest`. */
  lemma ParseTestsCons(s: string, t: Test, after: string, ts: seq<Test>, rest: string)
    requires s != [] && StartsTest(s[0])
    requires ParseTest(s) == Some((t, after))
    requires ParseTests(after) == Some((ts, rest))
    ensures ParseTests(s) == Some(([t] + ts, rest))
  {
  }

  lemma ParseNameTest(mark: char, n: string, tail: string, ts: seq<Test>, rest: string)
    requires mark == '#' || mark == '.'
    requires IsName(n) && (tail == [] || !IsNameChar(tail[0]))
    requires ParseTests(tail) == Some((ts, rest))
    ensures ParseTests([mark] + n + tail) ==
      Some(([if mark == '#' then HasId(n) else HasClass(n)] + ts, rest))
  {
    var s := [mark] + n + tail;
    assert s[1..] == n + tail;
    NamePrefixExact(n, tail);
    assert s[1 + |n|..] == tail;
    ParseTestsCons(s, if mark == '#' then HasId(n) else HasClass(n), tail, ts, rest);
  }

  lemma ParseAttrTest(n: string, tail: string, ts: seq<Test>, rest: string)
    requires IsName(n) && Lower(n) == n
    requires ParseTests(tail) == Some((ts, rest))
    ensures ParseTests("[" + n + "]" + tail) == Some(([HasAttr(n)] + ts, rest))
  {
    ParseAttrOne(n, tail);
    ParseTestsCons("[" + n + "]" + tail, HasAttr(n), tail, ts, rest);
  }

  lemma ParseAttrOne(n: string, tail: string)
    requires IsName(n) && Lower(n) == n
    ensures ParseTest("[" + n + "]" + tail) == Some((HasAttr(n), tail))
  {
    var s := "[" + n + "]" + tail;
    AttrSlices(s, n, tail);
    NamePrefixExact(n, "]" + tail);
  }

  lemma AttrSlices(s: string, n: string, tail: string)
    requires s == "[" + n + "]" + tail
    ensures s[0] == '[' && s[1..] == n + ("]" + tail)
    ensures s[1 + |n|..] == "]" + tail && s[1 + |n|..][1..] == tail
  {
  }

  lemma ParseQuotedValue(v: string, tail: string)
    requires '"' !in v
    ensures ParseValue("\"" + v + "\"" + tail) == Some((v, tail))
  {
    var s := "\"" + v + "\"" + tail;
    assert s[1..] == v + ['"'] + tail;
    UpToExact(v, '"', tail);
  }

  lemma ParseAttrEqualsOne(n: string, v: string, tail: string)
    requires IsName(n) && Lower(n) == n && '"' !in v
    ensures ParseTest("[" + n + "=\"" + v + "\"]" + tail) == Some((AttrEquals(n, v), tail))
  {
    var s := "[" + n + "=\"" + v + "\"]" + tail;
    AttrEqualsSlices(s, n, v, tail);
    NamePrefixExact(n, "=\"" + v + "\"]" + tail);
    ParseQuotedValue(v, "]" + tail);
    assert ("]" + tail)[1..] == tail;
  }

  lemma AttrEqualsSlices(s: string, n: string, v: string, tail: string)
    requires s == "[" + n + "=\"" + v + "\"]" + tail
    ensures s[0] == '[' && s[1..] == n + ("=\"" + v + "\"]" + tail)
    ensures s[1 + |n|..] == "=\"" + v + "\"]" + tail
    ensures s[1 + |n|..][1..] == "\"" + v + "\"" + ("]" + tail)
  {
  }

  lemma ParseAttrEqualsTest(n: string, v: string, tail: string, ts: seq<Test>, rest: string)
    requires IsName(n) && Lower(n) == n && '"' !in v
    requires ParseTests(tail) == Some((ts, rest))
    ensures ParseTests("[" + n + "=\"" + v + "\"]" + tail) == Some(([AttrEquals(n, v)] + ts, rest))
  {
    var s := "[" + n + "=\"" + v + "\"]" + tail;
    ParseAttrEqualsOne(n, v, tail);
    ParseTestsCons(s, AttrEquals(n, v), tail, ts, rest);
  }

  /** Text that can follow a compound selector: the end, or whitespace. */
  predicate EndsCompound(rest: string) {
    rest == [] || IsSpace(rest[0])
  }

  /** The canonical text of a non-empty list of tests starts with `#`, `.`
      or `[`. */
  lemma RenderTestsHead(ts: seq<Test>)
    requires ts != []
    ensures RenderTests(ts) != []
    ensures RenderTests(ts)[0] == '#' || RenderTests(ts)[0] == '.' || RenderTests(ts)[0] == '['
  {
    assert RenderTests(ts) == RenderTest(ts[0]) + RenderTests(ts[1..]);
  }

  lemma ParseCompoundRender(c: Compound, rest: string)
    requires WfCompound(c) && EndsCompound(rest)
    ensures ParseCompound(RenderCompound(c) + rest) == Some((c, rest))
  {
    if c.tag.Some? {
      ParseTypedRender(c, rest);
    } else if c.tests == [] {
      ParseUniversalRender(c, rest);
    } else {
      ParseUntypedRender(c, rest);
    }
  }

  lemma ParseTypedRender(c: Compound, rest: string)
    requires WfCompound(c) && EndsCompound(rest) && c.tag.Some?
    ensures ParseCompound(RenderCompound(c) + rest) == Some((c, rest))
  {
    var body := RenderTests(c.tests) + rest;
    ParseTestsRender(c.tests, rest);
    TestsThenRest(c.tests, rest);
    RenderTypedSplit(c, rest);
    ParseCompoundTyped(RenderCompound(c) + rest, c.tag.value, body, c.tests, rest);
  }

  lemma RenderTypedSplit(c: Compound, rest: string)
    requires c.tag.Some?
    ensures RenderCompound(c) + rest == c.tag.value + (RenderTests(c.tests) + rest)
  {
  }

  lemma ParseUniversalRender(c: Compound, rest: string)
    requires WfCompound(c) && EndsCompound(rest) && c.tag.None? && c.tests == []
    ensures ParseCompound(RenderCompound(c) + rest) == Some((c, rest))
  {
    var body := RenderTests(c.tests) + rest;
    ParseTestsRender(c.tests, rest);
    assert RenderCompound(c) == "*";
    assert RenderCompound(c) + rest == "*" + body;
    ParseCompoundStar(body, c.tests, rest);
  }

  lemma ParseUntypedRender(c: Compound, rest: string)
    requires WfCompound(c) && EndsCompound(rest) && c.tag.None? && c.tests != []
    ensures ParseCompound(RenderCompound(c) + rest) == Some((c, rest))
  {
    var body := RenderTests(c.tests) + rest;
    ParseTestsRender(c.tests, rest);
    assert RenderCompound(c) == RenderTests(c.tests);
    assert RenderCompound(c) + rest == body;
    RenderTestsHead(c.tests);
    ParseCompoundUntyped(body, c.tests, rest);
  }

  lemma TestsThenRest(ts: seq<Test>, rest: string)
    requires EndsCompound(rest)
    ensures var body := RenderTests(ts) + rest; body == [] || !IsNameChar(body[0])
  {
    if ts != [] {
      RenderTestsHead(ts);
      assert (RenderTests(ts) + rest)[0] == RenderTests(ts)[0];
    }
  }

  lemma ParseCompoundStar(body: string, ts: seq<Test>, rest: string)
    requires ParseTests(body) == Some((ts, rest))
    ensures ParseCompound("*" + body) == Some((Compound(None, ts), rest))
  {
    assert ("*" + body)[1..] == body;
  }

  lemma ParseCompoundTyped(s: string, n: string, body: string, ts: seq<Test>, rest: string)
    requires s == n + body
    requires IsName(n) && Lower(n) == n && (body == [] || !IsNameChar(body[0]))
    requires ParseTests(body) == Some((ts, rest))
    ensures ParseCompound(s) == Some((Compound(Some(n), ts), rest))
  {
    NamePrefixExact(n, body);
    assert (n + body)[|n|..] == body;
    assert (n + body)[0] == n[0];
  }

  lemma ParseCompoundUntyped(s: string, ts: seq<Test>, rest: string)
    requires s != [] && !IsNameChar(s[0]) && s[0] != '*'
    requires ParseTests(s) == Some((ts, rest)) && ts != []
    ensures ParseCompound(s) == Some((Compound(None, ts), rest))
  {
    assert NamePrefix(s) == [];
    assert s[0..] == s;
  }

  /** The combinators and compounds to the right of a selector's first
      compound, in reading order. */
  datatype Step = Step(comb: Combinator, c: Compound)

  function RenderSteps(st: seq<Step>): string {
    if st == [] then [] else Separator(st[0].comb) + RenderCompound(st[0].c) + RenderSteps(st[1..])
  }

  function Build(acc: Selector, st: seq<Step>): Selector
    decreases |st|
  {
    if st == [] then acc else Build(Chain(acc, st[0].comb, st[0].c), st[1..])
  }

  /** One combinator and compound in canonical form are read as one more
      link of the chain. */
  lemma ParseChainStep(acc: Selector, k: Combinator, c: Compound, rest: string)
    requires WfCompound(c) && EndsCompound(rest)
    ensures ParseChain(acc, Separator(k) + RenderCompound(c) + rest) == ParseChain(Chain(acc, k, c), rest)
  {
    var body := RenderCompound(c) + rest;
    var s := Separator(k) + RenderCompound(c) + rest;
    ParseCompoundRender(c, rest);
    CompoundStart(c, rest);
    SeparatorSplit(k, RenderCompound(c), rest);
    match k
    case Descendant =>
      ParseChainDescendant(acc, s, body, c, rest);
    case Child =>
      ParseChainSymbol(acc, s, '>', body, c, rest);
    case AdjacentSibling =>
      ParseChainSymbol(acc, s, '+', body, c, rest);
  }

  lemma SeparatorSplit(k: Combinator, r: string, rest: string)
    ensures Separator(k) + r + rest == Separator(k) + (r + rest)
    ensures k == Descendant ==> Separator(k) + r + rest == " " + (r + rest)
    ensures k == Child ==> Separator(k) + r + rest == " " + ['>'] + " " + (r + rest)
    ensures k == AdjacentSibling ==> Separator(k) + r + rest == " " + ['+'] + " " + (r + rest)
  {
  }

  lemma CompoundStart(c: Compound, rest: string)
    requires WfCompound(c)
    ensures var body := RenderCompound(c) + rest; body != [] && StartsCompound(body[0])
  {
    CompoundShape(c);
    assert (RenderCompound(c) + rest)[0] == RenderCompound(c)[0];
  }

  predicate StartsCompound(ch: char) {
    ch == '*' || ch == '#' || ch == '.' || ch == '[' || IsNameChar(ch)
  }

  /** One combinator and compound extend the chain parsed so far. */
  lemma ParseChainCons(acc: Selector, s: string, k: Combinator, u: string, c: Compound, rest: string)
    requires TrimLeft(s) != []
    requires ReadCombinator(s) == Some((k, u))
    requires ParseCompound(u) == Some((c, rest))
    ensures ParseChain(acc, s) == ParseChain(Chain(acc, k, c), rest)
  {
  }

  lemma ReadDescendant(body: string)
    requires body != [] && StartsCompound(body[0])
    ensures TrimLeft(" " + body) != []
    ensures ReadCombinator(" " + body) == Some((Descendant, body))
  {
    TrimLeftExact(" ", body);
  }

  lemma ReadSymbol(sym: char, body: string)
    requires sym == '>' || sym == '+'
    requires body != [] && StartsCompound(body[0])
    ensures TrimLeft(" " + [sym] + " " + body) != []
    ensures ReadCombinator(" " + [sym] + " " + body) ==
      Some((if sym == '>' then Child else AdjacentSibling, body))
  {
    var t := [sym] + " " + body;
    assert " " + [sym] + " " + body == " " + t;
    TrimLeftExact(" ", t);
    assert t[1..] == " " + body;
    TrimLeftExact(" ", body);
    ReadSymbolAfterTrim(" " + t, t, sym, body);
  }

  lemma ReadSymbolAfterTrim(s: string, t: string, sym: char, body: string)
    requires sym == '>' || sym == '+'
    requires TrimLeft(s) == t && t != [] && t[0] == sym && TrimLeft(t[1..]) == body
    ensures ReadCombinator(s) == Some((if sym == '>' then Child else AdjacentSibling, body))
  {
  }

  lemma ParseChainDescendant(acc: Selector, s: string, body: string, c: Compound, rest: string)
    requires s == " " + body
    requires body != [] && StartsCompound(body[0])
    requires ParseCompound(body) == Some((c, rest))
    ensures ParseChain(acc, s) == ParseChain(Chain(acc, Descendant, c), rest)
  {
    ReadDescendant(body);
    ParseChainCons(acc, s, Descendant, body, c, rest);
  }

  lemma ParseChainSymbol(acc: Selector, s: string, sym: char, body: string, c: Compound, rest: string)
    requires s == " " + [sym] + " " + body
    requires sym == '>' || sym == '+'
    requires body != [] && StartsCompound(body[0])
    requires ParseCompound(body) == Some((c, rest))
    ensures ParseChain(acc, s) ==
      ParseChain(Chain(acc, if sym == '>' then Child else AdjacentSibling, c), rest)
  {
    ReadSymbol(sym, body);
    ParseChainCons(acc, s, if sym == '>' then Child else AdjacentSibling, body, c, rest);
  }

  lemma {:induction false} ParseChainRender(acc: Selector, st: seq<Step>)
    requires forall i :: 0 <= i < |st| ==> WfCompound(st[i].c)
    ensures ParseChain(acc, RenderSteps(st)) == Some(Build(acc, st))
    decreases |st|
  {
    if st == [] {
      assert TrimLeft(RenderSteps(st)) == [];
    } else {
      var rest := RenderSteps(st[1..]);
      assert EndsCompound(rest) by {
        if st[1..] != [] {
          assert rest[0] == Separator(st[1..][0].comb)[0];
        }
      }
      ParseChainStep(acc, st[0].comb, st[0].c, rest);
      ParseChainRender(Chain(acc, st[0].comb, st[0].c), st[1..]);
    }
  }

  /** A selector read as its first compound followed by steps. */
  function Decompose(s: Selector): (d: (Compound, seq<Step>))
    ensures Build(Key(d.0), d.1) == s
    ensures Render(s) == RenderCompound(d.0) + RenderSteps(d.1)
    ensures WfSelector(s) ==> WfCompound(d.0) && forall i :: 0 <= i < |d.1| ==> WfCompound(d.1[i].c)
  {
    match s
    case Key(c) => (c, [])
    case Chain(l, k, r) =>
      var (c0, st) := Decompose(l);
      BuildSnoc(Key(c0), st, Step(k, r));
      RenderStepsSnoc(st, Step(k, r));
      (c0, st + [Step(k, r)])
  }

  lemma {:induction false} BuildSnoc(acc: Selector, st: seq<Step>, x: Step)
    ensures Build(acc, st + [x]) == Chain(Build(acc, st), x.comb, x.c)
    decreases |st|
  {
    if st != [] {
      assert (st + [x])[1..] == st[1..] + [x];
      BuildSnoc(Chain(acc, st[0].comb, st[0].c), st[1..], x);
    }
  }

  lemma {:induction false} RenderStepsSnoc(st: seq<Step>, x: Step)
    ensures RenderSteps(st + [x]) == RenderSteps(st) + Separator(x.comb) + RenderCompound(x.c)
    decreases |st|
  {
    if st != [] {
      assert (st + [x])[1..] == st[1..] + [x];
      RenderStepsSnoc(st[1..], x);
    }
  }

  /** The canonical text of a selector starts and ends with a character that
      is neither whitespace nor `{`, `}`, `,`, `/` or `@`. */
  lemma RenderShape(s: Selector)
    requires WfSelector(s)
    ensures Render(s) != []
    ensures !IsSpace(Render(s)[0]) && Render(s)[0] != '@'
    ensures !IsSpace(Render(s)[|Render(s)| - 1])
  {
    var (c0, st) := Decompose(s);
    CompoundShape(c0);
    if st != [] {
      var (l, k, r) := (Build(Key(c0), st[..|st| - 1]), st[|st| - 1].comb, st[|st| - 1].c);
      assert st == st[..|st| - 1] + [st[|st| - 1]];
      BuildSnoc(Key(c0), st[..|st| - 1], st[|st| - 1]);
      CompoundShape(r);
    }
  }

  lemma CompoundShape(c: Compound)
    requires WfCompound(c)
    ensures RenderCompound(c) != []
    ensures StartsCompound(RenderCompound(c)[0])
    ensures !IsSpace(RenderCompound(c)[|RenderCompound(c)| - 1])
  {
    var ts := c.tests;
    if ts != [] {
      assert RenderTests(ts) == RenderTest(ts[0]) + RenderTests(ts[1..]);
      RenderTestsLast(ts);
    }
    if c.tag.Some? {
      assert RenderCompound(c)[0] == c.tag.value[0];
    }
  }

  lemma {:induction false} RenderTestsLast(ts: seq<Test>)
    requires ts != [] && forall i :: 0 <= i < |ts| ==> WfTest(ts[i])
    ensures RenderTests(ts) != []
    ensures RenderTests(ts)[|RenderTests(ts)| - 1] == ']' || IsNameChar(RenderTests(ts)[|RenderTests(ts)| - 1])
    decreases |ts|
  {
    assert RenderTests(ts) == RenderTest(ts[0]) + RenderTests(ts[1..]);
    if ts[1..] != [] {
      RenderTestsLast(ts[1..]);
    } else {
      assert RenderTests(ts) == RenderTest(ts[0]);
      assert WfTest(ts[0]);
    }
  }

  lemma ParseSelectorCons(text: string, c: Compound, rest: string)
    requires Trim(text) == text
    requires ParseCompound(text) == Some((c, rest))
    ensures ParseSelector(text) == ParseChain(Key(c), rest)
  {
  }

  lemma StepsStart(st: seq<Step>)
    ensures EndsCompound(RenderSteps(st))
  {
    if st != [] {
      assert RenderSteps(st)[0] == Separator(st[0].comb)[0];
    }
  }

  /** The parser reads the canonical text of every well-formed selector back
      as that selector. */
  lemma ParseRender(s: Selector)
    requires WfSelector(s)
    ensures ParseSelector(Render(s)) == Some(s)
  {
    var d := Decompose(s);
    RenderTrimmed(s);
    StepsStart(d.1);
    ParseCompoundRender(d.0, RenderSteps(d.1));
    ParseChainRender(Key(d.0), d.1);
    ParseSelectorCons(Render(s), d.0, RenderSteps(d.1));
  }

  lemma RenderTrimmed(s: Selector)
    requires WfSelector(s)
    ensures Trim(Render(s)) == Render(s)
  {
    RenderShape(s);
    TrimNoEdges(Render(s));
  }
}
