/**
 * Reading stylesheet text into the rules the inliner applies and the
 * at-rules it preserves.
 *
 * Comments (section 4.1.9 of CSS 2.1) are removed first. The text is then
 * read item by item: `@import` statements (section 6.3) are dropped,
 * `@media` rules (section 7.2) are kept verbatim or dropped as the media
 * filter decides, any other at-rule is kept verbatim, and every other item
 * is a rule `selectors { block }` whose block, with its outer whitespace
 * trimmed, is what gets inlined.
 */
module Stylesheet {
  import opened Wrappers
  import opened Text
  import opened Selectors
  import opened Media

  /** A rule to inline: the selectors it was written with (those the parser
      supports) and its declaration block, trimmed. */
  datatype Rule = Rule(selectors: seq<Selector>, block: string)

  /** What a stylesheet contributes: the rules to inline, in source order,
      and the text of the media rules to keep as they are, in source order. */
  datatype Sheet = Sheet(rules: seq<Rule>, preserved: seq<string>)

  function AddRule(r: Rule, sh: Sheet): Sheet {
    Sheet([r] + sh.rules, sh.preserved)
  }

  function AddPreserved(text: string, sh: Sheet): Sheet {
    Sheet(sh.rules, [text] + sh.preserved)
  }

  // ---------------------------------------------------------------------
  // Comments
  // ---------------------------------------------------------------------

  /** `c` holds no star directly followed by a slash. */
  predicate NoClose(c: string) {
    forall i :: 0 <= i < |c| - 1 ==> !(c[i] == '*' && c[i + 1] == '/')
  }

  /** The text after the first star-slash in `s`, if there is one. */
  function AfterClose(s: string): (r: Option<string>)
    ensures r.Some? ==> |r.value| + 2 <= |s|
    decreases |s|
  {
    if |s| < 2 then None
    else if s[0] == '*' && s[1] == '/' then Some(s[2..])
    else AfterClose(s[1..])
  }

  /** Removes every comment: from each opening slash-star up to the first
      star-slash after it. Comments do not nest, and an unterminated comment
      runs to the end of the text. */
  function StripComments(s: string): (r: string)
    ensures |r| <= |s|
    decreases |s|
  {
    if |s| >= 2 && s[0] == '/' && s[1] == '*' then
      match AfterClose(s[2..])
      case None => []
      case Some(rest) => StripComments(rest)
    else if s == [] then []
    else [s[0]] + StripComments(s[1..])
  }

  lemma {:induction false} AfterCloseExact(c: string, rest: string)
    requires NoClose(c)
    ensures AfterClose(c + "*/" + rest) == Some(rest)
    decreases |c|
  {
    var s := c + "*/" + rest;
    if c == [] {
      assert s == "*/" + rest;
      assert s[2..] == rest;
    } else {
      assert s[0] == c[0];
      assert s[1] == if |c| > 1 then c[1] else '*';
      assert s[1..] == c[1..] + "*/" + rest;
      AfterCloseExact(c[1..], rest);
    }
  }

  lemma {:induction false} AfterCloseNone(c: string)
    requires NoClose(c)
    ensures AfterClose(c) == None
    decreases |c|
  {
    if |c| >= 2 {
      AfterCloseNone(c[1..]);
    }
  }

  /** `s` opens no comment: no slash in it is directly followed by a star. */
  predicate NoOpen(s: string) {
    forall i :: 0 <= i < |s| - 1 ==> !(s[i] == '/' && s[i + 1] == '*')
  }

  /** A first character that does not open a comment is kept. */
  lemma StripStep(s: string)
    requires s != [] && !(|s| >= 2 && s[0] == '/' && s[1] == '*')
    ensures StripComments(s) == [s[0]] + StripComments(s[1..])
  {
  }

  lemma NoOpenTail(s: string)
    requires s != [] && NoOpen(s)
    ensures NoOpen(s[1..])
  {
    assert forall i :: 0 <= i < |s[1..]| ==> s[1..][i] == s[i + 1];
  }

  /** Text that opens no comment is kept whole, slashes included. */
  lemma {:induction false} StripWithoutComment(s: string)
    requires NoOpen(s)
    ensures StripComments(s) == s
    decreases |s|
  {
    if s != [] {
      StripStep(s);
      NoOpenTail(s);
      StripWithoutComment(s[1..]);
      assert s == [s[0]] + s[1..];
    }
  }

  /** Text without a `/` opens no comment and cannot end in half of an
      opening. */
  lemma NoSlashNoOpen(s: string)
    requires '/' !in s
    ensures NoOpen(s) && (s == [] || s[|s| - 1] != '/')
  {
    assert forall i :: 0 <= i < |s| ==> s[i] in s;
  }

  /** Text without a `/` is kept whole. */
  lemma StripWithoutSlash(s: string)
    requires '/' !in s
    ensures StripComments(s) == s
  {
    NoSlashNoOpen(s);
    StripWithoutComment(s);
  }

  /** Text that opens no comment, and does not end in a slash that the
      rest would complete into an opening, is kept as it is before
      whatever follows. */
  lemma {:induction false} StripKeepsPrefix(a: string, rest: string)
    requires NoOpen(a)
    requires !(a != [] && rest != [] && a[|a| - 1] == '/' && rest[0] == '*')
    ensures StripComments(a + rest) == a + StripComments(rest)
    decreases |a|
  {
    if a == [] {
      assert a + rest == rest;
    } else {
      PrefixStep(a, rest);
      StripStep(a + rest);
      StripKeepsPrefix(a[1..], rest);
      assert a == [a[0]] + a[1..];
    }
  }

  /** One step of StripKeepsPrefix: the first character of `a` opens no
      comment, and the rest of `a` keeps both preconditions. */
  lemma PrefixStep(a: string, rest: string)
    requires a != [] && NoOpen(a)
    requires !(rest != [] && a[|a| - 1] == '/' && rest[0] == '*')
    ensures var s := a + rest;
      s[0] == a[0] && !(|s| >= 2 && s[0] == '/' && s[1] == '*') && s[1..] == a[1..] + rest
    ensures NoOpen(a[1..])
    ensures !(a[1..] != [] && rest != [] && a[|a| - 1] == '/' && rest[0] == '*')
  {
    var s := a + rest;
    assert |s| >= 2 ==> s[1] == if |a| >= 2 then a[1] else rest[0];
    assert s[1..] == a[1..] + rest;
    NoOpenTail(a);
  }

  /** A comment is removed entirely, its delimiters included. */
  lemma StripComment(c: string, rest: string)
    requires NoClose(c)
    ensures StripComments("/*" + c + "*/" + rest) == StripComments(rest)
  {
    var s := "/*" + c + "*/" + rest;
    assert s[2..] == c + "*/" + rest;
    AfterCloseExact(c, rest);
  }

  /** An unterminated comment removes the rest of the text. */
  lemma StripUnterminated(c: string)
    requires NoClose(c)
    ensures StripComments("/*" + c) == []
  {
    var s := "/*" + c;
    assert s[2..] == c;
    AfterCloseNone(c);
  }

  // ---------------------------------------------------------------------
  // Blocks
  // ---------------------------------------------------------------------

  /** The length of the text up to and including the `}` that closes a block
      opened `depth` levels up, counting the braces met on the way. */
  function BlockEnd(u: string, depth: nat): (r: Option<nat>)
    requires depth > 0
    ensures r.Some? ==> 0 < r.value <= |u| && u[r.value - 1] == '}'
    decreases |u|
  {
    if u == [] then None
    else
      var d := if u[0] == '{' then depth + 1 else if u[0] == '}' then depth - 1 else depth;
      if d == 0 then Some(1)
      else match BlockEnd(u[1..], d)
        case None => None
        case Some(n) => Some(n + 1)
  }

  function Shift(r: Option<nat>, k: nat): Option<nat> {
    match r
    case None => None
    case Some(n) => Some(n + k)
  }

  predicate NoBrace(s: string) {
    '{' !in s && '}' !in s
  }

  /** Text without braces does not change the nesting depth. */
  lemma {:induction false} BlockEndPlain(a: string, rest: string, depth: nat)
    requires depth > 0 && NoBrace(a)
    ensures BlockEnd(a + rest, depth) == Shift(BlockEnd(rest, depth), |a|)
    decreases |a|
  {
    if a == [] {
      assert a + rest == rest;
    } else {
      var u := a + rest;
      assert u[0] == a[0] && a[0] in a;
      assert u[1..] == a[1..] + rest;
      assert NoBrace(a[1..]) by {
        assert forall i :: 0 <= i < |a[1..]| ==> a[1..][i] == a[i + 1];
      }
      BlockEndPlain(a[1..], rest, depth);
    }
  }

  lemma BlockEndOpen(rest: string, depth: nat)
    requires depth > 0
    ensures BlockEnd("{" + rest, depth) == Shift(BlockEnd(rest, depth + 1), 1)
  {
    assert ("{" + rest)[1..] == rest;
  }

  lemma BlockEndClose(rest: string, depth: nat)
    requires depth > 0
    ensures BlockEnd("}" + rest, depth) ==
      if depth == 1 then Some(1) else Shift(BlockEnd(rest, depth - 1), 1)
  {
    assert ("}" + rest)[1..] == rest;
  }

  // ---------------------------------------------------------------------
  // Selector lists
  // ---------------------------------------------------------------------

  /** The selector a piece of a selector list holds, if it is supported. */
  function ParsePiece(text: string): seq<Selector> {
    match ParseSelector(text)
    case None => []
    case Some(x) => [x]
  }

  /** The supported selectors of a comma-separated list, in order. A piece
      the selector parser does not support is skipped; the others still
      apply. */
  function ParseSelectorList(text: string): (r: seq<Selector>)
    decreases |text|
  {
    match UpTo(text, ',')
    case None => ParsePiece(text)
    case Some((a, b)) => ParsePiece(a) + ParseSelectorList(b)
  }

  /** Whitespace around a selector is ignored. */
  lemma ParseSelectorPadded(text: string, sp: string, x: Selector, gap: string)
    requires WfSelector(x) && AllSpace(sp) && AllSpace(gap)
    requires text == sp + Render(x) + gap
    ensures ParseSelector(text) == Some(x)
  {
    RenderShape(x);
    TrimPadded(sp, Render(x), gap);
    ParseRender(x);
    ParseSelectorSameTrim(text, Render(x));
  }

  lemma TrimPadded(sp: string, r: string, gap: string)
    requires AllSpace(sp) && AllSpace(gap)
    requires r != [] && !IsSpace(r[0]) && !IsSpace(r[|r| - 1])
    ensures Trim(sp + r + gap) == Trim(r)
  {
    TrimExact(sp, r, gap);
    TrimExact([], r, []);
    assert [] + r + [] == r;
  }

  lemma ParseSelectorSameTrim(a: string, b: string)
    requires Trim(a) == Trim(b)
    ensures ParseSelector(a) == ParseSelector(b)
  {
  }

  lemma NoCommaInSpace(s: string)
    requires AllSpace(s)
    ensures ',' !in s && '{' !in s && '}' !in s && ';' !in s && '/' !in s
  {
  }

  lemma EmptyPrefix(a: string, b: string)
    ensures [] + a + b == a + b
  {
  }

  lemma NotInConcat(c: char, a: string, b: string)
    requires c !in a && c !in b
    ensures c !in a + b
  {
  }

  /** A list without a comma is one piece. */
  lemma ListOfOnePiece(text: string)
    requires ',' !in text
    ensures ParseSelectorList(text) == ParsePiece(text)
  {
  }

  /** The last selector of a list. */
  lemma SelectorListLast(sp: string, x: Selector, gap: string)
    requires WfSelector(x) && AllSpace(sp) && AllSpace(gap) && ',' !in Render(x)
    ensures ParseSelectorList(sp + Render(x) + gap) == [x]
  {
    var text := sp + Render(x) + gap;
    NoCommaInSpace(sp);
    NoCommaInSpace(gap);
    assert ',' !in text;
    ListOfOnePiece(text);
    ParseSelectorPadded(text, sp, x, gap);
  }

  /** A selector followed by a comma starts a list. */
  lemma SelectorListCons(sp: string, x: Selector, gap: string, rest: string)
    requires WfSelector(x) && AllSpace(sp) && AllSpace(gap) && ',' !in Render(x)
    ensures ParseSelectorList(sp + Render(x) + gap + "," + rest) == [x] + ParseSelectorList(rest)
  {
    NoCommaInSpace(sp);
    NoCommaInSpace(gap);
    var a := sp + Render(x) + gap;
    assert ',' !in a;
    assert sp + Render(x) + gap + "," + rest == a + [','] + rest;
    UpToExact(a, ',', rest);
    ParseSelectorPadded(a, sp, x, gap);
  }

  // ---------------------------------------------------------------------
  // Items
  // ---------------------------------------------------------------------

  /** `w` is the lower-case word `k` in any letter case. */
  predicate SameIgnoringCase(w: string, k: string)
    decreases |w|
  {
    |w| == |k| && (w == [] || (LowerChar(w[0]) == k[0] && SameIgnoringCase(w[1..], k[1..])))
  }

  lemma {:induction false} SameIgnoringCaseSelf(k: string)
    requires NoUpper(k)
    ensures SameIgnoringCase(k, k)
    decreases |k|
  {
    if k != [] {
      SameIgnoringCaseSelf(k[1..]);
    }
  }

  /** `t` starts with the at-keyword `@k`, in any letter case; at-keywords
      are case-insensitive. */
  predicate AtKeyword(t: string, k: string) {
    t != [] && t[0] == '@' && SameIgnoringCase(NamePrefix(t[1..]), k)
  }

  /** What the item at the start of a text is, and where the next one
      starts. */
  datatype Item =
    | End                              // no further item
    | Skip(rest: string)               // an item that contributes nothing
    | Keep(text: string, rest: string) // an at-rule kept verbatim
    | Apply(rule: Rule, rest: string)  // a rule to inline

  /** The item at the start of `t`, which starts with no whitespace.
      An `@import` statement runs to the next `;`. A `@media` rule runs from
      its prelude to the brace that closes its block; the media filter
      decides whether its text is kept. Any other at-rule is kept verbatim.
      Anything else is a rule: selectors
      up to the first `{`, a declaration block up to the next `}`. A rule
      whose block is blank, or none of whose selectors is supported, applies
      to nothing. An item that is not closed ends the stylesheet. */
  function NextItem(t: string): (it: Item)
    ensures !it.End? ==> |it.rest| < |t|
  {
    if t == [] then End
    else if AtKeyword(t, "import") then ImportItem(t)
    else if AtKeyword(t, "media") then MediaItem(t)
    else if t[0] == '@' then AtRuleItem(t)
    else RuleItem(t)
  }

  function ImportItem(t: string): (it: Item)
    ensures !it.End? ==> |it.rest| < |t|
  {
    match UpTo(t, ';')
    case None => End
    case Some((_, rest)) => Skip(rest)
  }

  function MediaItem(t: string): (it: Item)
    requires t != []
    ensures !it.End? ==> |it.rest| < |t|
  {
    var after := t[1 + |NamePrefix(t[1..])|..];
    match UpTo(after, '{')
    case None => End
    case Some((prelude, body)) =>
      match BlockEnd(body, 1)
      case None => End
      case Some(n) =>
        if ClassifyMedia(prelude) == Preserve then Keep(t[..|t| - |body| + n], body[n..])
        else Skip(body[n..])
  }

  function RuleItem(t: string): (it: Item)
    ensures !it.End? ==> |it.rest| < |t|
  {
    match UpTo(t, '{')
    case None => End
    case Some((sel, after)) =>
      match UpTo(after, '}')
      case None => End
      case Some((block, rest)) =>
        var selectors := ParseSelectorList(sel);
        if selectors == [] || Trim(block) == [] then Skip(rest)
        else Apply(Rule(selectors, Trim(block)), rest)
  }

  /** Any other at-rule, kept verbatim: a statement such as `@charset`
      runs to its `;`, and an at-rule with a block, such as `@font-face`,
      runs to the brace that closes the block, whichever comes first. */
  function AtRuleItem(t: string): (it: Item)
    ensures !it.End? ==> |it.rest| < |t|
  {
    match StatementEnd(t)
    case Some((head, rest)) => Keep(head + [';'], rest)
    case None => BlockItem(t)
  }

  /** The text of an at-rule statement up to its `;`, and what follows,
      when a `;` comes before any `{`. */
  function StatementEnd(t: string): (r: Option<(string, string)>)
    ensures r.Some? ==> t == r.value.0 + [';'] + r.value.1 && '{' !in r.value.0 && ';' !in r.value.0
  {
    var semi := UpTo(t, ';');
    if semi.Some? && '{' !in semi.value.0 then semi else None
  }

  /** An at-rule whose block opens at the first `{`, up to the brace that
      closes that block. */
  function BlockItem(t: string): (it: Item)
    ensures !it.End? ==> |it.rest| < |t|
  {
    match UpTo(t, '{')
    case None => End
    case Some((head, body)) =>
      match BlockEnd(body, 1)
      case None => End
      case Some(n) => Keep(head + ['{'] + body[..n], body[n..])
  }

  /** Reads the items of a stylesheet, comments already removed, in order;
      whitespace between items is skipped. */
  function ParseItems(s: string): (sh: Sheet)
    decreases |s|
  {
    var t := TrimLeft(s);
    match NextItem(t)
    case End => Sheet([], [])
    case Skip(rest) => ParseItems(rest)
    case Keep(text, rest) => AddPreserved(text, ParseItems(rest))
    case Apply(r, rest) => AddRule(r, ParseItems(rest))
  }

  /** The stylesheet a CSS text describes. */
  function ParseStylesheet(css: string): Sheet {
    ParseItems(StripComments(css))
  }

  /** A rule as the inliner applies it: at least one selector, and a
      declaration block that is neither blank nor padded with whitespace. */
  predicate WfRule(r: Rule) {
    r.selectors != [] && r.block != [] && Trim(r.block) == r.block
  }

  /** A stylesheet as read: well-formed rules, and kept texts that are
      at-rules. */
  predicate WfSheet(sh: Sheet) {
    && (forall i :: 0 <= i < |sh.rules| ==> WfRule(sh.rules[i]))
    && (forall i :: 0 <= i < |sh.preserved| ==> sh.preserved[i] != [] && sh.preserved[i][0] == '@')
  }

  /** An item to apply is a well-formed rule, and an item to keep is an
      at-rule. */
  lemma NextItemShape(t: string)
    ensures NextItem(t).Apply? ==> WfRule(NextItem(t).rule)
    ensures NextItem(t).Keep? ==> NextItem(t).text != [] && NextItem(t).text[0] == '@'
  {
    if t != [] && !AtKeyword(t, "import") {
      if AtKeyword(t, "media") {
        MediaItemShape(t);
      } else if t[0] == '@' {
        AtRuleItemShape(t);
      } else {
        RuleItemShape(t);
      }
    }
  }

  lemma MediaItemShape(t: string)
    requires t != [] && t[0] == '@'
    ensures !MediaItem(t).Apply?
    ensures MediaItem(t).Keep? ==> MediaItem(t).text != [] && MediaItem(t).text[0] == '@'
  {
  }

  lemma AtRuleItemShape(t: string)
    requires t != [] && t[0] == '@'
    ensures !AtRuleItem(t).Apply?
    ensures AtRuleItem(t).Keep? ==> AtRuleItem(t).text != [] && AtRuleItem(t).text[0] == '@'
  {
    if StatementEnd(t).Some? {
      assert StatementEnd(t).value.0 != [];
    }
  }

  lemma RuleItemShape(t: string)
    ensures !RuleItem(t).Keep?
    ensures RuleItem(t).Apply? ==> WfRule(RuleItem(t).rule)
  {
    match UpTo(t, '{')
    case None =>
    case Some((sel, after)) =>
      match UpTo(after, '}')
      case None =>
      case Some((block, rest)) =>
        TrimNoEdges(Trim(block));
  }

  /** Every stylesheet text reads as a well-formed stylesheet: each rule
      read has a selector and a trimmed, non-blank block, and each text
      kept is an at-rule. */
  lemma {:induction false} ParseItemsShape(s: string)
    ensures WfSheet(ParseItems(s))
    decreases |s|
  {
    var t := TrimLeft(s);
    NextItemShape(t);
    match NextItem(t)
    case End =>
    case Skip(rest) =>
      ItemsSkip(s, rest);
      ParseItemsShape(rest);
    case Keep(text, rest) =>
      ItemsKeep(s, text, rest);
      ParseItemsShape(rest);
      AddPreservedShape(text, ParseItems(rest));
    case Apply(r, rest) =>
      ItemsApply(s, r, rest);
      ParseItemsShape(rest);
      AddRuleShape(r, ParseItems(rest));
  }

  lemma AddRuleShape(r: Rule, sh: Sheet)
    requires WfRule(r) && WfSheet(sh)
    ensures WfSheet(AddRule(r, sh))
  {
    assert forall i :: 1 <= i < |sh.rules| + 1 ==> ([r] + sh.rules)[i] == sh.rules[i - 1];
  }

  lemma AddPreservedShape(text: string, sh: Sheet)
    requires text != [] && text[0] == '@' && WfSheet(sh)
    ensures WfSheet(AddPreserved(text, sh))
  {
    assert forall i :: 1 <= i < |sh.preserved| + 1 ==> ([text] + sh.preserved)[i] == sh.preserved[i - 1];
  }

  /** The stylesheet of any CSS text is well formed. */
  lemma ParseStylesheetShape(css: string)
    ensures WfSheet(ParseStylesheet(css))
  {
    ParseItemsShape(StripComments(css));
  }

  /** What a stylesheet holds after an item it skips. */
  lemma ItemsSkip(s: string, rest: string)
    requires NextItem(TrimLeft(s)) == Skip(rest)
    ensures ParseItems(s) == ParseItems(rest)
  {
  }

  lemma ItemsKeep(s: string, text: string, rest: string)
    requires NextItem(TrimLeft(s)) == Keep(text, rest)
    ensures ParseItems(s) == AddPreserved(text, ParseItems(rest))
  {
  }

  lemma ItemsApply(s: string, r: Rule, rest: string)
    requires NextItem(TrimLeft(s)) == Apply(r, rest)
    ensures ParseItems(s) == AddRule(r, ParseItems(rest))
  {
  }

  /** The at-keyword of `@<name>` followed by a character that cannot
      continue the name. */
  lemma AtKeywordOf(t: string, name: string, after: string)
    requires IsName(name) && NoUpper(name)
    requires t == "@" + name + after
    requires after == [] || !IsNameChar(after[0])
    ensures AtKeyword(t, name) && t[1 + |NamePrefix(t[1..])|..] == after
  {
    assert t[1..] == name + after;
    NamePrefixExact(name, after);
    SameIgnoringCaseSelf(name);
  }

  /** The rule at the start of `t`. */
  lemma NextRule(t: string, sel: string, block: string, rest: string)
    requires t != [] && t[0] != '@'
    requires UpTo(t, '{') == Some((sel, block + "}" + rest))
    requires '}' !in block
    ensures NextItem(t) ==
      if ParseSelectorList(sel) == [] || Trim(block) == [] then Skip(rest)
      else Apply(Rule(ParseSelectorList(sel), Trim(block)), rest)
  {
    assert block + "}" + rest == block + ['}'] + rest;
    UpToExact(block, '}', rest);
  }

  /** `selector { block }`: a rule with one selector. Its block is inlined
      with its outer whitespace trimmed and nothing else changed, unless it is
      blank. */
  lemma {:induction false} ParseRuleItem(sp: string, x: Selector, gap: string, block: string, rest: string)
    requires AllSpace(sp) && AllSpace(gap) && WfSelector(x)
    requires '{' !in Render(x) && ',' !in Render(x) && '}' !in block
    ensures ParseItems(sp + Render(x) + gap + "{" + block + "}" + rest) ==
      if Trim(block) == [] then ParseItems(rest)
      else AddRule(Rule([x], Trim(block)), ParseItems(rest))
  {
    var s := sp + Render(x) + gap + "{" + block + "}" + rest;
    var sel := Render(x) + gap;
    RenderShape(x);
    RuleText(sp, Render(x), gap, block, rest);
    var t := TrimLeft(s);
    assert t != [] && t[0] != '@';
    assert UpTo(t, '{') == Some((sel, block + "}" + rest));
    SelectorListOne(x, gap);
    NextRule(t, sel, block, rest);
    if Trim(block) == [] {
      ItemsSkip(s, rest);
    } else {
      ItemsApply(s, Rule([x], Trim(block)), rest);
    }
  }

  lemma SelectorListOne(x: Selector, gap: string)
    requires WfSelector(x) && AllSpace(gap) && ',' !in Render(x)
    ensures ParseSelectorList(Render(x) + gap) == [x]
  {
    var text := Render(x) + gap;
    NoCommaInSpace(gap);
    NotInConcat(',', Render(x), gap);
    ListOfOnePiece(text);
    EmptyPrefix(Render(x), gap);
    ParseSelectorPadded(text, [], x, gap);
  }

  /** Where the selector text and the block of a rule are found. */
  lemma RuleText(sp: string, r: string, gap: string, block: string, rest: string)
    requires AllSpace(sp) && AllSpace(gap)
    requires r != [] && !IsSpace(r[0]) && r[0] != '@' && '{' !in r
    ensures var t := TrimLeft(sp + r + gap + "{" + block + "}" + rest);
      t != [] && t[0] != '@' && UpTo(t, '{') == Some((r + gap, block + "}" + rest))
  {
    var t := r + gap + "{" + block + "}" + rest;
    assert sp + r + gap + "{" + block + "}" + rest == sp + t;
    assert t[0] == r[0];
    TrimLeftExact(sp, t);
    NoCommaInSpace(gap);
    assert '{' !in r + gap;
    assert t == (r + gap) + ['{'] + (block + "}" + rest);
    UpToExact(r + gap, '{', block + "}" + rest);
  }

  /** The `@import` statement at the start of `t`. */
  lemma NextImport(t: string, x: string, rest: string)
    requires t == "@import" + x + ";" + rest && ';' !in x
    requires x == [] || !IsNameChar(x[0])
    ensures NextItem(t) == Skip(rest)
  {
    var after := x + ";" + rest;
    assert after == [] || !IsNameChar(after[0]) by {
      if x == [] { assert after[0] == ';'; } else { assert after[0] == x[0]; }
    }
    assert IsName("import") && NoUpper("import");
    assert t == "@" + "import" + after;
    AtKeywordOf(t, "import", after);
    var head := "@import" + x;
    assert ';' !in head;
    assert t == head + [';'] + rest;
    UpToExact(head, ';', rest);
  }

  /** `@import ...;` leaves nothing behind: the statement is skipped up to
      and including its semicolon. */
  lemma ParseImportItem(sp: string, x: string, rest: string)
    requires AllSpace(sp) && ';' !in x
    requires x == [] || !IsNameChar(x[0])
    ensures ParseItems(sp + "@import" + x + ";" + rest) == ParseItems(rest)
  {
    var s := sp + "@import" + x + ";" + rest;
    var t := "@import" + x + ";" + rest;
    assert s == sp + t;
    assert t[0] == '@';
    TrimLeftExact(sp, t);
    NextImport(t, x, rest);
    ItemsSkip(s, rest);
  }

  /** Two names that agree ignoring case agree once lower-cased. */
  lemma {:induction false} SameIgnoringCaseLower(w: string, k: string)
    ensures SameIgnoringCase(w, k) ==> Lower(w) == k
    decreases |w|
  {
    if SameIgnoringCase(w, k) && w != [] {
      SameIgnoringCaseLower(w[1..], k[1..]);
      assert Lower(w) == [LowerChar(w[0])] + Lower(w[1..]);
      assert k == [k[0]] + k[1..];
    }
  }

  /** `@<name>` for a name other than `import` and `media`, in any letter
      case, is neither of those at-keywords. */
  lemma OtherKeyword(t: string, name: string, after: string)
    requires IsName(name) && Lower(name) != "import" && Lower(name) != "media"
    requires t == "@" + name + after
    requires after == [] || !IsNameChar(after[0])
    ensures t != [] && t[0] == '@' && !AtKeyword(t, "import") && !AtKeyword(t, "media")
  {
    assert t[1..] == name + after;
    NamePrefixExact(name, after);
    SameIgnoringCaseLower(name, "import");
    SameIgnoringCaseLower(name, "media");
  }

  /** The prelude of another at-rule: the at-keyword and what follows it up
      to `;` or `{`. */
  lemma AtPrelude(name: string, x: string)
    requires IsName(name) && ';' !in x && '{' !in x
    ensures var head := "@" + name + x; ';' !in head && '{' !in head
  {
    var head := "@" + name + x;
    assert forall i :: 0 <= i < |head| ==> head[i] == '@' || IsNameChar(head[i]) || head[i] in x;
  }

  /** An at-rule statement `@<name> x;` at the start of `t`. */
  lemma NextAtStatement(t: string, name: string, x: string, rest: string)
    requires IsName(name) && Lower(name) != "import" && Lower(name) != "media"
    requires x == [] || !IsNameChar(x[0])
    requires ';' !in x && '{' !in x
    requires t == "@" + name + x + ";" + rest
    ensures NextItem(t) == Keep("@" + name + x + ";", rest)
  {
    var head := "@" + name + x;
    var after := x + ";" + rest;
    assert after == [] || !IsNameChar(after[0]) by {
      if x == [] { assert after[0] == ';'; } else { assert after[0] == x[0]; }
    }
    assert t == "@" + name + after;
    OtherKeyword(t, name, after);
    AtPrelude(name, x);
    assert t == head + [';'] + rest;
    UpToExact(head, ';', rest);
    assert head + [';'] == "@" + name + x + ";";
  }

  /** `@<name> x;`, an at-rule statement such as `@charset "utf-8";`, is
      kept verbatim through its semicolon, and reading resumes right after
      it. */
  lemma ParseAtStatement(sp: string, name: string, x: string, rest: string)
    requires AllSpace(sp)
    requires IsName(name) && Lower(name) != "import" && Lower(name) != "media"
    requires x == [] || !IsNameChar(x[0])
    requires ';' !in x && '{' !in x
    ensures ParseItems(sp + "@" + name + x + ";" + rest) ==
      AddPreserved("@" + name + x + ";", ParseItems(rest))
  {
    var t := "@" + name + x + ";" + rest;
    assert sp + "@" + name + x + ";" + rest == sp + t;
    assert t[0] == '@';
    TrimLeftExact(sp, t);
    NextAtStatement(t, name, x, rest);
    ItemsKeep(sp + t, "@" + name + x + ";", rest);
  }

  /** A `;` after the first `{` does not end an at-rule statement. */
  lemma SemicolonAfterBrace(head: string, body: string)
    requires ';' !in head
    ensures StatementEnd(head + ['{'] + body).None?
  {
    var t := head + ['{'] + body;
    var u := UpTo(t, ';');
    if u.Some? {
      var h := u.value.0;
      assert t[|h|] == ';';
      assert forall i :: 0 <= i < |head| ==> t[i] == head[i];
      assert t[|head|] == '{';
      assert |h| > |head|;
      assert h[|head|] == t[|head|];
    }
  }

  /** The text `@<name> x{body}` opens another at-rule with a block: its
      prelude `@<name> x` holds neither `;` nor `{`. */
  lemma AtBlockHead(t: string, name: string, x: string, body: string)
    requires IsName(name) && Lower(name) != "import" && Lower(name) != "media"
    requires x == [] || !IsNameChar(x[0])
    requires ';' !in x && '{' !in x
    requires t == "@" + name + x + "{" + body
    ensures t != [] && t[0] == '@' && !AtKeyword(t, "import") && !AtKeyword(t, "media")
    ensures var head := "@" + name + x;
      t == head + ['{'] + body && ';' !in head && '{' !in head
  {
    var after := x + "{" + body;
    assert after == [] || !IsNameChar(after[0]) by {
      if x == [] { assert after[0] == '{'; } else { assert after[0] == x[0]; }
    }
    assert t == "@" + name + after;
    OtherKeyword(t, name, after);
    AtPrelude(name, x);
  }

  /** An at-rule `head{body}` whose prelude holds neither `;` nor `{` runs
      to the brace that closes its block. */
  lemma AtBlockNext(t: string, head: string, body: string, n: nat)
    requires t != [] && t[0] == '@' && !AtKeyword(t, "import") && !AtKeyword(t, "media")
    requires t == head + ['{'] + body && ';' !in head && '{' !in head
    requires BlockEnd(body, 1) == Some(n)
    ensures NextItem(t) == Keep(head + ['{'] + body[..n], body[n..])
  {
    SemicolonAfterBrace(head, body);
    UpToExact(head, '{', body);
    AtRuleBlock(t, head, body, n);
    NextOther(t);
  }

  lemma NextOther(t: string)
    requires t != [] && t[0] == '@' && !AtKeyword(t, "import") && !AtKeyword(t, "media")
    ensures NextItem(t) == AtRuleItem(t)
  {
  }

  lemma AtRuleBlock(t: string, head: string, body: string, n: nat)
    requires StatementEnd(t).None?
    requires UpTo(t, '{') == Some((head, body))
    requires BlockEnd(body, 1) == Some(n)
    ensures AtRuleItem(t) == Keep(head + ['{'] + body[..n], body[n..])
  {
  }

  /** An at-rule with a block, `@<name> x{inner}`, at the start of `t`,
      whose block closes where it should. */
  lemma NextAtBlock(t: string, name: string, x: string, inner: string, rest: string)
    requires IsName(name) && Lower(name) != "import" && Lower(name) != "media"
    requires x == [] || !IsNameChar(x[0])
    requires ';' !in x && '{' !in x
    requires t == "@" + name + x + "{" + inner + "}" + rest
    requires BlockEnd(inner + "}" + rest, 1) == Some(|inner| + 1)
    ensures NextItem(t) == Keep("@" + name + x + "{" + inner + "}", rest)
  {
    var body := inner + "}" + rest;
    var head := "@" + name + x;
    assert t == "@" + name + x + "{" + body;
    AtBlockHead(t, name, x, body);
    var n := |inner| + 1;
    AtBlockNext(t, head, body, n);
    BlockSplit(head, inner, rest);
  }

  lemma BlockSplit(head: string, inner: string, rest: string)
    ensures var body := inner + "}" + rest;
      var n := |inner| + 1;
      body[..n] == inner + "}" && body[n..] == rest && head + ['{'] + (inner + "}") == head + "{" + inner + "}"
  {
  }

  /** `@<name> x{inner}`, an at-rule whose block closes where it should,
      is kept verbatim, and reading resumes after its block. */
  lemma ParseAtBlockClosed(sp: string, name: string, x: string, inner: string, rest: string)
    requires AllSpace(sp)
    requires IsName(name) && Lower(name) != "import" && Lower(name) != "media"
    requires x == [] || !IsNameChar(x[0])
    requires ';' !in x && '{' !in x
    requires BlockEnd(inner + "}" + rest, 1) == Some(|inner| + 1)
    ensures var text := "@" + name + x + "{" + inner + "}";
      ParseItems(sp + text + rest) == AddPreserved(text, ParseItems(rest))
  {
    var text := "@" + name + x + "{" + inner + "}";
    var t := text + rest;
    assert sp + text + rest == sp + t;
    assert t[0] == '@';
    TrimLeftExact(sp, t);
    NextAtBlock(t, name, x, inner, rest);
    ItemsKeep(sp + t, text, rest);
  }

  lemma GroupedInner(name: string, x: string, g: string, z: string, rest: string)
    ensures g + z + "}" + rest == (g + z) + "}" + rest
    ensures "@" + name + x + "{" + g + z + "}" == "@" + name + x + "{" + (g + z) + "}"
  {
  }

  /** `@<name> x { x1{y1} ... xn{yn} z }`, an at-rule with a block such as
      `@font-face` or `@page`, is kept verbatim through the brace that
      closes its block, whatever rules or declarations the block holds;
      nothing of it is inlined. */
  lemma ParseAtBlock(sp: string, name: string, x: string, gs: seq<(string, string)>, z: string, rest: string)
    requires AllSpace(sp)
    requires IsName(name) && Lower(name) != "import" && Lower(name) != "media"
    requires x == [] || !IsNameChar(x[0])
    requires ';' !in x && '{' !in x
    requires PlainGroups(gs) && NoBrace(z)
    ensures var text := "@" + name + x + "{" + Groups(gs) + z + "}";
      ParseItems(sp + text + rest) == AddPreserved(text, ParseItems(rest))
  {
    BlockEndOfGroups(gs, z, rest);
    GroupedInner(name, x, Groups(gs), z, rest);
    ParseAtBlockClosed(sp, name, x, Groups(gs) + z, rest);
  }

  /** The `@media` rule at the start of `t`, whose block `inner}` closes
      where it should. */
  lemma NextMedia(t: string, text: string, prelude: string, inner: string, rest: string)
    requires text == "@media" + prelude + "{" + inner + "}"
    requires t == text + rest
    requires '{' !in prelude && (prelude == [] || !IsNameChar(prelude[0]))
    requires BlockEnd(inner + "}" + rest, 1) == Some(|inner| + 1)
    ensures NextItem(t) ==
      if ClassifyMedia(prelude) == Preserve then Keep(text, rest) else Skip(rest)
  {
    var body := inner + "}" + rest;
    var after := prelude + "{" + body;
    MediaKeyword(t, text, prelude, inner, rest, body, after);
    UpToExact(prelude, '{', body);
    var n := |inner| + 1;
    MediaText(t, text, body, rest, n);
    MediaItemOf(t, after, prelude, body, n);
  }

  lemma MediaKeyword(t: string, text: string, prelude: string, inner: string,
                     rest: string, body: string, after: string)
    requires text == "@media" + prelude + "{" + inner + "}"
    requires t == text + rest
    requires body == inner + "}" + rest
    requires after == prelude + "{" + body
    requires prelude == [] || !IsNameChar(prelude[0])
    ensures AtKeyword(t, "media") && !AtKeyword(t, "import")
    ensures t[1 + |NamePrefix(t[1..])|..] == after == prelude + ['{'] + body
  {
    assert after == [] || !IsNameChar(after[0]) by {
      if prelude == [] { assert after[0] == '{'; } else { assert after[0] == prelude[0]; }
    }
    assert IsName("media") && NoUpper("media");
    assert t == "@" + "media" + after;
    AtKeywordOf(t, "media", after);
  }

  lemma MediaItemOf(t: string, after: string, prelude: string, body: string, n: nat)
    requires AtKeyword(t, "media") && !AtKeyword(t, "import")
    requires t[1 + |NamePrefix(t[1..])|..] == after
    requires UpTo(after, '{') == Some((prelude, body))
    requires BlockEnd(body, 1) == Some(n)
    ensures NextItem(t) ==
      if ClassifyMedia(prelude) == Preserve then Keep(t[..|t| - |body| + n], body[n..])
      else Skip(body[n..])
  {
  }

  lemma MediaText(t: string, text: string, body: string, rest: string, n: nat)
    requires t == text + rest && n <= |body| && |body| >= |rest| && body[n..] == rest
    ensures |body| - n == |rest|
    ensures t[..|t| - |body| + n] == text
  {
  }

  /** `@media prelude { x{y}z }`, a media rule holding one rule: the
      media filter decides, from the prelude alone, whether the whole rule
      text is kept as it is written; in either case nothing of it is
      inlined. */
  lemma ParseMediaItem(sp: string, prelude: string, x: string, y: string, z: string, rest: string)
    requires AllSpace(sp) && '{' !in prelude
    requires prelude == [] || !IsNameChar(prelude[0])
    requires NoBrace(x) && NoBrace(y) && NoBrace(z)
    ensures var text := "@media" + prelude + "{" + x + "{" + y + "}" + z + "}";
      ParseItems(sp + text + rest) ==
        if ClassifyMedia(prelude) == Preserve then AddPreserved(text, ParseItems(rest))
        else ParseItems(rest)
  {
    var gs := [(x, y)];
    assert Groups(gs[1..]) == [];
    assert Groups(gs) == x + "{" + y + "}";
    MediaTextOne(prelude, x, y, z);
    ParseMediaRule(sp, prelude, gs, z, rest);
  }

  lemma MediaTextOne(prelude: string, x: string, y: string, z: string)
    ensures "@media" + prelude + "{" + (x + "{" + y + "}") + z + "}" ==
      "@media" + prelude + "{" + x + "{" + y + "}" + z + "}"
  {
    var p := "@media" + prelude + "{";
    Regroup3(p, x + "{" + y + "}", z + "}");
  }

  /** The rules inside a media block, `x1{y1}x2{y2}...`, with no braces in
      any `x` or `y`. */
  function Groups(gs: seq<(string, string)>): string {
    if gs == [] then [] else gs[0].0 + "{" + gs[0].1 + "}" + Groups(gs[1..])
  }

  predicate PlainGroups(gs: seq<(string, string)>) {
    forall i :: 0 <= i < |gs| ==> NoBrace(gs[i].0) && NoBrace(gs[i].1)
  }

  /** A media block of any number of rules, `Groups(gs) z }`, ends at the
      brace that closes it. */
  lemma {:induction false} BlockEndOfGroups(gs: seq<(string, string)>, z: string, rest: string)
    requires PlainGroups(gs) && NoBrace(z)
    ensures BlockEnd(Groups(gs) + z + "}" + rest, 1) == Some(|Groups(gs)| + |z| + 1)
    decreases |gs|
  {
    if gs == [] {
      assert Groups(gs) + z + "}" + rest == z + ("}" + rest);
      BlockEndClose(rest, 1);
      BlockEndPlain(z, "}" + rest, 1);
    } else {
      var x, y := gs[0].0, gs[0].1;
      assert NoBrace(x) && NoBrace(y);
      var tail := Groups(gs[1..]) + z + "}" + rest;
      BlockEndOfGroups(gs[1..], z, rest);
      GroupsCons(gs, z, rest);
      BlockEndOfGroup(x, y, tail);
    }
  }

  lemma GroupsCons(gs: seq<(string, string)>, z: string, rest: string)
    requires gs != []
    ensures Groups(gs) + z + "}" + rest ==
      gs[0].0 + ("{" + (gs[0].1 + ("}" + (Groups(gs[1..]) + z + "}" + rest))))
    ensures |Groups(gs)| == |gs[0].0| + |gs[0].1| + 2 + |Groups(gs[1..])|
  {
    GroupShape(gs[0].0, gs[0].1, Groups(gs[1..]), z + "}" + rest);
    assert Groups(gs[1..]) + (z + "}" + rest) == Groups(gs[1..]) + z + "}" + rest;
  }

  lemma GroupShape(x: string, y: string, g: string, tail: string)
    ensures x + "{" + y + "}" + g + tail == x + ("{" + (y + ("}" + (g + tail))))
  {
  }

  /** One rule `x{y}` of a media block leaves the depth where it was. */
  lemma BlockEndOfGroup(x: string, y: string, tail: string)
    requires NoBrace(x) && NoBrace(y)
    ensures BlockEnd(x + ("{" + (y + ("}" + tail))), 1) == Shift(BlockEnd(tail, 1), |x| + |y| + 2)
  {
    var e := BlockEnd(tail, 1);
    var r1 := y + ("}" + tail);
    var r0 := "{" + r1;
    assert BlockEnd(r0, 1) == Shift(e, |y| + 2) by {
      BlockEndOfDeclarations(y, tail);
      BlockEndOpen(r1, 1);
      ShiftShift(e, |y| + 1, 1);
    }
    assert BlockEnd(x + r0, 1) == Shift(e, |x| + |y| + 2) by {
      BlockEndPlain(x, r0, 1);
      ShiftShift(e, |y| + 2, |x|);
    }
  }

  /** Inside a rule of a media block, the block of declarations and its
      closing brace return to the depth of the media block. */
  lemma BlockEndOfDeclarations(y: string, tail: string)
    requires NoBrace(y)
    ensures BlockEnd(y + ("}" + tail), 2) == Shift(BlockEnd(tail, 1), |y| + 1)
  {
    var u := "}" + tail;
    BlockEndClose(tail, 2);
    BlockEndPlain(y, u, 2);
    ShiftShift(BlockEnd(tail, 1), 1, |y|);
  }

  lemma ShiftShift(r: Option<nat>, j: nat, k: nat)
    ensures Shift(Shift(r, j), k) == Shift(r, j + k)
  {
  }

  /** A media rule whose block closes where it should. */
  lemma MediaRuleItems(sp: string, text: string, prelude: string, inner: string, rest: string)
    requires AllSpace(sp) && '{' !in prelude
    requires prelude == [] || !IsNameChar(prelude[0])
    requires text == "@media" + prelude + "{" + inner + "}"
    requires BlockEnd(inner + "}" + rest, 1) == Some(|inner| + 1)
    ensures ParseItems(sp + text + rest) ==
      if ClassifyMedia(prelude) == Preserve then AddPreserved(text, ParseItems(rest))
      else ParseItems(rest)
  {
    var s := sp + text + rest;
    var t := text + rest;
    assert s == sp + t;
    assert t[0] == '@';
    TrimLeftExact(sp, t);
    NextMedia(t, text, prelude, inner, rest);
    if ClassifyMedia(prelude) == Preserve {
      ItemsKeep(s, text, rest);
    } else {
      ItemsSkip(s, rest);
    }
  }

  /** `@media prelude { x1{y1} ... xn{yn} z }`, a media rule holding any
      number of rules, none at all included: the media filter decides,
      from the prelude alone, whether the whole rule text is kept as it is
      written; in either case nothing of it is inlined. */
  lemma ParseMediaRule(sp: string, prelude: string, gs: seq<(string, string)>, z: string, rest: string)
    requires AllSpace(sp) && '{' !in prelude
    requires prelude == [] || !IsNameChar(prelude[0])
    requires PlainGroups(gs) && NoBrace(z)
    ensures var text := "@media" + prelude + "{" + Groups(gs) + z + "}";
      ParseItems(sp + text + rest) ==
        if ClassifyMedia(prelude) == Preserve then AddPreserved(text, ParseItems(rest))
        else ParseItems(rest)
  {
    var inner := Groups(gs) + z;
    var text := "@media" + prelude + "{" + Groups(gs) + z + "}";
    assert text == "@media" + prelude + "{" + inner + "}";
    assert inner + "}" + rest == Groups(gs) + z + "}" + rest;
    BlockEndOfGroups(gs, z, rest);
    MediaRuleItems(sp, text, prelude, inner, rest);
  }

  /** Whitespace alone describes an empty stylesheet. */
  lemma ParseItemsBlank(s: string)
    requires AllSpace(s)
    ensures ParseItems(s) == Sheet([], [])
  {
    TrimLeftAllSpace(s);
  }
}
