/**
 * The tests of the inliner on small documents: which elements gain a style,
 * how a declaration block is written into the `style` attribute, and how
 * it is merged with an existing inline style.
 */
module StyleExamples {
  import opened Wrappers
  import opened Text
  import opened Dom
  import opened Selectors
  import opened Matcher
  import opened Stylesheet
  import opened Declarations
  import opened Emogrifier
  import opened Examples

  // ---------------------------------------------------------------------
  // Documents and selectors
  // ---------------------------------------------------------------------

  /** `<html></html>` */
  const HtmlDoc := Element("html", [], [])

  /** `<html><p></p></html>`; the text of `<p>foo</p>` is left out. */
  const OnePDoc := Element("html", [], [Element("p", [], [])])

  /** `<html><p></p><p></p></html>` */
  const TwoPDoc := Element("html", [], [Element("p", [], []), Element("p", [], [])])

  /** `<html><p hidden="hidden"></p></html>` */
  const HiddenDoc := Element("html", [], [Element("p", [Attribute("hidden", "hidden")], [])])

  /** `<html><p class="x"></p></html>` */
  const ClassXDoc := Element("html", [], [Element("p", [Attribute("class", "x")], [])])

  /** `<html style="...">` with the given inline style. */
  function StyledHtml(style: string): Element {
    Element("html", [Attribute("style", style)], [])
  }

  const Html := Key(Compound(Some("html"), []))
  const Hidden := Key(Compound(None, [HasAttr("hidden")]))
  const ClassX := Key(Compound(None, [HasClass("x")]))

  lemma HtmlForm()
    ensures Render(Html) == "html" && WfSelector(Html)
    ensures '/' !in "html" && '{' !in "html" && ',' !in "html"
  {
    LowerFixesLowercase("html");
  }

  lemma HiddenForm()
    ensures Render(Hidden) == "[hidden]" && WfSelector(Hidden)
    ensures '/' !in "[hidden]" && '{' !in "[hidden]" && ',' !in "[hidden]"
  {
    LowerFixesLowercase("hidden");
  }

  lemma ClassXForm()
    ensures Render(ClassX) == ".x" && WfSelector(ClassX)
    ensures '/' !in ".x" && '{' !in ".x" && ',' !in ".x"
  {
  }

  /** A declaration block written between optional whitespace: it has no
      brace or slash, and trimming gives back exactly its text. */
  lemma PlainBlock(b: string, w1: string, t: string, w2: string)
    requires b == w1 + t + w2 && AllSpace(w1) && AllSpace(w2)
    requires t != [] && !IsSpace(t[0]) && !IsSpace(t[|t| - 1])
    requires '}' !in t && '/' !in t
    ensures '}' !in b && '/' !in b && Trim(b) == t != []
  {
    NoCommaInSpace(w1);
    NoCommaInSpace(w2);
    TrimExact(w1, t, w2);
  }

  // ---------------------------------------------------------------------
  // Stylesheets of one and of two rules, and what they do
  // ---------------------------------------------------------------------

  /** The stylesheet `text gap{block}`, one rule naming `x`, applied to an
      element without a style attribute: the element gains the trimmed
      block after its attributes when `x` matches it. */
  lemma OneRuleRow(root: Element, css: string, x: Selector, text: string, gap: string, block: string,
                   q: Path, attrs: seq<Attribute>, matched: bool)
    requires Render(x) == text && WfSelector(x)
    requires '/' !in text && '{' !in text && ',' !in text
    requires AllSpace(gap) && '}' !in block && '/' !in block && Trim(block) != []
    requires css == text + gap + "{" + block + "}"
    requires ValidPath(root, q) && At(root, q).attrs == attrs
    requires GetAttribute(attrs, "style").None? && MatchesAt(root, x, q) == matched
    ensures AttrsAt(Inlined(root, css), q) ==
      if matched then attrs + [Attribute("style", Trim(block))] else attrs
  {
    NoCommaInSpace(gap);
    assert css == text + gap + "{" + block + "}" + [];
    OneRuleSheet(css, x, gap, block, []);
    OneRuleInlined(root, x, Trim(block), q);
  }

  /** The stylesheet `t1 g1{b1}sp t2 g2{b2}` is two rules, in that order. */
  lemma TwoRuleSheet(css: string, x1: Selector, t1: string, g1: string, b1: string,
                     sp: string, x2: Selector, t2: string, g2: string, b2: string)
    requires Render(x1) == t1 && WfSelector(x1) && '/' !in t1 && '{' !in t1 && ',' !in t1
    requires Render(x2) == t2 && WfSelector(x2) && '/' !in t2 && '{' !in t2 && ',' !in t2
    requires AllSpace(g1) && AllSpace(g2) && AllSpace(sp)
    requires '}' !in b1 && '/' !in b1 && Trim(b1) != []
    requires '}' !in b2 && '/' !in b2 && Trim(b2) != []
    requires css == t1 + g1 + "{" + b1 + "}" + (sp + t2 + g2 + "{" + b2 + "}")
    ensures ParseStylesheet(css) == Sheet([Rule([x1], Trim(b1)), Rule([x2], Trim(b2))], [])
  {
    var rest := sp + t2 + g2 + "{" + b2 + "}";
    NoCommaInSpace(g1);
    NoCommaInSpace(g2);
    NoCommaInSpace(sp);
    assert '/' !in rest;
    StripWithoutSlash(css);
    NoPadding(css, t1, g1, b1, rest);
    ParseRuleItem([], x1, g1, b1, rest);
    assert rest == sp + Render(x2) + g2 + "{" + b2 + "}" + [];
    ParseRuleItem(sp, x2, g2, b2, []);
    ParseItemsBlank([]);
  }

  /** With two rules, an element without a style attribute gains the
      blocks of the rules that match it, in the order of the rules. */
  lemma TwoRulesInlined(root: Element, x1: Selector, b1: string, x2: Selector, b2: string, q: Path)
    requires ValidPath(root, q) && GetAttribute(At(root, q).attrs, "style").None?
    ensures ValidPath(Inline(root, [Rule([x1], b1), Rule([x2], b2)]), q)
    ensures At(Inline(root, [Rule([x1], b1), Rule([x2], b2)]), q).attrs ==
      WithStyle(At(root, q).attrs, MergeStyle(None,
        (if MatchesAt(root, x1, q) then [b1] else []) + (if MatchesAt(root, x2, q) then [b2] else [])))
  {
    InlineNewStyle(root, [Rule([x1], b1), Rule([x2], b2)], q);
    TwoMatched(root, x1, b1, x2, b2, q);
  }

  /** The blocks of two one-selector rules that apply to an element. */
  lemma TwoMatched(root: Element, x1: Selector, b1: string, x2: Selector, b2: string, q: Path)
    requires ValidPath(root, q)
    ensures MatchedBlocks(root, [Rule([x1], b1), Rule([x2], b2)], q) ==
      (if MatchesAt(root, x1, q) then [b1] else []) + (if MatchesAt(root, x2, q) then [b2] else [])
  {
    var rules := [Rule([x1], b1), Rule([x2], b2)];
    OneMatches(root, x1, q);
    OneMatches(root, x2, q);
    assert rules[1..] == [Rule([x2], b2)] && rules[1..][1..] == [];
    var c2 := Contribution(root, rules[1], q);
    assert MatchedBlocks(root, rules[1..], q) == c2 + [];
  }

  /** An element without an inline style gets the matching blocks joined,
      or no style when there are none. */
  lemma MergeFresh(b1: string, b2: string)
    ensures MergeStyle(None, []) == None
    ensures MergeStyle(None, [b1]) == Some(b1)
    ensures MergeStyle(None, [b1, b2]) == Some(b1 + b2)
    ensures MergeStyle(None, [b1] + [b2]) == Some(b1 + b2)
  {
    assert [b1] + [b2] == [b1, b2];
    assert LowerNames([]) == [];
    assert Concat([b1]) == b1 + Concat([]);
    assert [b1, b2][1..] == [b2];
    assert Concat([b2]) == b2 + Concat([]);
    assert Concat([b1, b2]) == b1 + Concat([b2]);
    assert [] + (b1 + []) == b1;
    assert [] + (b1 + (b2 + [])) == b1 + b2;
  }

  lemma OneMatches(root: Element, x: Selector, q: Path)
    requires ValidPath(root, q)
    ensures AnyMatches(root, [x], q) <==> MatchesAt(root, x, q)
  {
    if MatchesAt(root, x, q) {
      assert [x][0] == x;
    }
  }

  /** The style an element with an inline style ends up with: that style,
      property names lower-cased, then the matching blocks. */
  lemma ExistingStyleRow(root: Element, css: string, q: Path, e: string)
    requires ValidPath(root, q) && GetAttribute(At(root, q).attrs, "style") == Some(e)
    ensures StyleAt(Inlined(root, css), q) ==
      Some(LowerNames(e) + Concat(MatchedBlocks(root, ParseStylesheet(css).rules, q)))
  {
    EmogrifyInlines(root, css, q);
  }

  /** Two rules applied to an element without a style attribute: it gains
      the blocks of those that match it, in the order of the stylesheet. */
  lemma TwoRuleRow(root: Element, css: string, x1: Selector, t1: string, g1: string, b1: string,
                   sp: string, x2: Selector, t2: string, g2: string, b2: string,
                   q: Path, attrs: seq<Attribute>, m1: bool, m2: bool)
    requires Render(x1) == t1 && WfSelector(x1) && '/' !in t1 && '{' !in t1 && ',' !in t1
    requires Render(x2) == t2 && WfSelector(x2) && '/' !in t2 && '{' !in t2 && ',' !in t2
    requires AllSpace(g1) && AllSpace(g2) && AllSpace(sp)
    requires '}' !in b1 && '/' !in b1 && Trim(b1) == b1 != []
    requires '}' !in b2 && '/' !in b2 && Trim(b2) == b2 != []
    requires css == t1 + g1 + "{" + b1 + "}" + (sp + t2 + g2 + "{" + b2 + "}")
    requires ValidPath(root, q) && At(root, q).attrs == attrs && GetAttribute(attrs, "style").None?
    requires MatchesAt(root, x1, q) == m1 && MatchesAt(root, x2, q) == m2
    ensures AttrsAt(Inlined(root, css), q) ==
      WithStyle(attrs, MergeStyle(None, (if m1 then [b1] else []) + (if m2 then [b2] else [])))
  {
    TwoRuleSheet(css, x1, t1, g1, b1, sp, x2, t2, g2, b2);
    TwoRulesInlined(root, x1, b1, x2, b2, q);
  }

  // ---------------------------------------------------------------------
  // Which elements gain a style
  // ---------------------------------------------------------------------

  const Black := "color: #000;"

  lemma BlackBlock()
    ensures '}' !in Black && '/' !in Black && Trim(Black) == Black != []
  {
    PlainBlock(Black, [], Black, []);
  }

  lemma HtmlRoot(root: Element, attrs: seq<Attribute>)
    requires root.tag == "html" && root.attrs == attrs
    ensures ValidPath(root, []) && At(root, []).attrs == attrs
    ensures MatchesAt(root, Html, []) && !MatchesAt(root, P, [])
  {
    TypeSelectorMatchesTag(root, "html", []);
    TypeSelectorMatchesTag(root, "p", []);
  }

  const HtmlBlackCss := "html" + " " + "{" + Black + "}"

  /** `html {color: #000;}` gives `<html>` the style `color: #000;`. */
  lemma MatchingRuleStylesHtml()
    ensures AttrsAt(Inlined(HtmlDoc, HtmlBlackCss), []) == [Attribute("style", Black)]
  {
    HtmlForm();
    BlackBlock();
    HtmlRoot(HtmlDoc, []);
    OneRuleRow(HtmlDoc, HtmlBlackCss, Html, "html", " ", Black, [], [], true);
  }

  const PBlackCss := "p" + " " + "{" + Black + "}"

  /** `p {color: #000;}` leaves `<html>` without a style attribute. */
  lemma NotMatchingRuleLeavesHtml()
    ensures AttrsAt(Inlined(HtmlDoc, PBlackCss), []) == []
  {
    PForm();
    PPlain();
    BlackBlock();
    HtmlRoot(HtmlDoc, []);
    OneRuleRow(HtmlDoc, PBlackCss, P, "p", " ", Black, [], [], false);
  }

  lemma ParagraphAt(root: Element, q: Path)
    requires ValidPath(root, q) && At(root, q).tag == "p"
    ensures MatchesAt(root, P, q)
  {
    TypeSelectorMatchesTag(root, "p", q);
  }

  /** `p {color: #000;}` styles both paragraphs of `<p></p><p></p>`. */
  lemma RuleMatchesTwoElements()
    ensures AttrsAt(Inlined(TwoPDoc, PBlackCss), [0]) == [Attribute("style", Black)]
    ensures AttrsAt(Inlined(TwoPDoc, PBlackCss), [1]) == [Attribute("style", Black)]
  {
    PForm();
    PPlain();
    BlackBlock();
    ParagraphAt(TwoPDoc, [0]);
    ParagraphAt(TwoPDoc, [1]);
    OneRuleRow(TwoPDoc, PBlackCss, P, "p", " ", Black, [0], [], true);
    OneRuleRow(TwoPDoc, PBlackCss, P, "p", " ", Black, [1], [], true);
  }

  const TwoDeclarations := "color: #000; text-align: left;"
  const PTwoDeclarationsCss := "p" + " " + "{" + TwoDeclarations + "}"

  lemma TwoDeclarationsBlock()
    ensures '}' !in TwoDeclarations && '/' !in TwoDeclarations
    ensures Trim(TwoDeclarations) == TwoDeclarations != []
  {
    PlainBlock(TwoDeclarations, [], TwoDeclarations, []);
  }

  /** Both declarations of `p {color: #000; text-align: left;}` are written,
      as one style. */
  lemma TwoDeclarationsFromOneRule()
    ensures AttrsAt(Inlined(OnePDoc, PTwoDeclarationsCss), [0]) == [Attribute("style", TwoDeclarations)]
  {
    PForm();
    PPlain();
    TwoDeclarationsBlock();
    ParagraphAt(OnePDoc, [0]);
    OneRuleRow(OnePDoc, PTwoDeclarationsCss, P, "p", " ", TwoDeclarations, [0], [], true);
  }

  const HiddenCss := "[hidden]" + " " + "{" + (" " + "color:red;" + " ") + "}"

  /** `[hidden] { color:red; }` styles `<p hidden="hidden">` after its
      attribute, with the block trimmed. */
  lemma AttributeOnlySelector()
    ensures AttrsAt(Inlined(HiddenDoc, HiddenCss), [0]) ==
      [Attribute("hidden", "hidden"), Attribute("style", "color:red;")]
  {
    HiddenForm();
    PlainBlock(" " + "color:red;" + " ", " ", "color:red;", " ");
    AttributePresence(At(HiddenDoc, [0]), "hidden");
    assert At(HiddenDoc, [0]).attrs[0].name == "hidden";
    OneRuleRow(HiddenDoc, HiddenCss, Hidden, "[hidden]", " ", " " + "color:red;" + " ",
               [0], [Attribute("hidden", "hidden")], true);
  }

  // ---------------------------------------------------------------------
  // Two rules for one element
  // ---------------------------------------------------------------------

  const Rule1 := "color:#000;"
  const Rule2 := "text-align:left;"

  lemma TwoBlocks()
    ensures '}' !in Rule1 && '/' !in Rule1 && Trim(Rule1) == Rule1 != []
    ensures '}' !in Rule2 && '/' !in Rule2 && Trim(Rule2) == Rule2 != []
    ensures MergeStyle(None, [Rule1] + [Rule2]) == Some(Rule1 + Rule2)
  {
    Rule1Block();
    Rule2Block();
    MergeFresh(Rule1, Rule2);
  }

  lemma Rule1Block()
    ensures '}' !in Rule1 && '/' !in Rule1 && Trim(Rule1) == Rule1 != []
  {
    PlainBlock(Rule1, [], Rule1, []);
  }

  lemma Rule2Block()
    ensures '}' !in Rule2 && '/' !in Rule2 && Trim(Rule2) == Rule2 != []
  {
    PlainBlock(Rule2, [], Rule2, []);
  }

  const TwoIdenticalCss := "p" + " " + "{" + Rule1 + "}" + ("  " + "p" + " " + "{" + Rule2 + "}")

  /** `p {color:#000;}  p {text-align:left;}`: the paragraph gets both
      blocks, first rule first. */
  lemma TwoIdenticalSelectors()
    ensures AttrsAt(Inlined(OnePDoc, TwoIdenticalCss), [0]) == [Attribute("style", Rule1 + Rule2)]
  {
    PForm();
    PPlain();
    TwoBlocks();
    ParagraphAt(OnePDoc, [0]);
    TwoRuleRow(OnePDoc, TwoIdenticalCss, P, "p", " ", Rule1, "  ", P, "p", " ", Rule2,
               [0], [], true, true);
  }

  const TwoDifferentCss := "p" + " " + "{" + Rule1 + "}" + ("  " + ".x" + " " + "{" + Rule2 + "}")

  /** `p {color:#000;}  .x {text-align:left;}` on `<p class="x">`: both
      blocks, in the order of the stylesheet, after the class attribute. */
  lemma TwoDifferentSelectors()
    ensures AttrsAt(Inlined(ClassXDoc, TwoDifferentCss), [0]) ==
      [Attribute("class", "x"), Attribute("style", Rule1 + Rule2)]
  {
    PForm();
    PPlain();
    ClassXForm();
    TwoBlocks();
    ClassXAt();
    TwoRuleRow(ClassXDoc, TwoDifferentCss, P, "p", " ", Rule1, "  ", ClassX, ".x", " ", Rule2,
               [0], [Attribute("class", "x")], true, true);
  }

  lemma ClassXAt()
    ensures ValidPath(ClassXDoc, [0]) && At(ClassXDoc, [0]).attrs == [Attribute("class", "x")]
    ensures MatchesAt(ClassXDoc, P, [0]) && MatchesAt(ClassXDoc, ClassX, [0])
  {
    ParagraphAt(ClassXDoc, [0]);
    WordsSingle("x");
  }

  const Blue := "color:blue;"
  const RedNoSpace := "color:red;"
  const MinifiedCss := "p" + "{" + Blue + "}" + ("html" + "{" + RedNoSpace + "}")

  /** Two rules written without whitespace: the gaps are empty. */
  lemma NoGaps(css: string, t1: string, b1: string, t2: string, b2: string)
    requires css == t1 + "{" + b1 + "}" + (t2 + "{" + b2 + "}")
    ensures css == t1 + [] + "{" + b1 + "}" + ([] + t2 + [] + "{" + b2 + "}")
  {
    assert t1 + [] == t1 && [] + t2 + [] == t2;
  }

  lemma BlueBlock()
    ensures '}' !in Blue && '/' !in Blue && Trim(Blue) == Blue != []
  {
    PlainBlock(Blue, [], Blue, []);
  }

  lemma RedNoSpaceBlock()
    ensures '}' !in RedNoSpace && '/' !in RedNoSpace && Trim(RedNoSpace) == RedNoSpace != []
  {
    PlainBlock(RedNoSpace, [], RedNoSpace, []);
  }

  lemma SecondOnly(b1: string, b2: string)
    ensures MergeStyle(None, [] + [b2]) == Some(b2)
  {
    MergeFresh(b2, b1);
    assert [] + [b2] == [b2];
  }

  /** `p{color:blue;}html{color:red;}`, without any whitespace: `<html>`
      gets the second rule only. */
  lemma MinifiedStylesheet()
    ensures AttrsAt(Inlined(OnePDoc, MinifiedCss), []) == [Attribute("style", RedNoSpace)]
  {
    PForm();
    PPlain();
    HtmlForm();
    NoGaps(MinifiedCss, "p", Blue, "html", RedNoSpace);
    BlueBlock();
    RedNoSpaceBlock();
    SecondOnly(Blue, RedNoSpace);
    HtmlRoot(OnePDoc, []);
    TwoRuleRow(OnePDoc, MinifiedCss, P, "p", [], Blue, [], Html, "html", [], RedNoSpace,
               [], [], false, true);
  }

  // ---------------------------------------------------------------------
  // Declaration blocks: trimmed, otherwise kept as written
  // ---------------------------------------------------------------------

  function HtmlCss(block: string): string {
    "html" + " " + "{" + block + "}"
  }

  /** `html {w1 t w2}` gives `<html>` the style `t`: the whitespace around
      the block goes, everything inside it stays. */
  lemma HtmlBlockRow(block: string, w1: string, t: string, w2: string)
    requires block == w1 + t + w2 && AllSpace(w1) && AllSpace(w2)
    requires t != [] && !IsSpace(t[0]) && !IsSpace(t[|t| - 1])
    requires '}' !in t && '/' !in t
    ensures AttrsAt(Inlined(HtmlDoc, HtmlCss(block)), []) == [Attribute("style", t)]
  {
    HtmlForm();
    PlainBlock(block, w1, t, w2);
    HtmlRoot(HtmlDoc, []);
    OneRuleRow(HtmlDoc, HtmlCss(block), Html, "html", " ", block, [], [], true);
  }

  lemma DeclarationNoWhitespace()
    ensures AttrsAt(Inlined(HtmlDoc, HtmlCss("color:#000;")), []) == [Attribute("style", "color:#000;")]
  {
    HtmlBlockRow("color:#000;", [], "color:#000;", []);
  }

  lemma DeclarationNoSemicolon()
    ensures AttrsAt(Inlined(HtmlDoc, HtmlCss("color:#000")), []) == [Attribute("style", "color:#000")]
  {
    HtmlBlockRow("color:#000", [], "color:#000", []);
  }

  lemma DeclarationSpaceAfterColon()
    ensures AttrsAt(Inlined(HtmlDoc, HtmlCss("color: #000")), []) == [Attribute("style", "color: #000")]
  {
    HtmlBlockRow("color: #000", [], "color: #000", []);
  }

  lemma DeclarationSpaceBeforeColon()
    ensures AttrsAt(Inlined(HtmlDoc, HtmlCss("color :#000")), []) == [Attribute("style", "color :#000")]
  {
    HtmlBlockRow("color :#000", [], "color :#000", []);
  }

  lemma DeclarationSpaceBeforeName()
    ensures AttrsAt(Inlined(HtmlDoc, HtmlCss(" color:#000")), []) == [Attribute("style", "color:#000")]
  {
    HtmlBlockRow(" color:#000", " ", "color:#000", []);
  }

  lemma DeclarationSpaceBeforeSemicolon()
    ensures AttrsAt(Inlined(HtmlDoc, HtmlCss(" color:#000 ;")), []) == [Attribute("style", "color:#000 ;")]
  {
    HtmlBlockRow(" color:#000 ;", " ", "color:#000 ;", []);
  }

  /** The block ` color:#000; `, which appears twice in the data. */
  lemma DeclarationSpaceAround()
    ensures AttrsAt(Inlined(HtmlDoc, HtmlCss(" color:#000; ")), []) == [Attribute("style", "color:#000;")]
  {
    HtmlBlockRow(" color:#000; ", " ", "color:#000;", " ");
  }

  lemma FormatOneDeclaration()
    ensures AttrsAt(Inlined(HtmlDoc, HtmlCss("color: #000;")), []) == [Attribute("style", "color: #000;")]
  {
    HtmlBlockRow("color: #000;", [], "color: #000;", []);
  }

  lemma FormatDashInName()
    ensures AttrsAt(Inlined(HtmlDoc, HtmlCss("font-weight: bold;")), []) == [Attribute("style", "font-weight: bold;")]
  {
    HtmlBlockRow("font-weight: bold;", [], "font-weight: bold;", []);
  }

  lemma FormatSpaceInValue()
    ensures AttrsAt(Inlined(HtmlDoc, HtmlCss("margin: 0 4px;")), []) == [Attribute("style", "margin: 0 4px;")]
  {
    HtmlBlockRow("margin: 0 4px;", [], "margin: 0 4px;", []);
  }

  lemma FormatTwoDeclarations()
    ensures AttrsAt(Inlined(HtmlDoc, HtmlCss("color: #000;width: 3px;")), []) ==
      [Attribute("style", "color: #000;width: 3px;")]
  {
    HtmlBlockRow("color: #000;width: 3px;", [], "color: #000;width: 3px;", []);
  }

  lemma FormatTwoDeclarationsSpace()
    ensures AttrsAt(Inlined(HtmlDoc, HtmlCss("color: #000; width: 3px;")), []) ==
      [Attribute("style", "color: #000; width: 3px;")]
  {
    HtmlBlockRow("color: #000; width: 3px;", [], "color: #000; width: 3px;", []);
  }

  lemma FormatTwoDeclarationsLinefeed()
    ensures AttrsAt(Inlined(HtmlDoc, HtmlCss("color: #000;\nwidth: 3px;")), []) ==
      [Attribute("style", "color: #000;\nwidth: 3px;")]
  {
    HtmlBlockRow("color: #000;\nwidth: 3px;", [], "color: #000;\nwidth: 3px;", []);
  }

  /** Property names in the stylesheet keep their casing: `mArGiN`. */
  lemma KeepsCssNameCasing()
    ensures AttrsAt(Inlined(HtmlDoc, HtmlCss("mArGiN:0 2px;")), []) == [Attribute("style", "mArGiN:0 2px;")]
  {
    HtmlBlockRow("mArGiN:0 2px;", [], "mArGiN:0 2px;", []);
  }

  // ---------------------------------------------------------------------
  // An existing style attribute
  // ---------------------------------------------------------------------

  const Grey := "color" + ":" + "#ccc" + ";"
  const Shouting := "COLOR" + ":" + "#ccc" + ";"
  const Margin := "margin:0 2px;"

  /** The empty stylesheet has no rules. */
  lemma EmptySheet()
    ensures ParseStylesheet("") == Sheet([], [])
  {
    ParseItemsBlank([]);
  }

  /** `@charset "utf-8"; html {block}`: the charset rule is kept as it is
      written and the rule after it is still applied. */
  lemma CharsetThenRule(css: string, block: string, t: string)
    requires css == "@charset \"utf-8\";" + " " + HtmlCss(block)
    requires '}' !in block && '/' !in block && Trim(block) == t != []
    ensures ParseStylesheet(css) == Sheet([Rule([Html], t)], ["@charset \"utf-8\";"])
  {
    var rest := " " + HtmlCss(block);
    CharsetForm();
    HtmlRest(block);
    NotInConcat('/', "@charset \"utf-8\";", rest);
    AtStatementThenRule(css, "charset", " \"utf-8\"", rest, " ", Html, " ", block);
  }

  lemma CharsetForm()
    ensures IsName("charset") && Lower("charset") == "charset" && "charset" != "import"
    ensures "@charset \"utf-8\";" == "@" + "charset" + " \"utf-8\"" + ";"
    ensures '/' !in "@charset \"utf-8\";" && ';' !in " \"utf-8\"" && '{' !in " \"utf-8\""
    ensures !IsNameChar(" \"utf-8\""[0])
  {
  }

  lemma HtmlRest(block: string)
    requires '/' !in block
    ensures " " + HtmlCss(block) == " " + Render(Html) + " " + "{" + block + "}"
    ensures '/' !in " " + HtmlCss(block)
  {
    HtmlForm();
  }

  /** `@charset "utf-8"; html {color:red;}` */
  lemma CharsetKeepsRule()
    ensures ParseStylesheet("@charset \"utf-8\"; " + HtmlCss("color:red;")) ==
      Sheet([Rule([Html], "color:red;")], ["@charset \"utf-8\";"])
  {
    TrimExact([], "color:red;", []);
    assert [] + "color:red;" + [] == "color:red;";
    CharsetThenRule("@charset \"utf-8\"; " + HtmlCss("color:red;"), "color:red;", "color:red;");
  }

  /** The rules of `html {block}` for a block that trims to `t`. */
  lemma HtmlSheet(block: string, t: string)
    requires '}' !in block && '/' !in block && Trim(block) == t != []
    ensures ParseStylesheet(HtmlCss(block)) == Sheet([Rule([Html], t)], [])
  {
    HtmlForm();
    NoCommaInSpace(" ");
    assert HtmlCss(block) == Render(Html) + " " + "{" + block + "}" + [];
    OneRuleSheet(HtmlCss(block), Html, " ", block, []);
  }

  /** The blocks one rule contributes to an element. */
  lemma OneMatched(root: Element, x: Selector, b: string, q: Path)
    requires ValidPath(root, q)
    ensures MatchedBlocks(root, [Rule([x], b)], q) == if MatchesAt(root, x, q) then [b] else []
  {
    OneMatches(root, x, q);
    assert [Rule([x], b)][1..] == [];
  }

  /** An existing style of one declaration `n:v;`: the name is
      lower-cased, the value kept. */
  lemma OneDeclarationLower(style: string, n: string, v: string)
    requires style == n + ":" + v + ";" && ':' !in n && ';' !in n && ';' !in v
    ensures LowerNames(style) == Lower(n) + ":" + v + ";"
  {
    LowerNamesDeclaration(n, v, []);
    assert style == n + ":" + v + ";" + [];
    assert LowerNames([]) == [];
  }

  lemma GreyLower()
    ensures LowerNames(Grey) == Grey
  {
    LowerFixesLowercase("color");
    OneDeclarationLower(Grey, "color", "#ccc");
  }

  lemma ShoutingLower()
    ensures LowerNames(Shouting) == Grey
  {
    OneDeclarationLower(Shouting, "COLOR", "#ccc");
    CapitalsLower();
  }

  lemma CapitalsLower()
    ensures Lower("COLOR") == "color"
  {
  }

  /** `<html style="e">` with the stylesheet `html {block}`: the lowered
      existing style, then the trimmed block. */
  lemma HtmlExistingRow(e: string, block: string, t: string)
    requires '}' !in block && '/' !in block && Trim(block) == t != []
    ensures StyleAt(Inlined(StyledHtml(e), HtmlCss(block)), []) == Some(LowerNames(e) + t)
  {
    HtmlSheet(block, t);
    HtmlRoot(StyledHtml(e), [Attribute("style", e)]);
    ExistingOneRule(StyledHtml(e), HtmlCss(block), Html, t, [], e);
  }

  /** An element with the inline style `e` that the one rule of the
      stylesheet matches: its style becomes `e`, lowered, then the block. */
  lemma ExistingOneRule(root: Element, css: string, x: Selector, t: string, q: Path, e: string)
    requires ParseStylesheet(css) == Sheet([Rule([x], t)], [])
    requires ValidPath(root, q) && GetAttribute(At(root, q).attrs, "style") == Some(e)
    requires MatchesAt(root, x, q)
    ensures StyleAt(Inlined(root, css), q) == Some(LowerNames(e) + t)
  {
    ExistingStyleRow(root, css, q, e);
    var rules := ParseStylesheet(css).rules;
    OneMatched(root, x, t, q);
    assert MatchedBlocks(root, rules, q) == [t];
    assert Concat([t]) == t + Concat([]);
    assert Concat(MatchedBlocks(root, rules, q)) == t;
    assert StyleAt(Inlined(root, css), q) == Some(LowerNames(e) + Concat(MatchedBlocks(root, rules, q)));
  }

  /** With no stylesheet, `<html style="color:#ccc;">` keeps its style. */
  lemma KeepsExistingStyle()
    ensures StyleAt(Inlined(StyledHtml(Grey), ""), []) == Some(Grey)
  {
    ExistingStyleRow(StyledHtml(Grey), "", [], Grey);
    EmptySheet();
    GreyLower();
  }

  /** `html {margin:0 2px;}` is written after the existing
      `color:#ccc;`. */
  lemma AddsCssAfterExistingStyle()
    ensures StyleAt(Inlined(StyledHtml(Grey), HtmlCss(Margin)), []) == Some(Grey + Margin)
  {
    PlainBlock(Margin, [], Margin, []);
    HtmlExistingRow(Grey, Margin, Margin);
    GreyLower();
  }

  /** The property names of an existing style are lower-cased:
      `COLOR:#ccc;` becomes `color:#ccc;`. */
  lemma LowercasesExistingNames()
    ensures StyleAt(Inlined(StyledHtml(Shouting), ""), []) == Some(Grey)
  {
    ExistingStyleRow(StyledHtml(Shouting), "", [], Shouting);
    EmptySheet();
    ShoutingLower();
  }

  /** There is no output without a document. */
  lemma NoDocumentFails(css: string)
    ensures Emogrify(None, css) == Failure(NoDocument)
  {
  }
}
