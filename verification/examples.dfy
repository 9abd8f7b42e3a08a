/**
 * The documents and stylesheets of the inliner's test suite, and what the
 * model does with them.
 *
 * Each lemma here is derived from the general lemmas of the other modules:
 * the stylesheet text is taken apart with the parsing lemmas, and the
 * resulting rules are inlined with `InlineNewStyle` and friends.
 */
module Examples {
  import opened Wrappers
  import opened Text
  import opened Dom
  import opened Selectors
  import opened Matcher
  import opened Stylesheet
  import opened Declarations
  import opened Emogrifier

  /** A stylesheet of one rule, `x gap{block}rest`, with no comment in it. */
  lemma OneRuleSheet(css: string, x: Selector, gap: string, block: string, rest: string)
    requires css == Render(x) + gap + "{" + block + "}" + rest && '/' !in css
    requires WfSelector(x) && AllSpace(gap) && AllSpace(rest)
    requires '{' !in Render(x) && ',' !in Render(x) && '}' !in block
    requires Trim(block) != []
    ensures ParseStylesheet(css) == Sheet([Rule([x], Trim(block))], [])
  {
    StripWithoutSlash(css);
    NoPadding(css, Render(x), gap, block, rest);
    ParseRuleItem([], x, gap, block, rest);
    ParseItemsBlank(rest);
  }

  /** An at-rule statement such as `@charset "utf-8";` is kept verbatim
      and does not swallow the rule after it. */
  lemma AtStatementThenRule(css: string, name: string, x: string, rest: string,
                            sp: string, y: Selector, gap: string, block: string)
    requires IsName(name) && Lower(name) != "import" && Lower(name) != "media"
    requires x == [] || !IsNameChar(x[0])
    requires ';' !in x && '{' !in x
    requires AllSpace(sp) && AllSpace(gap) && WfSelector(y)
    requires '{' !in Render(y) && ',' !in Render(y) && '}' !in block && Trim(block) != []
    requires css == "@" + name + x + ";" + rest && '/' !in css
    requires rest == sp + Render(y) + gap + "{" + block + "}"
    ensures ParseStylesheet(css) == Sheet([Rule([y], Trim(block))], ["@" + name + x + ";"])
  {
    StripWithoutSlash(css);
    AtStatementFirst(css, name, x, rest);
    RuleAlone(sp, y, gap, block);
  }

  lemma AtStatementFirst(css: string, name: string, x: string, rest: string)
    requires IsName(name) && Lower(name) != "import" && Lower(name) != "media"
    requires x == [] || !IsNameChar(x[0])
    requires ';' !in x && '{' !in x
    requires css == "@" + name + x + ";" + rest
    ensures ParseItems(css) == AddPreserved("@" + name + x + ";", ParseItems(rest))
  {
    assert css[0] == '@' && [] + css == css;
    TrimLeftExact([], css);
    NextAtStatement(css, name, x, rest);
    ItemsKeep(css, "@" + name + x + ";", rest);
  }

  lemma RuleAlone(sp: string, y: Selector, gap: string, block: string)
    requires AllSpace(sp) && AllSpace(gap) && WfSelector(y)
    requires '{' !in Render(y) && ',' !in Render(y) && '}' !in block && Trim(block) != []
    ensures ParseItems(sp + Render(y) + gap + "{" + block + "}") == Sheet([Rule([y], Trim(block))], [])
  {
    assert sp + Render(y) + gap + "{" + block + "}" == sp + Render(y) + gap + "{" + block + "}" + [];
    ParseRuleItem(sp, y, gap, block, []);
    ParseItemsBlank([]);
  }

  lemma NoPadding(s: string, r: string, gap: string, block: string, rest: string)
    requires s == r + gap + "{" + block + "}" + rest
    ensures s == [] + r + gap + "{" + block + "}" + rest
  {
    assert [] + r == r;
  }

  /** With one rule, an element without a style attribute gains the rule's
      block if the rule's selector matches it, and is left alone if not. */
  lemma OneRuleInlined(root: Element, x: Selector, b: string, q: Path)
    requires ValidPath(root, q) && GetAttribute(At(root, q).attrs, "style").None?
    ensures ValidPath(Inline(root, [Rule([x], b)]), q)
    ensures At(Inline(root, [Rule([x], b)]), q).attrs ==
      if MatchesAt(root, x, q) then At(root, q).attrs + [Attribute("style", b)] else At(root, q).attrs
  {
    var rules := [Rule([x], b)];
    InlineNewStyle(root, rules, q);
    assert rules[1..] == [];
    assert AnyMatches(root, [x], q) <==> MatchesAt(root, x, q) by {
      if MatchesAt(root, x, q) {
        assert [x][0] == x;
      }
    }
    if MatchesAt(root, x, q) {
      assert MatchedBlocks(root, rules, q) == [b];
      assert Concat([b]) == b + Concat([]);
      assert LowerNames([]) == [];
      assert MergeStyle(None, [b]) == Some(b) by {
        assert [] + (b + []) == b;
      }
    } else {
      assert MatchedBlocks(root, rules, q) == [];
    }
  }

  // ---------------------------------------------------------------------
  // The document the selector tests run on
  // ---------------------------------------------------------------------

  /** `<html id="html"><body>` with three paragraphs `p-1`, `p-2`, `p-3`,
      each holding one `span`; the second span has the title `bonjour`, the
      third `buenas dias`. Text nodes are left out. */
  const Fixture: Element :=
    Element("html", [Attribute("id", "html")], [
      Element("body", [], [
        Element("p", [Attribute("class", "p-1")], [Element("span", [], [])]),
        Element("p", [Attribute("class", "p-2")], [Element("span", [Attribute("title", "bonjour")], [])]),
        Element("p", [Attribute("class", "p-3")], [Element("span", [Attribute("title", "buenas dias")], [])])
      ])
    ])

  /** The attributes of the element at `q` of a document, none if there is
      no such element. */
  function AttrsAt(doc: Element, q: Path): seq<Attribute> {
    if ValidPath(doc, q) then At(doc, q).attrs else []
  }

  /** The document `root` with the stylesheet `css` inlined into it. */
  function Inlined(root: Element, css: string): Element {
    Emogrify(Some(root), css).value.document
  }

  /** The `style` attribute of the element at `q`, if there is one. */
  function StyleAt(doc: Element, q: Path): Option<string> {
    if ValidPath(doc, q) then GetAttribute(At(doc, q).attrs, "style") else None
  }

  const Red := "color: red;"


  /** The stylesheet `x {color: red;} ` is the one rule `x` with the block
      `color: red;`. */
  lemma RedSheet(css: string, x: Selector, text: string)
    requires Render(x) == text && WfSelector(x)
    requires '/' !in text && '{' !in text && ',' !in text
    requires css == text + " " + "{" + Red + "}" + " "
    ensures ParseStylesheet(css) == Sheet([Rule([x], Red)], [])
  {
    RedParts(css, text);
    OneRuleSheet(css, x, " ", Red, " ");
  }

  lemma RedParts(css: string, text: string)
    requires '/' !in text
    requires css == text + " " + "{" + Red + "}" + " "
    ensures '/' !in css && AllSpace(" ") && '}' !in Red && Trim(Red) == Red != []
  {
    TrimExact([], Red, []);
    assert [] + Red + [] == Red;
  }

  /** An element of the fixture without a style attribute gains
      `style="color: red;"` after its other attributes when the one rule of
      the stylesheet matches it, and is left alone otherwise. */
  lemma FixtureRow(css: string, x: Selector, q: Path, attrs: seq<Attribute>, matched: bool)
    requires ParseStylesheet(css) == Sheet([Rule([x], Red)], [])
    requires ValidPath(Fixture, q) && At(Fixture, q).attrs == attrs
    requires GetAttribute(attrs, "style").None? && MatchesAt(Fixture, x, q) == matched
    ensures AttrsAt(Inlined(Fixture, css), q) == if matched then attrs + [Attribute("style", Red)] else attrs
  {
    OneRuleInlined(Fixture, x, Red, q);
  }

  // The selectors of the selector tests. `XForm` gives the text of the
  // selector `X`, and `XSheet` reads the stylesheet `X {color: red;} `.

  const TypeP := Compound(Some("p"), [])
  const TypeSpan := Compound(Some("span"), [])
  const TypeBody := Compound(Some("body"), [])

  const Universal := Key(Compound(None, []))
  const UniversalCss := "*" + " " + "{" + Red + "}" + " "

  lemma UniversalForm()
    ensures Render(Universal) == "*" && WfSelector(Universal)
  {
  }

  lemma UniversalPlain()
    ensures '/' !in "*" && '{' !in "*" && ',' !in "*"
  {
  }

  lemma UniversalSheet(css: string)
    requires css == "*" + " " + "{" + Red + "}" + " "
    ensures ParseStylesheet(css) == Sheet([Rule([Universal], Red)], [])
  {
    UniversalForm();
    UniversalPlain();
    RedSheet(css, Universal, "*");
  }

  const P := Key(TypeP)
  const PCss := "p" + " " + "{" + Red + "}" + " "

  lemma PForm()
    ensures Render(P) == "p" && WfSelector(P)
  {
    LowerFixesLowercase("p");
  }

  lemma PPlain()
    ensures '/' !in "p" && '{' !in "p" && ',' !in "p"
  {
  }

  lemma PSheet(css: string)
    requires css == "p" + " " + "{" + Red + "}" + " "
    ensures ParseStylesheet(css) == Sheet([Rule([P], Red)], [])
  {
    PForm();
    PPlain();
    RedSheet(css, P, "p");
  }

  const PSpan := Chain(Key(TypeP), Descendant, TypeSpan)
  const PSpanCss := "p" + " " + "span" + " " + "{" + Red + "}" + " "

  lemma PSpanForm()
    ensures Render(PSpan) == "p" + " " + "span" && WfSelector(PSpan)
  {
    LowerFixesLowercase("p");
    LowerFixesLowercase("span");
  }

  lemma PSpanPlain()
    ensures '/' !in "p" + " " + "span" && '{' !in "p" + " " + "span" && ',' !in "p" + " " + "span"
  {
  }

  lemma PSpanSheet(css: string)
    requires css == "p" + " " + "span" + " " + "{" + Red + "}" + " "
    ensures ParseStylesheet(css) == Sheet([Rule([PSpan], Red)], [])
  {
    PSpanForm();
    PSpanPlain();
    RedSheet(css, PSpan, "p" + " " + "span");
  }

  const BodySpan := Chain(Key(TypeBody), Descendant, TypeSpan)
  const BodySpanCss := "body" + " " + "span" + " " + "{" + Red + "}" + " "

  lemma BodySpanForm()
    ensures Render(BodySpan) == "body" + " " + "span" && WfSelector(BodySpan)
  {
    LowerFixesLowercase("body");
    LowerFixesLowercase("span");
  }

  lemma BodySpanPlain()
    ensures '/' !in "body" + " " + "span" && '{' !in "body" + " " + "span" && ',' !in "body" + " " + "span"
  {
  }

  lemma BodySpanSheet(css: string)
    requires css == "body" + " " + "span" + " " + "{" + Red + "}" + " "
    ensures ParseStylesheet(css) == Sheet([Rule([BodySpan], Red)], [])
  {
    BodySpanForm();
    BodySpanPlain();
    RedSheet(css, BodySpan, "body" + " " + "span");
  }

  const PChildSpan := Chain(Key(TypeP), Child, TypeSpan)
  const PChildSpanCss := "p" + " > " + "span" + " " + "{" + Red + "}" + " "

  lemma PChildSpanForm()
    ensures Render(PChildSpan) == "p" + " > " + "span" && WfSelector(PChildSpan)
  {
    LowerFixesLowercase("p");
    LowerFixesLowercase("span");
  }

  lemma PChildSpanPlain()
    ensures '/' !in "p" + " > " + "span" && '{' !in "p" + " > " + "span" && ',' !in "p" + " > " + "span"
  {
  }

  lemma PChildSpanSheet(css: string)
    requires css == "p" + " > " + "span" + " " + "{" + Red + "}" + " "
    ensures ParseStylesheet(css) == Sheet([Rule([PChildSpan], Red)], [])
  {
    PChildSpanForm();
    PChildSpanPlain();
    RedSheet(css, PChildSpan, "p" + " > " + "span");
  }

  const BodyChildSpan := Chain(Key(TypeBody), Child, TypeSpan)
  const BodyChildSpanCss := "body" + " > " + "span" + " " + "{" + Red + "}" + " "

  lemma BodyChildSpanForm()
    ensures Render(BodyChildSpan) == "body" + " > " + "span" && WfSelector(BodyChildSpan)
  {
    LowerFixesLowercase("body");
    LowerFixesLowercase("span");
  }

  lemma BodyChildSpanPlain()
    ensures '/' !in "body" + " > " + "span" && '{' !in "body" + " > " + "span" && ',' !in "body" + " > " + "span"
  {
  }

  lemma BodyChildSpanSheet(css: string)
    requires css == "body" + " > " + "span" + " " + "{" + Red + "}" + " "
    ensures ParseStylesheet(css) == Sheet([Rule([BodyChildSpan], Red)], [])
  {
    BodyChildSpanForm();
    BodyChildSpanPlain();
    RedSheet(css, BodyChildSpan, "body" + " > " + "span");
  }

  const PNextP := Chain(Key(TypeP), AdjacentSibling, TypeP)
  const PNextPCss := "p" + " + " + "p" + " " + "{" + Red + "}" + " "

  lemma PNextPForm()
    ensures Render(PNextP) == "p" + " + " + "p" && WfSelector(PNextP)
  {
    LowerFixesLowercase("p");
  }

  lemma PNextPPlain()
    ensures '/' !in "p" + " + " + "p" && '{' !in "p" + " + " + "p" && ',' !in "p" + " + " + "p"
  {
  }

  lemma PNextPSheet(css: string)
    requires css == "p" + " + " + "p" + " " + "{" + Red + "}" + " "
    ensures ParseStylesheet(css) == Sheet([Rule([PNextP], Red)], [])
  {
    PNextPForm();
    PNextPPlain();
    RedSheet(css, PNextP, "p" + " + " + "p");
  }

  const IdHtml := Key(Compound(None, [HasId("html")]))
  const IdHtmlCss := "#html" + " " + "{" + Red + "}" + " "

  lemma IdHtmlForm()
    ensures Render(IdHtml) == "#html" && WfSelector(IdHtml)
  {
  }

  lemma IdHtmlPlain()
    ensures '/' !in "#html" && '{' !in "#html" && ',' !in "#html"
  {
  }

  lemma IdHtmlSheet(css: string)
    requires css == "#html" + " " + "{" + Red + "}" + " "
    ensures ParseStylesheet(css) == Sheet([Rule([IdHtml], Red)], [])
  {
    IdHtmlForm();
    IdHtmlPlain();
    RedSheet(css, IdHtml, "#html");
  }

  const HtmlIdHtml := Key(Compound(Some("html"), [HasId("html")]))
  const HtmlIdHtmlCss := "html" + "#html" + " " + "{" + Red + "}" + " "

  lemma HtmlIdHtmlForm()
    ensures Render(HtmlIdHtml) == "html" + "#html" && WfSelector(HtmlIdHtml)
  {
    LowerFixesLowercase("html");
  }

  lemma HtmlIdHtmlPlain()
    ensures '/' !in "html" + "#html" && '{' !in "html" + "#html" && ',' !in "html" + "#html"
  {
  }

  lemma HtmlIdHtmlSheet(css: string)
    requires css == "html" + "#html" + " " + "{" + Red + "}" + " "
    ensures ParseStylesheet(css) == Sheet([Rule([HtmlIdHtml], Red)], [])
  {
    HtmlIdHtmlForm();
    HtmlIdHtmlPlain();
    RedSheet(css, HtmlIdHtml, "html" + "#html");
  }

  const ClassP1 := Key(Compound(None, [HasClass("p-1")]))
  const ClassP1Css := ".p-1" + " " + "{" + Red + "}" + " "

  lemma ClassP1Form()
    ensures Render(ClassP1) == ".p-1" && WfSelector(ClassP1)
  {
  }

  lemma ClassP1Plain()
    ensures '/' !in ".p-1" && '{' !in ".p-1" && ',' !in ".p-1"
  {
  }

  lemma ClassP1Sheet(css: string)
    requires css == ".p-1" + " " + "{" + Red + "}" + " "
    ensures ParseStylesheet(css) == Sheet([Rule([ClassP1], Red)], [])
  {
    ClassP1Form();
    ClassP1Plain();
    RedSheet(css, ClassP1, ".p-1");
  }

  const PClassP1 := Key(Compound(Some("p"), [HasClass("p-1")]))
  const PClassP1Css := "p" + ".p-1" + " " + "{" + Red + "}" + " "

  lemma PClassP1Form()
    ensures Render(PClassP1) == "p" + ".p-1" && WfSelector(PClassP1)
  {
    LowerFixesLowercase("p");
  }

  lemma PClassP1Plain()
    ensures '/' !in "p" + ".p-1" && '{' !in "p" + ".p-1" && ',' !in "p" + ".p-1"
  {
  }

  lemma PClassP1Sheet(css: string)
    requires css == "p" + ".p-1" + " " + "{" + Red + "}" + " "
    ensures ParseStylesheet(css) == Sheet([Rule([PClassP1], Red)], [])
  {
    PClassP1Form();
    PClassP1Plain();
    RedSheet(css, PClassP1, "p" + ".p-1");
  }

  const SpanTitle := Key(Compound(Some("span"), [HasAttr("title")]))
  const SpanTitleCss := "span" + "[title]" + " " + "{" + Red + "}" + " "

  lemma SpanTitleForm()
    ensures Render(SpanTitle) == "span" + "[title]" && WfSelector(SpanTitle)
  {
    LowerFixesLowercase("span");
    LowerFixesLowercase("title");
  }

  lemma SpanTitlePlain()
    ensures '/' !in "span" + "[title]" && '{' !in "span" + "[title]" && ',' !in "span" + "[title]"
  {
  }

  lemma SpanTitleSheet(css: string)
    requires css == "span" + "[title]" + " " + "{" + Red + "}" + " "
    ensures ParseStylesheet(css) == Sheet([Rule([SpanTitle], Red)], [])
  {
    SpanTitleForm();
    SpanTitlePlain();
    RedSheet(css, SpanTitle, "span" + "[title]");
  }

  const SpanBonjour := Key(Compound(Some("span"), [AttrEquals("title", "bonjour")]))
  const SpanBonjourCss := "span" + "[title=\"bonjour\"]" + " " + "{" + Red + "}" + " "

  lemma SpanBonjourForm()
    ensures Render(SpanBonjour) == "span" + "[title=\"bonjour\"]" && WfSelector(SpanBonjour)
  {
    LowerFixesLowercase("span");
    LowerFixesLowercase("title");
  }

  lemma SpanBonjourPlain()
    ensures '/' !in "span" + "[title=\"bonjour\"]" && '{' !in "span" + "[title=\"bonjour\"]" && ',' !in "span" + "[title=\"bonjour\"]"
  {
  }

  lemma SpanBonjourSheet(css: string)
    requires css == "span" + "[title=\"bonjour\"]" + " " + "{" + Red + "}" + " "
    ensures ParseStylesheet(css) == Sheet([Rule([SpanBonjour], Red)], [])
  {
    SpanBonjourForm();
    SpanBonjourPlain();
    RedSheet(css, SpanBonjour, "span" + "[title=\"bonjour\"]");
  }

  // The rows of the selector tests, on the fixture.

  /** `*` styles the root `html` element, after its `id`. */
  lemma UniversalSelectorHtml()
    ensures AttrsAt(Inlined(Fixture, UniversalCss), []) == [Attribute("id", "html"), Attribute("style", Red)]
  {
    UniversalSheet(UniversalCss);
    UniversalSelectorHtmlFacts();
    FixtureRow(UniversalCss, Universal, [], [Attribute("id", "html")], true);
  }

  lemma UniversalSelectorHtmlFacts()
    ensures ValidPath(Fixture, []) && At(Fixture, []).attrs == [Attribute("id", "html")]
    ensures GetAttribute([Attribute("id", "html")], "style").None? && MatchesAt(Fixture, Universal, []) == true
  {
    UniversalMatchesEverything(Fixture, []);
  }

  /** `*` styles `body`. */
  lemma UniversalSelectorBody()
    ensures AttrsAt(Inlined(Fixture, UniversalCss), [0]) == [Attribute("style", Red)]
  {
    UniversalSheet(UniversalCss);
    UniversalSelectorBodyFacts();
    FixtureRow(UniversalCss, Universal, [0], [], true);
  }

  lemma UniversalSelectorBodyFacts()
    ensures ValidPath(Fixture, [0]) && At(Fixture, [0]).attrs == []
    ensures GetAttribute([], "style").None? && MatchesAt(Fixture, Universal, [0]) == true
  {
    UniversalMatchesEverything(Fixture, [0]);
  }

  /** `*` styles the paragraphs. */
  lemma UniversalSelectorP()
    ensures AttrsAt(Inlined(Fixture, UniversalCss), [0, 0]) == [Attribute("class", "p-1"), Attribute("style", Red)]
  {
    UniversalSheet(UniversalCss);
    UniversalSelectorPFacts();
    FixtureRow(UniversalCss, Universal, [0, 0], [Attribute("class", "p-1")], true);
  }

  lemma UniversalSelectorPFacts()
    ensures ValidPath(Fixture, [0, 0]) && At(Fixture, [0, 0]).attrs == [Attribute("class", "p-1")]
    ensures GetAttribute([Attribute("class", "p-1")], "style").None? && MatchesAt(Fixture, Universal, [0, 0]) == true
  {
    UniversalMatchesEverything(Fixture, [0, 0]);
  }

  /** `p` styles the first paragraph. */
  lemma TypeSelectorFirstP()
    ensures AttrsAt(Inlined(Fixture, PCss), [0, 0]) == [Attribute("class", "p-1"), Attribute("style", Red)]
  {
    PSheet(PCss);
    TypeSelectorFirstPFacts();
    FixtureRow(PCss, P, [0, 0], [Attribute("class", "p-1")], true);
  }

  lemma TypeSelectorFirstPFacts()
    ensures ValidPath(Fixture, [0, 0]) && At(Fixture, [0, 0]).attrs == [Attribute("class", "p-1")]
    ensures GetAttribute([Attribute("class", "p-1")], "style").None? && MatchesAt(Fixture, P, [0, 0]) == true
  {
    TypeSelectorMatchesTag(Fixture, "p", [0, 0]);
  }

  /** `p` styles the second paragraph. */
  lemma TypeSelectorSecondP()
    ensures AttrsAt(Inlined(Fixture, PCss), [0, 1]) == [Attribute("class", "p-2"), Attribute("style", Red)]
  {
    PSheet(PCss);
    TypeSelectorSecondPFacts();
    FixtureRow(PCss, P, [0, 1], [Attribute("class", "p-2")], true);
  }

  lemma TypeSelectorSecondPFacts()
    ensures ValidPath(Fixture, [0, 1]) && At(Fixture, [0, 1]).attrs == [Attribute("class", "p-2")]
    ensures GetAttribute([Attribute("class", "p-2")], "style").None? && MatchesAt(Fixture, P, [0, 1]) == true
  {
    TypeSelectorMatchesTag(Fixture, "p", [0, 1]);
  }

  /** `p span` styles a span inside a paragraph. */
  lemma DescendantSelectorPSpan()
    ensures AttrsAt(Inlined(Fixture, PSpanCss), [0, 0, 0]) == [Attribute("style", Red)]
  {
    PSpanSheet(PSpanCss);
    DescendantSelectorPSpanFacts();
    FixtureRow(PSpanCss, PSpan, [0, 0, 0], [], true);
  }

  lemma DescendantSelectorPSpanFacts()
    ensures ValidPath(Fixture, [0, 0, 0]) && At(Fixture, [0, 0, 0]).attrs == []
    ensures GetAttribute([], "style").None? && MatchesAt(Fixture, PSpan, [0, 0, 0]) == true
  {
    assert [0, 0, 0][..2] == [0, 0];
    DescendantAtAnyDepth(Fixture, Key(TypeP), TypeSpan, [0, 0, 0], 2);
  }

  /** `body span` styles a span two levels below `body`. */
  lemma DescendantSelectorBodySpan()
    ensures AttrsAt(Inlined(Fixture, BodySpanCss), [0, 0, 0]) == [Attribute("style", Red)]
  {
    BodySpanSheet(BodySpanCss);
    DescendantSelectorBodySpanFacts();
    FixtureRow(BodySpanCss, BodySpan, [0, 0, 0], [], true);
  }

  lemma DescendantSelectorBodySpanFacts()
    ensures ValidPath(Fixture, [0, 0, 0]) && At(Fixture, [0, 0, 0]).attrs == []
    ensures GetAttribute([], "style").None? && MatchesAt(Fixture, BodySpan, [0, 0, 0]) == true
  {
    assert [0, 0, 0][..1] == [0];
    DescendantAtAnyDepth(Fixture, Key(TypeBody), TypeSpan, [0, 0, 0], 1);
  }

  /** `p > span` styles a span whose parent is a paragraph. */
  lemma ChildSelectorPSpan()
    ensures AttrsAt(Inlined(Fixture, PChildSpanCss), [0, 0, 0]) == [Attribute("style", Red)]
  {
    PChildSpanSheet(PChildSpanCss);
    ChildSelectorPSpanFacts();
    FixtureRow(PChildSpanCss, PChildSpan, [0, 0, 0], [], true);
  }

  lemma ChildSelectorPSpanFacts()
    ensures ValidPath(Fixture, [0, 0, 0]) && At(Fixture, [0, 0, 0]).attrs == []
    ensures GetAttribute([], "style").None? && MatchesAt(Fixture, PChildSpan, [0, 0, 0]) == true
  {
    assert Parent([0, 0, 0]) == [0, 0];
    ChildLooksAtParentOnly(Fixture, Key(TypeP), TypeSpan, [0, 0, 0]);
  }

  /** `body > span` leaves a span whose grandparent, not parent, is `body` unstyled. */
  lemma ChildSelectorBodySpanNotGrandchild()
    ensures AttrsAt(Inlined(Fixture, BodyChildSpanCss), [0, 0, 0]) == []
  {
    BodyChildSpanSheet(BodyChildSpanCss);
    ChildSelectorBodySpanNotGrandchildFacts();
    FixtureRow(BodyChildSpanCss, BodyChildSpan, [0, 0, 0], [], false);
  }

  lemma ChildSelectorBodySpanNotGrandchildFacts()
    ensures ValidPath(Fixture, [0, 0, 0]) && At(Fixture, [0, 0, 0]).attrs == []
    ensures GetAttribute([], "style").None? && MatchesAt(Fixture, BodyChildSpan, [0, 0, 0]) == false
  {
    assert Parent([0, 0, 0]) == [0, 0];
    ChildLooksAtParentOnly(Fixture, Key(TypeBody), TypeSpan, [0, 0, 0]);
  }

  /** `p + p` leaves the first paragraph unstyled. */
  lemma AdjacentSelectorNotFirstP()
    ensures AttrsAt(Inlined(Fixture, PNextPCss), [0, 0]) == [Attribute("class", "p-1")]
  {
    PNextPSheet(PNextPCss);
    AdjacentSelectorNotFirstPFacts();
    FixtureRow(PNextPCss, PNextP, [0, 0], [Attribute("class", "p-1")], false);
  }

  lemma AdjacentSelectorNotFirstPFacts()
    ensures ValidPath(Fixture, [0, 0]) && At(Fixture, [0, 0]).attrs == [Attribute("class", "p-1")]
    ensures GetAttribute([Attribute("class", "p-1")], "style").None? && MatchesAt(Fixture, PNextP, [0, 0]) == false
  {
    AdjacentLooksAtPreviousSibling(Fixture, Key(TypeP), TypeP, [0, 0]);
  }

  /** `p + p` styles the second paragraph. */
  lemma AdjacentSelectorSecondP()
    ensures AttrsAt(Inlined(Fixture, PNextPCss), [0, 1]) == [Attribute("class", "p-2"), Attribute("style", Red)]
  {
    PNextPSheet(PNextPCss);
    AdjacentSelectorSecondPFacts();
    FixtureRow(PNextPCss, PNextP, [0, 1], [Attribute("class", "p-2")], true);
  }

  lemma AdjacentSelectorSecondPFacts()
    ensures ValidPath(Fixture, [0, 1]) && At(Fixture, [0, 1]).attrs == [Attribute("class", "p-2")]
    ensures GetAttribute([Attribute("class", "p-2")], "style").None? && MatchesAt(Fixture, PNextP, [0, 1]) == true
  {
    assert PreviousSibling([0, 1]) == [0, 0];
    AdjacentLooksAtPreviousSibling(Fixture, Key(TypeP), TypeP, [0, 1]);
  }

  /** `p + p` styles the third paragraph. */
  lemma AdjacentSelectorThirdP()
    ensures AttrsAt(Inlined(Fixture, PNextPCss), [0, 2]) == [Attribute("class", "p-3"), Attribute("style", Red)]
  {
    PNextPSheet(PNextPCss);
    AdjacentSelectorThirdPFacts();
    FixtureRow(PNextPCss, PNextP, [0, 2], [Attribute("class", "p-3")], true);
  }

  lemma AdjacentSelectorThirdPFacts()
    ensures ValidPath(Fixture, [0, 2]) && At(Fixture, [0, 2]).attrs == [Attribute("class", "p-3")]
    ensures GetAttribute([Attribute("class", "p-3")], "style").None? && MatchesAt(Fixture, PNextP, [0, 2]) == true
  {
    assert PreviousSibling([0, 2]) == [0, 1];
    AdjacentLooksAtPreviousSibling(Fixture, Key(TypeP), TypeP, [0, 2]);
  }

  /** `#html` styles the element with that `id`. */
  lemma IdSelector()
    ensures AttrsAt(Inlined(Fixture, IdHtmlCss), []) == [Attribute("id", "html"), Attribute("style", Red)]
  {
    IdHtmlSheet(IdHtmlCss);
    IdSelectorFacts();
    FixtureRow(IdHtmlCss, IdHtml, [], [Attribute("id", "html")], true);
  }

  lemma IdSelectorFacts()
    ensures ValidPath(Fixture, []) && At(Fixture, []).attrs == [Attribute("id", "html")]
    ensures GetAttribute([Attribute("id", "html")], "style").None? && MatchesAt(Fixture, IdHtml, []) == true
  {
  }

  /** `html#html` styles the `html` element with that `id`. */
  lemma TypeAndIdSelector()
    ensures AttrsAt(Inlined(Fixture, HtmlIdHtmlCss), []) == [Attribute("id", "html"), Attribute("style", Red)]
  {
    HtmlIdHtmlSheet(HtmlIdHtmlCss);
    TypeAndIdSelectorFacts();
    FixtureRow(HtmlIdHtmlCss, HtmlIdHtml, [], [Attribute("id", "html")], true);
  }

  lemma TypeAndIdSelectorFacts()
    ensures ValidPath(Fixture, []) && At(Fixture, []).attrs == [Attribute("id", "html")]
    ensures GetAttribute([Attribute("id", "html")], "style").None? && MatchesAt(Fixture, HtmlIdHtml, []) == true
  {
  }

  /** `.p-1` styles the paragraph of that class. */
  lemma ClassSelector()
    ensures AttrsAt(Inlined(Fixture, ClassP1Css), [0, 0]) == [Attribute("class", "p-1"), Attribute("style", Red)]
  {
    ClassP1Sheet(ClassP1Css);
    ClassSelectorFacts();
    FixtureRow(ClassP1Css, ClassP1, [0, 0], [Attribute("class", "p-1")], true);
  }

  lemma ClassSelectorFacts()
    ensures ValidPath(Fixture, [0, 0]) && At(Fixture, [0, 0]).attrs == [Attribute("class", "p-1")]
    ensures GetAttribute([Attribute("class", "p-1")], "style").None? && MatchesAt(Fixture, ClassP1, [0, 0]) == true
  {
    WordsSingle("p-1");
  }

  /** `p.p-1` styles the paragraph of that class. */
  lemma TypeAndClassSelector()
    ensures AttrsAt(Inlined(Fixture, PClassP1Css), [0, 0]) == [Attribute("class", "p-1"), Attribute("style", Red)]
  {
    PClassP1Sheet(PClassP1Css);
    TypeAndClassSelectorFacts();
    FixtureRow(PClassP1Css, PClassP1, [0, 0], [Attribute("class", "p-1")], true);
  }

  lemma TypeAndClassSelectorFacts()
    ensures ValidPath(Fixture, [0, 0]) && At(Fixture, [0, 0]).attrs == [Attribute("class", "p-1")]
    ensures GetAttribute([Attribute("class", "p-1")], "style").None? && MatchesAt(Fixture, PClassP1, [0, 0]) == true
  {
    WordsSingle("p-1");
  }

  /** `span[title]` styles a span with a title. */
  lemma AttributePresenceMatches()
    ensures AttrsAt(Inlined(Fixture, SpanTitleCss), [0, 1, 0]) == [Attribute("title", "bonjour"), Attribute("style", Red)]
  {
    SpanTitleSheet(SpanTitleCss);
    AttributePresenceMatchesFacts();
    FixtureRow(SpanTitleCss, SpanTitle, [0, 1, 0], [Attribute("title", "bonjour")], true);
  }

  lemma AttributePresenceMatchesFacts()
    ensures ValidPath(Fixture, [0, 1, 0]) && At(Fixture, [0, 1, 0]).attrs == [Attribute("title", "bonjour")]
    ensures GetAttribute([Attribute("title", "bonjour")], "style").None? && MatchesAt(Fixture, SpanTitle, [0, 1, 0]) == true
  {
  }

  /** `span[title]` leaves a span without attributes unstyled. */
  lemma AttributePresenceNoAttributes()
    ensures AttrsAt(Inlined(Fixture, SpanTitleCss), [0, 0, 0]) == []
  {
    SpanTitleSheet(SpanTitleCss);
    AttributePresenceNoAttributesFacts();
    FixtureRow(SpanTitleCss, SpanTitle, [0, 0, 0], [], false);
  }

  lemma AttributePresenceNoAttributesFacts()
    ensures ValidPath(Fixture, [0, 0, 0]) && At(Fixture, [0, 0, 0]).attrs == []
    ensures GetAttribute([], "style").None? && MatchesAt(Fixture, SpanTitle, [0, 0, 0]) == false
  {
    assert !TestHolds(SpanTitle.c.tests[0], At(Fixture, [0, 0, 0]));
  }

  /** `span[title="bonjour"]` styles the span with exactly that title. */
  lemma AttributeValueMatches()
    ensures AttrsAt(Inlined(Fixture, SpanBonjourCss), [0, 1, 0]) == [Attribute("title", "bonjour"), Attribute("style", Red)]
  {
    SpanBonjourSheet(SpanBonjourCss);
    AttributeValueMatchesFacts();
    FixtureRow(SpanBonjourCss, SpanBonjour, [0, 1, 0], [Attribute("title", "bonjour")], true);
  }

  lemma AttributeValueMatchesFacts()
    ensures ValidPath(Fixture, [0, 1, 0]) && At(Fixture, [0, 1, 0]).attrs == [Attribute("title", "bonjour")]
    ensures GetAttribute([Attribute("title", "bonjour")], "style").None? && MatchesAt(Fixture, SpanBonjour, [0, 1, 0]) == true
  {
  }

  /** `span[title="bonjour"]` leaves the span titled `buenas dias` unstyled. */
  lemma AttributeValueOtherValue()
    ensures AttrsAt(Inlined(Fixture, SpanBonjourCss), [0, 2, 0]) == [Attribute("title", "buenas dias")]
  {
    SpanBonjourSheet(SpanBonjourCss);
    AttributeValueOtherValueFacts();
    FixtureRow(SpanBonjourCss, SpanBonjour, [0, 2, 0], [Attribute("title", "buenas dias")], false);
  }

  lemma AttributeValueOtherValueFacts()
    ensures ValidPath(Fixture, [0, 2, 0]) && At(Fixture, [0, 2, 0]).attrs == [Attribute("title", "buenas dias")]
    ensures GetAttribute([Attribute("title", "buenas dias")], "style").None? && MatchesAt(Fixture, SpanBonjour, [0, 2, 0]) == false
  {
    assert !TestHolds(SpanBonjour.c.tests[0], At(Fixture, [0, 2, 0]));
  }

  /** `span[title="bonjour"]` leaves a span without attributes unstyled. */
  lemma AttributeValueNoAttributes()
    ensures AttrsAt(Inlined(Fixture, SpanBonjourCss), [0, 0, 0]) == []
  {
    SpanBonjourSheet(SpanBonjourCss);
    AttributeValueNoAttributesFacts();
    FixtureRow(SpanBonjourCss, SpanBonjour, [0, 0, 0], [], false);
  }

  lemma AttributeValueNoAttributesFacts()
    ensures ValidPath(Fixture, [0, 0, 0]) && At(Fixture, [0, 0, 0]).attrs == []
    ensures GetAttribute([], "style").None? && MatchesAt(Fixture, SpanBonjour, [0, 0, 0]) == false
  {
    assert !TestHolds(SpanBonjour.c.tests[0], At(Fixture, [0, 0, 0]));
  }
}
