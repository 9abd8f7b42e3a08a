# Emogrifier CSS inliner: a Dafny model

Emogrifier takes an HTML document and a stylesheet and writes the stylesheet's
declarations into the `style` attribute of the elements they select, so that
the document renders in mail clients that ignore `<style>` blocks. This
project models that engine behaviourally, in four pure parts, with the
document taken as an already-built element tree and the CSS as text:

- **Selector matching** (`Selectors`, `Matcher`): a selector is parsed into
  a chain of compounds (type or `*`, `#id`, `.class`, `[attr]`,
  `[attr="v"]`) joined by the descendant, child (`>`) and adjacent sibling
  (`+`) combinators. The selector is matched against the element at a path
  of child indices in the tree. The matcher is proved to agree with
  a separate statement of the supported subset of sections 5.3 to 5.9 of
  CSS 2.1. Both share the test of one compound against one element, so the
  agreement is about how the combinators relate elements. The parser is
  proved to invert the printer.
- **Stylesheet reading** (`Stylesheet`): comments (section 4.1.9 of CSS
  2.1) are stripped. The text is split into `selectors { block }` rules,
  whitespace or not. `@import` statements (section 6.3) are skipped,
  `@media` rules are classified, and any other at-rule is kept verbatim
  with the media CSS.
- **Media filter** (`Media`): the first whitespace-separated word of a
  media rule's prelude, after an optional `only`, decides. A rule is kept
  verbatim as media CSS, and not inlined, when it has no type word (an
  empty prelude, or one whose first word starts with `(`), or when that
  word is `all` or `screen` in any letter case, whatever `and (...)`
  features follow. Every other first word drops the rule entirely. This
  covers the other media types of section 7.3 of CSS 2.1, and also words
  that name no media type.
- **Style merge** (`Declarations`, `Emogrifier`): an element's new `style`
  is its existing inline style with property names lower-cased (every
  `;` is taken to end a declaration), followed
  by the blocks of the matching rules in stylesheet order. Each block has
  its surrounding whitespace trimmed and is otherwise unchanged, including
  the casing of the property names written in the stylesheet. An element
  that nothing matches and that had no style gains no `style` attribute. A
  missing document is refused with an error.

The tests' expectations are proved as concrete lemmas:
- `Examples`: the selector table over its fixture document.
- `StyleExamples`: the rule, declaration and existing-style tests.
- `MediaExamples`: comments, `@import` and the media-rule tests.

## Model

All source cells refer to `Tests/Unit/EmogrifierTest.php`, the only file of the repository in this model.

| member | source | states |
|---|---|---|
| Matcher.MatchesIffSelects | Tests/Unit/EmogrifierTest.php:323-357 | The matcher holds at an element exactly when the selector selects it in the sense of CSS 2.1. A compound matches the element itself; a combinator needs a related element (parent, any ancestor, or preceding sibling) that the left part selects. |
| Matcher.AncestorMatchesIff | Tests/Unit/EmogrifierTest.php:333-334 | The ancestor search succeeds exactly when some proper ancestor on the path is selected by the left-hand selector. |
| Matcher.UniversalMatchesEverything | Tests/Unit/EmogrifierTest.php:328-330 | `*` matches every element of the tree, the root `html` included. |
| Matcher.TypeSelectorMatchesTag | Tests/Unit/EmogrifierTest.php:331-332 | A type selector matches an element if and only if the element has that tag. |
| Matcher.DescendantAtAnyDepth | Tests/Unit/EmogrifierTest.php:333-334 | `a b` matches an element matching `b` whenever any ancestor, at any depth, matches `a`. |
| Matcher.ChildLooksAtParentOnly | Tests/Unit/EmogrifierTest.php:335-337 | `a > b` holds if and only if the element matches `b` and its parent matches `a`, so a grandparent matching `a` is not enough. This holds both for the matcher and for the CSS 2.1 relation. |
| Matcher.AdjacentLooksAtPreviousSibling | Tests/Unit/EmogrifierTest.php:338-342 | `a + b` never matches a first child. Otherwise it holds if and only if the element matches `b` and its immediately preceding sibling matches `a`. This holds both for the matcher and for the CSS 2.1 relation. |
| Matcher.AttributePresence | Tests/Unit/EmogrifierTest.php:348-351 | `[n]` holds if and only if the element has an attribute called `n`, whatever its value. |
| Matcher.AttributeValue | Tests/Unit/EmogrifierTest.php:352-357 | `[n="v"]` holds if and only if reading the attribute `n` gives exactly `v`. It fails on an element without `n`. |
| Selectors.ParseRender | Tests/Unit/EmogrifierTest.php:323-357 | Parsing the printed text of any well-formed selector gives back that selector, so every selector form the tests use is read as written. |
| Dom.GetAttribute | Tests/Unit/EmogrifierTest.php:474-483 | An attribute is found if and only if the element has one of that name. The value found is that of the first attribute of that name. |
| Dom.SetAttribute | Tests/Unit/EmogrifierTest.php:488-501 | Setting an absent attribute appends it after the others. Setting a present one replaces the first attribute of that name with the new value and leaves every other entry, later duplicates included, as it was. |
| Dom.SetThenGet | Tests/Unit/EmogrifierTest.php:488-501 | After an attribute is set, reading it gives the value written. |
| Dom.SetKeepsOthers | Tests/Unit/EmogrifierTest.php:275-285 | Setting `style` leaves every other attribute as it was. |
| Dom.SetLast | Tests/Unit/EmogrifierTest.php:305-316 | Writing `style` again after it was appended updates it in place, at the end. |
| Stylesheet.StripComment | Tests/Unit/EmogrifierTest.php:567-568 | A comment, delimiters included, leaves nothing behind in the stylesheet. |
| Stylesheet.StripWithoutComment | Tests/Unit/EmogrifierTest.php:216-226 | Stylesheet text in which no comment opens is read unchanged, slashes and stars included. |
| Stylesheet.StripWithoutSlash | Tests/Unit/EmogrifierTest.php:216-226 | Stylesheet text without any slash opens no comment, so it is read unchanged. |
| Stylesheet.StripKeepsPrefix | Tests/Unit/EmogrifierTest.php:567-568 | Text before a comment is kept as it is, provided no comment opens inside it or across its end. |
| Stylesheet.ParseRuleItem | Tests/Unit/EmogrifierTest.php:506-515 | `selector {block}` is one rule with the trimmed block, followed by the rules of the rest, whether or not whitespace separates them. A blank block contributes no rule. |
| Stylesheet.ParseImportItem | Tests/Unit/EmogrifierTest.php:569 | An `@import ...;` statement is skipped through its semicolon and leaves no rule and no media CSS. |
| Stylesheet.ParseMediaRule | Tests/Unit/EmogrifierTest.php:570-578 | A media rule holding any number of rules, none included, contributes no inlined rule. Its whole text is kept as media CSS exactly when its prelude is classified as preserved. |
| Stylesheet.ParseMediaItem | Tests/Unit/EmogrifierTest.php:570-578 | The same for a media rule holding one rule, the form every test uses. |
| Stylesheet.ParseStylesheetShape | Tests/Unit/EmogrifierTest.php:393-426 | Whatever the CSS text, every rule read has at least one selector and a block that is not blank and carries no outer whitespace. Every kept media text is non-empty and starts with `@`. |
| Text.Trim | Tests/Unit/EmogrifierTest.php:393-404 | Trimming removes whitespace only, from both ends: the input is the result with whitespace before and after it, and the result neither starts nor ends with whitespace. |
| Text.TrimExact | Tests/Unit/EmogrifierTest.php:414-426 | Trimming whitespace-padded text that has no whitespace at its edges gives back exactly that text. |
| Stylesheet.ParseItemsBlank | Tests/Unit/EmogrifierTest.php:474-483 | A stylesheet of whitespace only has no rules and no media CSS. |
| Media.ParseMediaType | Tests/Unit/EmogrifierTest.php:755-765 | A word names a media type exactly when it is that type's name in some letter case. A word that names none is recognised as no type. |
| Media.ClassifyUnknown | Tests/Unit/EmogrifierTest.php:755-765 | A media rule whose first word, after an optional `only`, is not a media type name is discarded, whatever follows that word. |
| Media.CommaAttached | Tests/Unit/EmogrifierTest.php:755-765 | A media type name with a comma attached, such as `screen,`, is not a type word, so a prelude starting with it is discarded, for every media type. |
| Media.ParseTypeName | Tests/Unit/EmogrifierTest.php:570-578 | Each of the eleven media types of CSS 2.1 is recognised from its name in any letter case. |
| Media.ParseMediaTypeIgnoresCase | Tests/Unit/EmogrifierTest.php:755-765 | Media type names are compared without regard to letter case. |
| Media.ClassifyTyped | Tests/Unit/EmogrifierTest.php:681-694 | `@media [only] <type> [features]` is kept if and only if the type is `all` or `screen`. Otherwise it is discarded. |
| Media.ClassifyNoType | Tests/Unit/EmogrifierTest.php:606-613 | A media rule with no media type, with or without features, is kept. |
| Declarations.LowerNamesDeclaration | Tests/Unit/EmogrifierTest.php:520-528 | In an inline style `n:v;...`, the property name is lower-cased, the value is kept exactly, and the rest is treated the same way. |
| Declarations.LowerNamesIdempotent | Tests/Unit/EmogrifierTest.php:474-483 | Lowering the property names of an existing style a second time changes nothing. |
| Declarations.MergeStyle | Tests/Unit/EmogrifierTest.php:231-240 | An element has a merged style if and only if it had a style or some rule matched it. |
| Declarations.MergeStyleSnoc | Tests/Unit/EmogrifierTest.php:289-316 | Each further matching block is appended after everything before it, so blocks appear in stylesheet order after the existing style. |
| Declarations.ConcatSnoc | Tests/Unit/EmogrifierTest.php:289-316 | Joining blocks one at a time, as a rule-by-rule pass does, equals joining them all. |
| Emogrifier.InlineStyleAt | Tests/Unit/EmogrifierTest.php:216-316 | Every element of the inlined tree has exactly the merged style of its existing style and matching blocks. Every other attribute, the tag and the number of children stay unchanged. |
| Emogrifier.InlineKeepsPaths | Tests/Unit/EmogrifierTest.php:216-316 | Inlining keeps the shape of the tree: the same paths lead to elements. |
| Emogrifier.InlineNewStyle | Tests/Unit/EmogrifierTest.php:216-255 | An element without a style keeps its attributes in order and gains `style` last when some rule matches. Otherwise it is left exactly as it was. |
| Emogrifier.Emogrify | Tests/Unit/EmogrifierTest.php:62-81 | Emogrifying fails if and only if no document is set. On success the media CSS is exactly the at-rules the stylesheet preserves. |
| Emogrifier.RerunLowersCssNames | Tests/Unit/EmogrifierTest.php:520-545 | Inlining is not idempotent. A rule whose block starts with an upper-case letter keeps that letter after one run, and a second run with no rules lower-cases it. |
| Emogrifier.EmogrifyInlines | Tests/Unit/EmogrifierTest.php:216-316 | With a document, emogrifying succeeds and writes into each element the style its matching rules give it, keeping its tag. |
| Examples.OneRuleSheet | Tests/Unit/EmogrifierTest.php:323-357 | `text gap{block}sp` reads as the one rule for that selector with the trimmed block. |
| Examples.OneRuleInlined | Tests/Unit/EmogrifierTest.php:369-386 | One rule gives an unstyled element `style="block"` after its attributes when it matches, and nothing otherwise. |
| Examples.RedSheet | Tests/Unit/EmogrifierTest.php:324-325 | Each selector of the table, with the block `color: red;`, reads as that one rule. |
| Examples.FixtureRow | Tests/Unit/EmogrifierTest.php:369-386 | A fixture element gains `style="color: red;"` after its attributes exactly when the selector matches it. |
| Examples.UniversalSelectorHtml | Tests/Unit/EmogrifierTest.php:328 | `* {color: red;}` gives `<html id="html">` the style after its id. |
| Examples.UniversalSelectorBody | Tests/Unit/EmogrifierTest.php:329 | `*` styles `body`. |
| Examples.UniversalSelectorP | Tests/Unit/EmogrifierTest.php:330 | `*` styles a `p`. |
| Examples.TypeSelectorFirstP | Tests/Unit/EmogrifierTest.php:331 | `p` styles `<p class="p-1">` after its class. |
| Examples.TypeSelectorSecondP | Tests/Unit/EmogrifierTest.php:332 | `p` styles `<p class="p-2">`. |
| Examples.DescendantSelectorPSpan | Tests/Unit/EmogrifierTest.php:333 | `p span` styles the span inside a paragraph. |
| Examples.DescendantSelectorBodySpan | Tests/Unit/EmogrifierTest.php:334 | `body span` styles the span two levels down. |
| Examples.ChildSelectorPSpan | Tests/Unit/EmogrifierTest.php:335-336 | `p > span` styles the span that is a direct child. |
| Examples.ChildSelectorBodySpanNotGrandchild | Tests/Unit/EmogrifierTest.php:337 | `body > span` leaves the grandchild span as plain `<span>`. |
| Examples.AdjacentSelectorNotFirstP | Tests/Unit/EmogrifierTest.php:338 | `p + p` leaves the first paragraph unstyled. |
| Examples.AdjacentSelectorSecondP | Tests/Unit/EmogrifierTest.php:339-340 | `p + p` styles the second paragraph. |
| Examples.AdjacentSelectorThirdP | Tests/Unit/EmogrifierTest.php:341-342 | `p + p` styles the third paragraph. |
| Examples.IdSelector | Tests/Unit/EmogrifierTest.php:343 | `#html` styles `<html id="html">`. |
| Examples.TypeAndIdSelector | Tests/Unit/EmogrifierTest.php:344-345 | `html#html` styles `<html id="html">`. |
| Examples.ClassSelector | Tests/Unit/EmogrifierTest.php:346 | `.p-1` styles `<p class="p-1">`. |
| Examples.TypeAndClassSelector | Tests/Unit/EmogrifierTest.php:347 | `p.p-1` styles `<p class="p-1">`. |
| Examples.AttributePresenceMatches | Tests/Unit/EmogrifierTest.php:348-349 | `span[title]` styles `<span title="bonjour">` after its title. |
| Examples.AttributePresenceNoAttributes | Tests/Unit/EmogrifierTest.php:350-351 | `span[title]` leaves an attribute-less span alone. |
| Examples.AttributeValueMatches | Tests/Unit/EmogrifierTest.php:352-353 | `span[title="bonjour"]` styles the span with that title. |
| Examples.AttributeValueOtherValue | Tests/Unit/EmogrifierTest.php:354-355 | `span[title="bonjour"]` leaves `<span title="buenas dias">` alone. |
| Examples.AttributeValueNoAttributes | Tests/Unit/EmogrifierTest.php:356-357 | `span[title="bonjour"]` leaves an attribute-less span alone. |
| StyleExamples.OneRuleRow | Tests/Unit/EmogrifierTest.php:216-240 | A one-rule stylesheet gives an unstyled element its trimmed block after its attributes when the rule matches, and nothing otherwise. |
| StyleExamples.TwoRuleSheet | Tests/Unit/EmogrifierTest.php:289-316 | Two rules separated by whitespace are read as two rules in source order. |
| StyleExamples.TwoRulesInlined | Tests/Unit/EmogrifierTest.php:289-316 | With two rules, an unstyled element gains the blocks of the rules that match it, first rule first. |
| StyleExamples.TwoRuleRow | Tests/Unit/EmogrifierTest.php:289-316 | Two-rule stylesheet text styles an element with the matching blocks, in the order written. |
| StyleExamples.MergeFresh | Tests/Unit/EmogrifierTest.php:231-316 | Without an existing style, no matching block gives no style, and one or two blocks give those blocks joined. |
| StyleExamples.ExistingStyleRow | Tests/Unit/EmogrifierTest.php:474-528 | An element with an inline style keeps it, names lower-cased, followed by the matching blocks. |
| StyleExamples.MatchingRuleStylesHtml | Tests/Unit/EmogrifierTest.php:216-226 | `html {color: #000;}` gives `<html>` that style. |
| StyleExamples.NotMatchingRuleLeavesHtml | Tests/Unit/EmogrifierTest.php:231-240 | `p {color: #000;}` leaves `<html>` with no attributes. |
| StyleExamples.RuleMatchesTwoElements | Tests/Unit/EmogrifierTest.php:245-255 | One `p` rule styles both paragraphs. |
| StyleExamples.TwoDeclarationsFromOneRule | Tests/Unit/EmogrifierTest.php:260-270 | Both declarations of one block are written as one style. |
| StyleExamples.AttributeOnlySelector | Tests/Unit/EmogrifierTest.php:275-285 | `[hidden] { color:red; }` styles `<p hidden="hidden">` after its attribute, with the block trimmed. |
| StyleExamples.TwoIdenticalSelectors | Tests/Unit/EmogrifierTest.php:289-300 | Two `p` rules give the paragraph both blocks, first rule first: `color:#000;text-align:left;`. |
| StyleExamples.TwoDifferentSelectors | Tests/Unit/EmogrifierTest.php:305-316 | `p` then `.x` give `<p class="x">` both blocks in stylesheet order, after its class. |
| StyleExamples.MinifiedStylesheet | Tests/Unit/EmogrifierTest.php:506-515 | `p{color:blue;}html{color:red;}` gives `<html>` the style `color:red;` only. |
| StyleExamples.HtmlBlockRow | Tests/Unit/EmogrifierTest.php:414-426 | `html {block}` gives `<html>` the block with only its outer whitespace removed. |
| StyleExamples.DeclarationNoWhitespace | Tests/Unit/EmogrifierTest.php:395 | `color:#000;` is written unchanged. |
| StyleExamples.DeclarationNoSemicolon | Tests/Unit/EmogrifierTest.php:396 | `color:#000` is written without a semicolon being added. |
| StyleExamples.DeclarationSpaceAfterColon | Tests/Unit/EmogrifierTest.php:397 | The space after the colon is kept. |
| StyleExamples.DeclarationSpaceBeforeColon | Tests/Unit/EmogrifierTest.php:398 | The space before the colon is kept. |
| StyleExamples.DeclarationSpaceBeforeName | Tests/Unit/EmogrifierTest.php:399 | The space before the property name is dropped. |
| StyleExamples.DeclarationSpaceBeforeSemicolon | Tests/Unit/EmogrifierTest.php:400 | The space before the semicolon is kept while the leading space goes. |
| StyleExamples.DeclarationSpaceAround | Tests/Unit/EmogrifierTest.php:401-402 | ` color:#000; ` is written as `color:#000;`. |
| StyleExamples.FormatOneDeclaration | Tests/Unit/EmogrifierTest.php:436 | `color: #000;` is written unchanged. |
| StyleExamples.FormatDashInName | Tests/Unit/EmogrifierTest.php:437 | `font-weight: bold;` is written unchanged. |
| StyleExamples.FormatSpaceInValue | Tests/Unit/EmogrifierTest.php:438 | `margin: 0 4px;` keeps the space inside its value. |
| StyleExamples.FormatTwoDeclarations | Tests/Unit/EmogrifierTest.php:439 | Two declarations with no separator are written unchanged. |
| StyleExamples.FormatTwoDeclarationsSpace | Tests/Unit/EmogrifierTest.php:440 | The space between two declarations is kept. |
| StyleExamples.FormatTwoDeclarationsLinefeed | Tests/Unit/EmogrifierTest.php:441-443 | The linefeed between two declarations is kept. |
| StyleExamples.KeepsCssNameCasing | Tests/Unit/EmogrifierTest.php:533-545 | `mArGiN:0 2px;` from the stylesheet keeps its casing. |
| StyleExamples.OneDeclarationLower | Tests/Unit/EmogrifierTest.php:520-528 | The inline style `n:v;` becomes `lower(n):v;`. |
| StyleExamples.HtmlExistingRow | Tests/Unit/EmogrifierTest.php:488-501 | `<html style="e">` with `html {block}` gets `e` lowered, then the trimmed block. |
| StyleExamples.ExistingOneRule | Tests/Unit/EmogrifierTest.php:488-501 | An element with inline style `e` that the one rule matches gets `e` lowered, then the block. |
| StyleExamples.KeepsExistingStyle | Tests/Unit/EmogrifierTest.php:474-483 | Without CSS, `style="color:#ccc;"` is kept. |
| StyleExamples.AddsCssAfterExistingStyle | Tests/Unit/EmogrifierTest.php:488-501 | `color:#ccc;` followed by `margin:0 2px;`. |
| StyleExamples.LowercasesExistingNames | Tests/Unit/EmogrifierTest.php:520-528 | `COLOR:#ccc;` becomes `color:#ccc;`. |
| StyleExamples.NoDocumentFails | Tests/Unit/EmogrifierTest.php:67-81 | Without a document, emogrifying fails with an error, whatever the CSS. |
| MediaExamples.MediaSheet | Tests/Unit/EmogrifierTest.php:606-613 | A stylesheet that is one media rule has no rules to inline. It keeps its whole text as media CSS exactly when the prelude is preserved. |
| MediaExamples.NoRulesNoStyle | Tests/Unit/EmogrifierTest.php:565-598 | A stylesheet without rules gives no unstyled element a style. |
| MediaExamples.MediaOutput | Tests/Unit/EmogrifierTest.php:623-632 | Emogrifying a media rule succeeds and outputs its text as media CSS if it is preserved, otherwise nothing. It adds no style to an unstyled element. |
| MediaExamples.PMedia | Tests/Unit/EmogrifierTest.php:570-578 | `@media <prelude>{p {color: #000;}}` follows the classification of its prelude and inlines nothing. |
| MediaExamples.H1Media | Tests/Unit/EmogrifierTest.php:681-694 | `@media <prelude>{ h1 { color:red; } }` follows the classification of its prelude and inlines nothing. |
| MediaExamples.DiscardedTypeP | Tests/Unit/EmogrifierTest.php:570-598 | `@media aural` and the other types that are not `all` or `screen` leave no media CSS and no style. |
| MediaExamples.DiscardedTypeH1 | Tests/Unit/EmogrifierTest.php:755-808 | `@media braille { h1 ... }` and the like leave no media CSS and no `style="color:red"`. |
| MediaExamples.KeptTypeP | Tests/Unit/EmogrifierTest.php:606-632 | `@media [only] all {p {...}}` or the same with `screen` is output verbatim as media CSS and inlines nothing. |
| MediaExamples.KeptTypeH1 | Tests/Unit/EmogrifierTest.php:681-750 | `@media [only] all [and (min-device-width: 320px) and (max-device-width: 480px)] { h1 ... }`, or the same with `screen`, is output verbatim and inlines nothing. |
| MediaExamples.UntypedPrelude | Tests/Unit/EmogrifierTest.php:681-694 | A prelude of whitespace names no type and is preserved. |
| MediaExamples.UntypedP | Tests/Unit/EmogrifierTest.php:608 | `@media {p {color: #000;}}` is output verbatim and inlines nothing. |
| MediaExamples.UntypedH1 | Tests/Unit/EmogrifierTest.php:692 | `@media { h1 { color:red; } }` is output verbatim and inlines nothing. |
| MediaExamples.CommentDropped | Tests/Unit/EmogrifierTest.php:567-568 | A stylesheet with a comment reads as the same stylesheet without it. |
| MediaExamples.CommentOneStar | Tests/Unit/EmogrifierTest.php:567 | `p {color: #000;/* black */}` styles the paragraph with `color: #000;` alone, with no `black` in it. |
| MediaExamples.CommentTwoStars | Tests/Unit/EmogrifierTest.php:568 | The same holds for a comment opened with two stars. |
| MediaExamples.ImportSheet | Tests/Unit/EmogrifierTest.php:569 | `@import "foo.css";` is an empty stylesheet. |
| MediaExamples.ImportDropped | Tests/Unit/EmogrifierTest.php:569 | `@import "foo.css";` gives no media CSS and no style. |

## Left out

- HTML parsing and serialisation, document-type handling (lines 115-152) and entity encoding of umlauts (lines 86-110) are left out. The document is an already-built tree of elements. Text nodes are omitted because no selector here looks at them.
- The output is a tree plus the list of preserved at-rules, not markup. Tests that look for text in the serialised HTML become statements about the `style` attribute and the media CSS.
- Creating `<head>` and `<style type="text/css">` for the preserved media rules (lines 637-674) is left out.
- Removing `<style>` nodes (lines 550-558) and reading CSS out of them (lines 722-735, 811-836, 841-851) are left out. The CSS is taken as already extracted text.
- The unprocessable-tag list and `<wbr>` removal (lines 157-211) are left out. They are DOM editing, and the only re-adding test would pass with a no-op.
- Specificity ordering and overwriting a property declared twice are not modelled. Blocks are appended in stylesheet order. No test distinguishes this from specificity order, and the tests at lines 289-316 agree with either.
- The merged style when an existing inline style lacks a trailing semicolon is taken to be plain concatenation. No test covers it.
- Selector matching is done against the input tree, so a rule cannot see a style written by an earlier rule. This is consistent with the tests.
- The attribute selectors `[att~=val]` and `[att|=val]` of section 5.8.1 of CSS 2.1 are not parsed. No test uses them.
- Inlining is not idempotent, although one might expect it to be. Running the inliner again over its own output lower-cases property names that a rule wrote in upper case, because the second run treats them as an existing inline style. Emogrifier.RerunLowersCssNames proves this.
- Pseudo-classes, the `~` combinator, namespaces, escapes in selectors, and any value-level CSS meaning are not modelled.
- Stylesheet.NextItem: every at-rule other than `@import` and `@media` (`@charset`, `@font-face`, `@page` and the like) is kept verbatim with the media CSS, running to its `;` when one comes before any `{`, and otherwise to the brace that closes its block. No test covers these rules. Where an at-rule ends is decided as in section 4.2 of CSS 2.1. Its text is kept rather than dropped, so that nothing the inliner cannot apply is lost. Stylesheet.ParseAtStatement and Stylesheet.ParseAtBlock prove the two forms, and Examples.AtStatementThenRule proves that the rule after such a statement is still applied.
- A media rule is modelled as holding rules without nested braces.
- Stylesheet.StripUnterminated: a comment that is never closed removes the rest of the stylesheet. No test covers an unclosed comment. This follows the rule in section 4.2 of CSS 2.1 that open constructs, comments included, are closed at the end of the style sheet.
- Declarations.LowerNames: every `;` is read as the end of a declaration, even inside parentheses or quotes. The text after a `;` in a value, as in `url(data:image/png;base64,...)`, is therefore lower-cased as a property name until the next `:`. Declarations.SemicolonInValue proves this. No test covers such a value.
- Media queries are not split at commas. The first whitespace-separated word decides, so a type name with a comma attached (`screen,` in `@media screen, print`) is not recognised and the rule is dropped. Media.CommaAttached proves this for every media type, and Media.ScreenCommaPrint for that prelude.
- The exception thrown when no HTML is set is modelled as the error `NoDocument`. Empty HTML is modelled as no document.
- The engine source, `Classes/Emogrifier.php`, is not part of this model. The behaviour is taken from the assertions of its test suite. Where no test decides a case, the lines above that start with a member name say which behaviour was chosen.
- The row labelled as having no trailing semicolon at line 402 has one in its data. The model follows the data.
- Stylesheet.ParseRuleItem: the selector list of a rule may hold several selectors, but the lemma states only the one-selector case, which is all the tests use.
