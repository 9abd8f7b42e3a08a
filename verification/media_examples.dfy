/**
 * The tests of what the inliner leaves out of the document: comments,
 * `@import`, and `@media` rules. A media rule for `all` or `screen`, or
 * for no media type, is kept verbatim for the document's head; a media rule
 * for any other type of section 7.3 of CSS 2.1 is dropped. Neither kind is
 * inlined.
 */
module MediaExamples {
  import opened Wrappers
  import opened Text
  import opened Dom
  import opened Selectors
  import opened Media
  import opened Stylesheet
  import opened Emogrifier
  import opened Examples
  import opened StyleExamples

  // ---------------------------------------------------------------------
  // A stylesheet of one media rule
  // ---------------------------------------------------------------------

  /** The stylesheet `@media prelude{x{y}z}` holds no rules, and keeps its
      whole text exactly when the prelude is one that is preserved. */
  lemma MediaSheet(css: string, prelude: string, x: string, y: string, z: string)
    requires css == "@media" + prelude + "{" + x + "{" + y + "}" + z + "}"
    requires '{' !in prelude && (prelude == [] || !IsNameChar(prelude[0]))
    requires NoBrace(x) && NoBrace(y) && NoBrace(z)
    requires '/' !in prelude && '/' !in x && '/' !in y && '/' !in z
    ensures ParseStylesheet(css) ==
      Sheet([], if ClassifyMedia(prelude) == Preserve then [css] else [])
  {
    MediaNoSlash(css, prelude, x, y, z);
    StripWithoutSlash(css);
    assert css == [] + css + [];
    ParseMediaItem([], prelude, x, y, z, []);
    ParseItemsBlank([]);
  }

  lemma MediaNoSlash(css: string, prelude: string, x: string, y: string, z: string)
    requires css == "@media" + prelude + "{" + x + "{" + y + "}" + z + "}"
    requires '/' !in prelude && '/' !in x && '/' !in y && '/' !in z
    ensures '/' !in css
  {
    var a := "@media" + prelude;
    NotInConcat('/', "@media", prelude);
    NotInConcat('/', a, "{");
    NotInConcat('/', a + "{", x);
    NotInConcat('/', a + "{" + x, "{");
    NotInConcat('/', a + "{" + x + "{", y);
    NotInConcat('/', a + "{" + x + "{" + y, "}");
    NotInConcat('/', a + "{" + x + "{" + y + "}", z);
    NotInConcat('/', a + "{" + x + "{" + y + "}" + z, "}");
  }

  /** A stylesheet without rules gives no element a style. */
  lemma NoRulesNoStyle(root: Element, css: string, q: Path)
    requires ParseStylesheet(css).rules == []
    requires ValidPath(root, q) && GetAttribute(At(root, q).attrs, "style").None?
    ensures AttrsAt(Inlined(root, css), q) == At(root, q).attrs
  {
    InlineNewStyle(root, [], q);
  }

  /** What the inliner makes of `@media prelude{x{y}z}`: the rule text as
      the only media CSS when the prelude is preserved, none otherwise, and
      in both cases no style on any element that had none. */
  lemma MediaOutput(root: Element, q: Path, css: string, prelude: string, x: string, y: string, z: string)
    requires css == "@media" + prelude + "{" + x + "{" + y + "}" + z + "}"
    requires '{' !in prelude && (prelude == [] || !IsNameChar(prelude[0]))
    requires NoBrace(x) && NoBrace(y) && NoBrace(z)
    requires '/' !in prelude && '/' !in x && '/' !in y && '/' !in z
    requires ValidPath(root, q) && GetAttribute(At(root, q).attrs, "style").None?
    ensures Emogrify(Some(root), css).Success?
    ensures Emogrify(Some(root), css).value.mediaCss ==
      if ClassifyMedia(prelude) == Preserve then [css] else []
    ensures AttrsAt(Inlined(root, css), q) == At(root, q).attrs
  {
    MediaSheet(css, prelude, x, y, z);
    NoRulesNoStyle(root, css, q);
  }

  // ---------------------------------------------------------------------
  // Media rules of the tests
  // ---------------------------------------------------------------------

  /** A media type name is lower-case letters only. */
  lemma TypeNameLetters(t: MediaType)
    ensures forall i :: 0 <= i < |TypeName(t)| ==> 'a' <= TypeName(t)[i] <= 'z'
  {
  }

  /** `only `, when asked for. */
  function OnlyWord(only: bool): string {
    if only then "only " else ""
  }

  /** The prelude ` [only ]<type><features>`. */
  function TypedPrelude(only: bool, t: MediaType, features: string): string {
    " " + OnlyWord(only) + TypeName(t) + features
  }

  /** `@media <prelude>{p {color: #000;}}` */
  function PMediaCss(prelude: string): string {
    "@media" + prelude + "{" + "p " + "{" + "color: #000;" + "}" + "" + "}"
  }

  /** `@media <prelude>{ h1 { color:red; } }` */
  function H1MediaCss(prelude: string): string {
    "@media" + prelude + "{" + " h1 " + "{" + " color:red; " + "}" + " " + "}"
  }

  /** The media features of the size tests. */
  const SizeFeatures := " and " + "(min-device-width: 320px)" + " and " + "(max-device-width: 480px)" + " "

  /** A typed prelude starts with a space, has no brace or slash, and is
      classified by its type alone. */
  lemma TypedPreludeFacts(only: bool, t: MediaType, features: string)
    requires features == [] || IsSpace(features[0])
    requires '{' !in features && '/' !in features
    ensures var p := TypedPrelude(only, t, features);
      && '{' !in p && '/' !in p && p != [] && !IsNameChar(p[0])
      && ClassifyMedia(p) == if Kept(t) then Preserve else Discard
  {
    TypedPreludeChars(only, t, features, '{');
    TypedPreludeChars(only, t, features, '/');
    ClassifyTyped(" ", only, t, features);
  }

  lemma TypedPreludeChars(only: bool, t: MediaType, features: string, c: char)
    requires !('a' <= c <= 'z') && c != ' ' && c !in features
    ensures c !in TypedPrelude(only, t, features)
  {
    TypeNameLetters(t);
    assert c !in OnlyWord(only);
    NotInConcat(c, " ", OnlyWord(only));
    NotInConcat(c, " " + OnlyWord(only), TypeName(t));
    NotInConcat(c, " " + OnlyWord(only) + TypeName(t), features);
  }

  lemma SizeFeaturesFacts()
    ensures IsSpace(SizeFeatures[0]) && '{' !in SizeFeatures && '/' !in SizeFeatures
  {
    SizeFeaturesWithout('{');
    SizeFeaturesWithout('/');
  }

  lemma SizeFeaturesWithout(c: char)
    requires c == '{' || c == '/'
    ensures SizeFeatures[0] == ' ' && c !in SizeFeatures
  {
    FeatureWithout("(min-device-width: 320px)", c);
    FeatureWithout("(max-device-width: 480px)", c);
    TwoFeatures("(min-device-width: 320px)", "(max-device-width: 480px)", c);
  }

  /** The characters of the media features of the tests. */
  predicate FeatureChar(ch: char) {
    ch == '(' || ch == ')' || ch == ':' || ch == ' ' || ch == '-' || 'a' <= ch <= 'z' || '0' <= ch <= '9'
  }

  lemma FeatureWithout(f: string, c: char)
    requires c == '{' || c == '/'
    requires forall i :: 0 <= i < |f| ==> FeatureChar(f[i])
    ensures c !in f
  {
  }

  /** ` and a and b `, for media features `a` and `b` without `c`. */
  lemma TwoFeatures(a: string, b: string, c: char)
    requires c !in a && c !in b && c != ' ' && !('a' <= c <= 'z')
    ensures (" and " + a + " and " + b + " ")[0] == ' '
    ensures c !in " and " + a + " and " + b + " "
  {
    assert c !in " and ";
    NotInConcat(c, " and ", a);
    NotInConcat(c, " and " + a, " and ");
    NotInConcat(c, " and " + a + " and ", b);
    NotInConcat(c, " and " + a + " and " + b, " ");
  }

  /** `@media <prelude>{p {color: #000;}}` for a prelude without braces
      or slashes that starts with a space. */
  lemma PMedia(root: Element, q: Path, prelude: string)
    requires '{' !in prelude && '/' !in prelude && prelude != [] && !IsNameChar(prelude[0])
    requires ValidPath(root, q) && GetAttribute(At(root, q).attrs, "style").None?
    ensures Emogrify(Some(root), PMediaCss(prelude)).Success?
    ensures Emogrify(Some(root), PMediaCss(prelude)).value.mediaCss ==
      if ClassifyMedia(prelude) == Preserve then [PMediaCss(prelude)] else []
    ensures AttrsAt(Inlined(root, PMediaCss(prelude)), q) == At(root, q).attrs
  {
    MediaOutput(root, q, PMediaCss(prelude), prelude, "p ", "color: #000;", "");
  }

  /** `@media <prelude>{ h1 { color:red; } }`, likewise. */
  lemma H1Media(root: Element, q: Path, prelude: string)
    requires '{' !in prelude && '/' !in prelude && prelude != [] && !IsNameChar(prelude[0])
    requires ValidPath(root, q) && GetAttribute(At(root, q).attrs, "style").None?
    ensures Emogrify(Some(root), H1MediaCss(prelude)).Success?
    ensures Emogrify(Some(root), H1MediaCss(prelude)).value.mediaCss ==
      if ClassifyMedia(prelude) == Preserve then [H1MediaCss(prelude)] else []
    ensures AttrsAt(Inlined(root, H1MediaCss(prelude)), q) == At(root, q).attrs
  {
    MediaOutput(root, q, H1MediaCss(prelude), prelude, " h1 ", " color:red; ", " ");
  }

  /** `@media aural {p {color: #000;}}` and the rules for the other types
      that are neither `all` nor `screen`: nothing of them reaches the
      output, neither as media CSS nor as a style. */
  lemma DiscardedTypeP(root: Element, q: Path, t: MediaType)
    requires !Kept(t)
    requires ValidPath(root, q) && GetAttribute(At(root, q).attrs, "style").None?
    ensures Emogrify(Some(root), PMediaCss(TypedPrelude(false, t, " "))).value.mediaCss == []
    ensures AttrsAt(Inlined(root, PMediaCss(TypedPrelude(false, t, " "))), q) == At(root, q).attrs
  {
    TypedPreludeFacts(false, t, " ");
    PMedia(root, q, TypedPrelude(false, t, " "));
  }

  /** `@media braille { h1 { color:red; } }` and the other types that are
      neither `all` nor `screen`. */
  lemma DiscardedTypeH1(root: Element, q: Path, t: MediaType)
    requires !Kept(t)
    requires ValidPath(root, q) && GetAttribute(At(root, q).attrs, "style").None?
    ensures Emogrify(Some(root), H1MediaCss(TypedPrelude(false, t, " "))).value.mediaCss == []
    ensures AttrsAt(Inlined(root, H1MediaCss(TypedPrelude(false, t, " "))), q) == At(root, q).attrs
  {
    TypedPreludeFacts(false, t, " ");
    H1Media(root, q, TypedPrelude(false, t, " "));
  }

  /** `@media all {p {color: #000;}}`, `@media only screen {...}` and so
      on: the rule is kept as it is written, and not inlined. */
  lemma KeptTypeP(root: Element, q: Path, only: bool, t: MediaType)
    requires Kept(t)
    requires ValidPath(root, q) && GetAttribute(At(root, q).attrs, "style").None?
    ensures var css := PMediaCss(TypedPrelude(only, t, " "));
      Emogrify(Some(root), css).value.mediaCss == [css]
    ensures AttrsAt(Inlined(root, PMediaCss(TypedPrelude(only, t, " "))), q) == At(root, q).attrs
  {
    TypedPreludeFacts(only, t, " ");
    PMedia(root, q, TypedPrelude(only, t, " "));
  }

  /** `@media [only] all|screen [and (min-device-width: 320px) and
      (max-device-width: 480px)] { h1 { color:red; } }`: kept as written,
      not inlined. */
  lemma KeptTypeH1(root: Element, q: Path, only: bool, t: MediaType, sized: bool)
    requires Kept(t)
    requires ValidPath(root, q) && GetAttribute(At(root, q).attrs, "style").None?
    ensures var css := H1MediaCss(TypedPrelude(only, t, if sized then SizeFeatures else " "));
      Emogrify(Some(root), css).value.mediaCss == [css]
    ensures var css := H1MediaCss(TypedPrelude(only, t, if sized then SizeFeatures else " "));
      AttrsAt(Inlined(root, css), q) == At(root, q).attrs
  {
    SizeFeaturesFacts();
    var features := if sized then SizeFeatures else " ";
    TypedPreludeFacts(only, t, features);
    H1Media(root, q, TypedPrelude(only, t, features));
  }

  /** A prelude of whitespace names no media type, and is preserved. */
  lemma UntypedPrelude()
    ensures '{' !in " " && '/' !in " " && !IsNameChar(" "[0])
    ensures ClassifyMedia(" ") == Preserve
  {
    ClassifyNoType(" ", []);
    assert " " + [] == " ";
  }

  /** `@media {p {color: #000;}}`: kept, not inlined. */
  lemma UntypedP(root: Element, q: Path)
    requires ValidPath(root, q) && GetAttribute(At(root, q).attrs, "style").None?
    ensures Emogrify(Some(root), PMediaCss(" ")).value.mediaCss == [PMediaCss(" ")]
    ensures AttrsAt(Inlined(root, PMediaCss(" ")), q) == At(root, q).attrs
  {
    UntypedPrelude();
    PMedia(root, q, " ");
  }

  /** `@media { h1 { color:red; } }`: kept, not inlined. */
  lemma UntypedH1(root: Element, q: Path)
    requires ValidPath(root, q) && GetAttribute(At(root, q).attrs, "style").None?
    ensures Emogrify(Some(root), H1MediaCss(" ")).value.mediaCss == [H1MediaCss(" ")]
    ensures AttrsAt(Inlined(root, H1MediaCss(" ")), q) == At(root, q).attrs
  {
    UntypedPrelude();
    H1Media(root, q, " ");
  }

  // ---------------------------------------------------------------------
  // Comments and `@import`
  // ---------------------------------------------------------------------

  /** A comment inside a block: the stylesheet reads as if it were not
      there. */
  lemma CommentDropped(css: string, before: string, c: string, after: string)
    requires css == before + ("/*" + c + "*/" + after) && '/' !in before && '/' !in after && NoClose(c)
    ensures ParseStylesheet(css) == ParseStylesheet(before + after)
  {
    NoSlashNoOpen(before);
    StripKeepsPrefix(before, "/*" + c + "*/" + after);
    StripComment(c, after);
    StripWithoutSlash(after);
    StripWithoutSlash(before + after);
  }

  lemma BlackComments()
    ensures NoClose(" black ") && NoClose("* black ")
    ensures '/' !in "p" + " " + "{" + Black && '/' !in "}"
    ensures PBlackCss == ("p" + " " + "{" + Black) + "}"
  {
  }

  /** `p {color: #000;}` with a comment ` black ` after the declaration:
      the paragraph's style is the declaration alone. */
  lemma CommentOneStar()
    ensures AttrsAt(Inlined(OnePDoc, "p {color: #000;/" + "* black *" + "/}"), [0]) ==
      [Attribute("style", Black)]
  {
    var css := "p {color: #000;/" + "* black *" + "/}";
    BlackComments();
    assert css == ("p" + " " + "{" + Black) + ("/*" + " black " + "*/" + "}");
    CommentDropped(css, "p" + " " + "{" + Black, " black ", "}");
    PBlackOnP();
  }

  /** The same with a comment opened by a slash and two stars. */
  lemma CommentTwoStars()
    ensures AttrsAt(Inlined(OnePDoc, "p {color: #000;/" + "** black *" + "/}"), [0]) ==
      [Attribute("style", Black)]
  {
    var css := "p {color: #000;/" + "** black *" + "/}";
    BlackComments();
    assert css == ("p" + " " + "{" + Black) + ("/*" + "* black " + "*/" + "}");
    CommentDropped(css, "p" + " " + "{" + Black, "* black ", "}");
    PBlackOnP();
  }

  /** `p {color: #000;}` styles the paragraph of `<p></p>`. */
  lemma PBlackOnP()
    ensures AttrsAt(Inlined(OnePDoc, PBlackCss), [0]) == [Attribute("style", Black)]
  {
    PForm();
    PPlain();
    BlackBlock();
    ParagraphAt(OnePDoc, [0]);
    OneRuleRow(OnePDoc, PBlackCss, P, "p", " ", Black, [0], [], true);
  }

  const ImportCss := "@import" + " \"foo.css\"" + ";"

  /** `@import "foo.css";` is dropped: no media CSS and no style. */
  lemma ImportDropped(root: Element, q: Path)
    requires ValidPath(root, q) && GetAttribute(At(root, q).attrs, "style").None?
    ensures Emogrify(Some(root), ImportCss).value.mediaCss == []
    ensures AttrsAt(Inlined(root, ImportCss), q) == At(root, q).attrs
  {
    ImportSheet(ImportCss);
    NoRulesNoStyle(root, ImportCss, q);
  }

  lemma ImportSheet(css: string)
    requires css == "@import" + " \"foo.css\"" + ";"
    ensures ParseStylesheet(css) == Sheet([], [])
  {
    assert '/' !in css;
    StripWithoutSlash(css);
    assert css == [] + "@import" + " \"foo.css\"" + ";" + [];
    ParseImportItem([], " \"foo.css\"", []);
    ParseItemsBlank([]);
  }
}
