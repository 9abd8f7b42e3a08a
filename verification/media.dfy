/**
 * The media filter: which `@media` rules the inliner keeps and which it
 * drops, over the media types of section 7.3 of CSS 2.1.
 *
 * Styles under `all` or `screen`, or under a rule with no type word at all
 * (an empty prelude, or one that starts with a feature test), may apply to
 * the rendered message, but only conditionally, so such a rule is preserved
 * verbatim and never inlined. Every other media type is of no use in an
 * e-mail body and the whole rule is discarded; so is a rule whose first
 * word is not the name of a media type, such as `screen,` in a
 * comma-separated list of queries.
 */
module Media {
  import opened Wrappers
  import opened Text

  /** The media types of section 7.3 of CSS 2.1. */
  datatype MediaType =
    | All | Aural | Braille | Embossed | Handheld | Print
    | Projection | Screen | Speech | Tty | Tv

  function TypeName(t: MediaType): string {
    match t
    case All => "all"
    case Aural => "aural"
    case Braille => "braille"
    case Embossed => "embossed"
    case Handheld => "handheld"
    case Print => "print"
    case Projection => "projection"
    case Screen => "screen"
    case Speech => "speech"
    case Tty => "tty"
    case Tv => "tv"
  }

  /** The media types whose styles may apply to a message shown on a screen. */
  predicate Kept(t: MediaType) {
    t == All || t == Screen
  }

  /** The media type a word names; media type names are case-insensitive. */
  function ParseMediaType(word: string): (r: Option<MediaType>)
    ensures r.Some? ==> TypeName(r.value) == Lower(word)
    ensures r.None? ==> forall t: MediaType :: TypeName(t) != Lower(word)
  {
    var w := Lower(word);
    if w == "all" then Some(All)
    else if w == "aural" then Some(Aural)
    else if w == "braille" then Some(Braille)
    else if w == "embossed" then Some(Embossed)
    else if w == "handheld" then Some(Handheld)
    else if w == "print" then Some(Print)
    else if w == "projection" then Some(Projection)
    else if w == "screen" then Some(Screen)
    else if w == "speech" then Some(Speech)
    else if w == "tty" then Some(Tty)
    else if w == "tv" then Some(Tv)
    else None
  }

  /** What a media rule's prelude says about its media type. */
  datatype Named =
    | NoType              // no type: an empty prelude, or one that starts with a feature
    | Known(t: MediaType)
    | Unknown(word: string)

  /** The media type named by the words of a prelude: the first word, after
      an optional `only`, unless that word opens a feature test `(`. */
  function NamedType(words: seq<string>): Named {
    var ws := if words != [] && Lower(words[0]) == "only" then words[1..] else words;
    if ws == [] then
      (if words == [] then NoType else Unknown(words[0]))
    else if ws[0] != [] && ws[0][0] == '(' then NoType
    else match ParseMediaType(ws[0])
      case Some(t) => Known(t)
      case None => Unknown(ws[0])
  }

  datatype Verdict = Preserve | Discard

  /** Whether a `@media` rule with this prelude (the text between `@media`
      and `{`) is kept verbatim or dropped. */
  function ClassifyMedia(prelude: string): (v: Verdict)
    ensures v == Discard ==> !NamedType(Words(prelude)).NoType?
    ensures var n := NamedType(Words(prelude));
      v == Preserve <==> n.NoType? || (n.Known? && Kept(n.t))
  {
    match NamedType(Words(prelude))
    case NoType => Preserve
    case Known(t) => if Kept(t) then Preserve else Discard
    case Unknown(_) => Discard
  }

  /** A media type name is one lower-case word. */
  lemma TypeNameShape(t: MediaType)
    ensures TypeName(t) != [] && NoSpace(TypeName(t)) && NoUpper(TypeName(t))
    ensures TypeName(t)[0] != '(' && TypeName(t) != "only"
  {
  }

  /** Every media type is recognised by its name, in any letter case. */
  lemma ParseTypeName(t: MediaType, word: string)
    requires Lower(word) == TypeName(t)
    ensures ParseMediaType(word) == Some(t)
  {
  }

  /** Lower-casing a word does not change the media type it names. */
  lemma ParseMediaTypeIgnoresCase(word: string)
    ensures ParseMediaType(Lower(word)) == ParseMediaType(word)
  {
    LowerFixesLowercase(Lower(word));
  }

  /** `@media <type> ...` and `@media only <type> ...`: the rule is kept
      exactly when the type is `all` or `screen`, whatever media features
      follow the type. */
  lemma ClassifyTyped(sp: string, only: bool, t: MediaType, features: string)
    requires AllSpace(sp)
    requires features == [] || IsSpace(features[0])
    ensures ClassifyMedia(sp + (if only then "only " else "") + TypeName(t) + features) ==
      if Kept(t) then Preserve else Discard
  {
    var prelude := sp + (if only then "only " else "") + TypeName(t) + features;
    if only {
      WordsOnlyTyped(sp, t, features);
      NamedAfterOnly(Words(prelude), t);
    } else {
      assert prelude == sp + TypeName(t) + features;
      WordsTyped(sp, t, features);
      NamedFirst(Words(prelude), t);
    }
    ClassifyKnown(prelude, t);
  }

  lemma ClassifyKnown(prelude: string, t: MediaType)
    requires NamedType(Words(prelude)) == Known(t)
    ensures ClassifyMedia(prelude) == if Kept(t) then Preserve else Discard
  {
  }

  lemma WordsTyped(sp: string, t: MediaType, features: string)
    requires AllSpace(sp)
    requires features == [] || IsSpace(features[0])
    ensures var ws := Words(sp + TypeName(t) + features); ws != [] && ws[0] == TypeName(t)
  {
    TypeNameShape(t);
    WordAfterSpace(sp, TypeName(t), features);
  }

  lemma WordsOnlyTyped(sp: string, t: MediaType, features: string)
    requires AllSpace(sp)
    requires features == [] || IsSpace(features[0])
    ensures var ws := Words(sp + "only " + TypeName(t) + features);
      |ws| >= 2 && ws[0] == "only" && ws[1] == TypeName(t)
  {
    var rest := " " + TypeName(t) + features;
    assert "only " == "only" + " ";
    assert sp + "only " + TypeName(t) + features == sp + "only" + rest;
    assert NoSpace("only");
    WordAfterSpace(sp, "only", rest);
    WordsTyped(" ", t, features);
  }

  /** Leading whitespace, then a word, then whitespace or nothing. */
  lemma WordAfterSpace(sp: string, w: string, rest: string)
    requires AllSpace(sp) && w != [] && NoSpace(w)
    requires rest == [] || IsSpace(rest[0])
    ensures Words(sp + w + rest) == [w] + Words(rest)
  {
    assert sp + w + rest == sp + (w + rest);
    WordsSpacePrefix(sp, w + rest);
    WordsCons(w, rest);
  }

  lemma NamedFirst(ws: seq<string>, t: MediaType)
    requires ws != [] && ws[0] == TypeName(t)
    ensures NamedType(ws) == Known(t)
  {
    TypeNameShape(t);
    LowerFixesLowercase(TypeName(t));
    ParseTypeName(t, TypeName(t));
  }

  lemma NamedAfterOnly(ws: seq<string>, t: MediaType)
    requires |ws| >= 2 && ws[0] == "only" && ws[1] == TypeName(t)
    ensures NamedType(ws) == Known(t)
  {
    assert Lower("only") == "only";
    NamedFirst(ws[1..], t);
  }

  /** `@media {` and `@media (feature) {`: a rule that names no media type
      is kept. */
  lemma ClassifyNoType(sp: string, features: string)
    requires AllSpace(sp)
    requires features == [] || features[0] == '('
    ensures ClassifyMedia(sp + features) == Preserve
  {
    WordsSpacePrefix(sp, features);
    if features != [] {
      var w := Token(features);
      assert w != [] && w[0] == '(';
      assert TrimLeft(features) == features;
      assert Lower(w) != "only" by {
        assert Lower(w)[0] == '(';
      }
    }
  }

  /** A first word, after an optional `only`, that is neither a feature
      test nor the name of a media type discards the rule. */
  lemma ClassifyUnknown(sp: string, only: bool, word: string, rest: string)
    requires AllSpace(sp) && word != [] && NoSpace(word) && word[0] != '('
    requires ParseMediaType(word).None?
    requires only || Lower(word) != "only"
    requires rest == [] || IsSpace(rest[0])
    ensures ClassifyMedia(sp + (if only then "only " else "") + word + rest) == Discard
  {
    var prelude := sp + (if only then "only " else "") + word + rest;
    if only {
      WordsOnlyWord(sp, word, rest);
      NamedAfterOnlyUnknown(Words(prelude), word);
    } else {
      assert prelude == sp + word + rest;
      ClassifyUnknownFirst(sp, word, rest);
    }
  }

  lemma ClassifyUnknownFirst(sp: string, word: string, rest: string)
    requires AllSpace(sp) && word != [] && NoSpace(word) && word[0] != '('
    requires ParseMediaType(word).None? && Lower(word) != "only"
    requires rest == [] || IsSpace(rest[0])
    ensures ClassifyMedia(sp + word + rest) == Discard
  {
    WordAfterSpace(sp, word, rest);
    NamedUnknown(Words(sp + word + rest));
  }

  lemma WordsOnlyWord(sp: string, word: string, rest: string)
    requires AllSpace(sp) && word != [] && NoSpace(word)
    requires rest == [] || IsSpace(rest[0])
    ensures var ws := Words(sp + "only " + word + rest);
      |ws| >= 2 && ws[0] == "only" && ws[1] == word
  {
    var tail := " " + word + rest;
    assert "only " == "only" + " ";
    assert sp + "only " + word + rest == sp + "only" + tail;
    assert NoSpace("only");
    WordAfterSpace(sp, "only", tail);
    WordAfterSpace(" ", word, rest);
  }

  lemma NamedAfterOnlyUnknown(ws: seq<string>, word: string)
    requires |ws| >= 2 && ws[0] == "only" && ws[1] == word
    requires word != [] && word[0] != '(' && ParseMediaType(word).None?
    ensures NamedType(ws) == Unknown(word)
  {
    assert Lower("only") == "only";
  }

  /** A first word that is neither a feature test nor a media type name. */
  lemma NamedUnknown(ws: seq<string>)
    requires ws != [] && ws[0] != [] && ws[0][0] != '(' && ParseMediaType(ws[0]).None?
    ensures Lower(ws[0]) != "only" ==> NamedType(ws) == Unknown(ws[0])
  {
  }

  /** A media type name with a comma attached, as the first query of a
      comma-separated list is written, is not recognised, so the rule is
      discarded whatever the type, `all` and `screen` included. Lists of
      queries are not split. */
  lemma CommaAttached(sp: string, t: MediaType, rest: string)
    requires AllSpace(sp)
    requires rest == [] || IsSpace(rest[0])
    ensures ClassifyMedia(sp + TypeName(t) + "," + rest) == Discard
  {
    var w := TypeName(t) + ",";
    CommaWord(t);
    ClassifyUnknownFirst(sp, w, rest);
    Regroup3(sp, TypeName(t), ",");
  }

  /** `<type>,` is one word that names no media type. */
  lemma CommaWord(t: MediaType)
    ensures var w := TypeName(t) + ",";
      w != [] && NoSpace(w) && w[0] != '(' && ParseMediaType(w).None? && Lower(w) != "only"
  {
    var w := TypeName(t) + ",";
    TypeNameShape(t);
    assert NoSpace(w) by {
      assert forall i :: 0 <= i < |TypeName(t)| ==> w[i] == TypeName(t)[i];
    }
    assert ',' in Lower(w) by {
      assert Lower(w)[|w| - 1] == ',';
    }
    forall u: MediaType
      ensures TypeName(u) != Lower(w)
    {
      NoCommaInTypeName(u);
    }
  }

  lemma NoCommaInTypeName(t: MediaType)
    ensures ',' !in TypeName(t)
  {
  }

  /** `@media screen, print {`: the first word is `screen,`, so the rule is
      dropped rather than kept for `screen`. */
  lemma ScreenCommaPrint()
    ensures ClassifyMedia(" screen, print ") == Discard
  {
    CommaAttached(" ", Screen, " print ");
    assert " " + TypeName(Screen) + "," + " print " == " screen, print ";
  }

  /** `@media foo {`: a word that names no media type drops the rule. */
  lemma UnknownWordDiscarded()
    ensures ClassifyMedia(" foo ") == Discard
  {
    assert Lower("foo") == "foo";
    assert NoSpace("foo");
    ClassifyUnknownFirst(" ", "foo", " ");
    assert " " + "foo" + " " == " foo ";
  }
}
