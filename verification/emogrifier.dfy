/**
 * The inliner: applies the rules of a stylesheet to every element of a
 * document by writing the matching declaration blocks into the elements'
 * `style` attributes, and hands back the media rules to be kept verbatim.
 *
 * `Inline` is the engine as it runs: it first normalises every existing
 * `style` attribute, then makes one pass over the whole tree per rule, in
 * source order, appending the rule's block to each element the rule
 * matches. `InlinedStyle` states per element what that must produce, and
 * `InlineStyleAt` proves the engine produces it.
 */
module Emogrifier {
  import opened Wrappers
  import opened Text
  import opened Dom
  import opened Selectors
  import opened Matcher
  import opened Stylesheet
  import opened Declarations

  // ---------------------------------------------------------------------
  // Rewriting the attributes of every element
  // ---------------------------------------------------------------------

  /** The tree `e`, found at path `p`, with the attributes of every element
      at path `q` replaced by `f(q, attributes)`; tags and children stay. */
  function MapAttrs(e: Element, p: Path, f: (Path, seq<Attribute>) -> seq<Attribute>): (r: Element)
    ensures r.tag == e.tag && r.attrs == f(p, e.attrs) && |r.children| == |e.children|
    decreases e
  {
    Element(e.tag, f(p, e.attrs),
      seq(|e.children|, i requires 0 <= i < |e.children| => MapAttrs(e.children[i], p + [i], f)))
  }

  lemma MapAttrsChild(e: Element, p: Path, f: (Path, seq<Attribute>) -> seq<Attribute>, i: nat)
    requires i < |e.children|
    ensures MapAttrs(e, p, f).children[i] == MapAttrs(e.children[i], p + [i], f)
  {
  }

  /** Two rewrites in a row are one rewrite by their composition. */
  lemma {:induction false} MapAttrsTwice(e: Element, p: Path,
      f: (Path, seq<Attribute>) -> seq<Attribute>, g: (Path, seq<Attribute>) -> seq<Attribute>)
    ensures MapAttrs(MapAttrs(e, p, f), p, g) == MapAttrs(e, p, (q, a) => g(q, f(q, a)))
    decreases e
  {
    var h := (q, a) => g(q, f(q, a));
    var l := MapAttrs(MapAttrs(e, p, f), p, g);
    var r := MapAttrs(e, p, h);
    assert |l.children| == |r.children|;
    forall i | 0 <= i < |e.children|
      ensures l.children[i] == r.children[i]
    {
      MapAttrsChild(MapAttrs(e, p, f), p, g, i);
      MapAttrsChild(e, p, f, i);
      MapAttrsChild(e, p, h, i);
      MapAttrsTwice(e.children[i], p + [i], f, g);
    }
  }

  /** Rewrites that agree on every element give the same tree. */
  lemma {:induction false} MapAttrsSame(e: Element, p: Path,
      f: (Path, seq<Attribute>) -> seq<Attribute>, g: (Path, seq<Attribute>) -> seq<Attribute>)
    requires forall q, a :: f(q, a) == g(q, a)
    ensures MapAttrs(e, p, f) == MapAttrs(e, p, g)
    decreases e
  {
    var l := MapAttrs(e, p, f);
    var r := MapAttrs(e, p, g);
    forall i | 0 <= i < |e.children|
      ensures l.children[i] == r.children[i]
    {
      MapAttrsSame(e.children[i], p + [i], f, g);
    }
  }

  /** A rewritten tree has the same shape, and the element at `q` is the
      original element at `q` rewritten. */
  lemma {:induction false} MapAttrsAt(root: Element, f: (Path, seq<Attribute>) -> seq<Attribute>, q: Path)
    requires ValidPath(root, q)
    ensures ValidPath(MapAttrs(root, [], f), q)
    ensures At(MapAttrs(root, [], f), q) == MapAttrs(At(root, q), q, f)
    decreases |q|
  {
    if q != [] {
      MapAttrsAt(root, f, Parent(q));
      var e := At(root, Parent(q));
      assert Parent(q) + [Last(q)] == q;
      MapAttrsChild(e, Parent(q), f, Last(q));
    }
  }

  /** Paths into a rewritten tree are paths into the original. */
  lemma {:induction false} MapAttrsValid(root: Element, f: (Path, seq<Attribute>) -> seq<Attribute>, q: Path)
    requires ValidPath(MapAttrs(root, [], f), q)
    ensures ValidPath(root, q)
    decreases |q|
  {
    if q != [] {
      MapAttrsValid(root, f, Parent(q));
      MapAttrsAt(root, f, Parent(q));
    }
  }

  // ---------------------------------------------------------------------
  // Which rules match, and what an element's style becomes
  // ---------------------------------------------------------------------

  /** A rule applies to an element when one of its selectors matches it. */
  predicate AnyMatches(root: Element, sels: seq<Selector>, q: Path)
    requires ValidPath(root, q)
  {
    exists i :: 0 <= i < |sels| && MatchesAt(root, sels[i], q)
  }

  /** The block of `r` if `r` applies to the element at `q`. */
  function Contribution(root: Element, r: Rule, q: Path): seq<string>
    requires ValidPath(root, q)
  {
    if AnyMatches(root, r.selectors, q) then [r.block] else []
  }

  /** The blocks of the rules that apply to the element at `q`, in source
      order. */
  function MatchedBlocks(root: Element, rules: seq<Rule>, q: Path): (bs: seq<string>)
    requires ValidPath(root, q)
    ensures |bs| <= |rules|
  {
    if rules == [] then []
    else Contribution(root, rules[0], q) + MatchedBlocks(root, rules[1..], q)
  }

  /** The `style` attribute the element at `q` must end up with. */
  function InlinedStyle(root: Element, rules: seq<Rule>, q: Path): Option<string>
    requires ValidPath(root, q)
  {
    MergeStyle(GetAttribute(At(root, q).attrs, "style"), MatchedBlocks(root, rules, q))
  }

  // ---------------------------------------------------------------------
  // The engine
  // ---------------------------------------------------------------------

  /** Normalising an existing `style` attribute: property names lower-cased. */
  function Normalise(attrs: seq<Attribute>): seq<Attribute> {
    match GetAttribute(attrs, "style")
    case None => attrs
    case Some(v) => SetAttribute(attrs, "style", LowerNames(v))
  }

  /** Appends `block` to the `style` attribute, creating it if need be. */
  function AppendStyle(attrs: seq<Attribute>, block: string): seq<Attribute> {
    SetAttribute(attrs, "style", GetAttribute(attrs, "style").GetOr([]) + block)
  }

  /** The pass for rule `r`: elements of `root` that `r` matches get its
      block appended. Matching is against the document as given. */
  function RulePass(root: Element, r: Rule): (Path, seq<Attribute>) -> seq<Attribute> {
    (q, a) => if ValidPath(root, q) && AnyMatches(root, r.selectors, q) then AppendStyle(a, r.block) else a
  }

  /** The passes for `rules`, in order, over `doc`. */
  function Passes(doc: Element, root: Element, rules: seq<Rule>): Element
    decreases |rules|
  {
    if rules == [] then doc
    else Passes(MapAttrs(doc, [], RulePass(root, rules[0])), root, rules[1..])
  }

  /** The inliner: normalise every inline style, then one pass per rule. */
  function Inline(root: Element, rules: seq<Rule>): Element {
    Passes(MapAttrs(root, [], (q, a) => Normalise(a)), root, rules)
  }

  /** The attributes an element ends up with after the passes for `rules`,
      starting from `a`. */
  function FoldPasses(root: Element, rules: seq<Rule>, q: Path, a: seq<Attribute>): seq<Attribute>
    decreases |rules|
  {
    if rules == [] then a else FoldPasses(root, rules[1..], q, RulePass(root, rules[0])(q, a))
  }

  /** The passes over a rewritten tree are one rewrite. */
  lemma {:induction false} PassesAsOneRewrite(e: Element, root: Element, rules: seq<Rule>,
      f: (Path, seq<Attribute>) -> seq<Attribute>)
    ensures Passes(MapAttrs(e, [], f), root, rules) ==
      MapAttrs(e, [], (q, a) => FoldPasses(root, rules, q, f(q, a)))
    decreases |rules|
  {
    if rules == [] {
      MapAttrsSame(e, [], f, (q, a) => FoldPasses(root, rules, q, f(q, a)));
    } else {
      var g := RulePass(root, rules[0]);
      var fg := (q, a) => g(q, f(q, a));
      MapAttrsTwice(e, [], f, g);
      PassesAsOneRewrite(e, root, rules[1..], fg);
      forall q, a
        ensures FoldPasses(root, rules[1..], q, fg(q, a)) == FoldPasses(root, rules, q, f(q, a))
      {
        assert fg(q, a) == RulePass(root, rules[0])(q, f(q, a));
      }
      MapAttrsSame(e, [], (q, a) => FoldPasses(root, rules[1..], q, fg(q, a)),
                          (q, a) => FoldPasses(root, rules, q, f(q, a)));
    }
  }

  /** Rule by rule, the `style` attribute collects the matching blocks in
      source order. */
  lemma {:induction false} FoldPassesStyle(root: Element, rules: seq<Rule>, q: Path, a: seq<Attribute>,
      done: seq<string>, start: Option<string>)
    requires ValidPath(root, q)
    requires GetAttribute(a, "style") == MergeStyle(start, done)
    ensures GetAttribute(FoldPasses(root, rules, q, a), "style") ==
      MergeStyle(start, done + MatchedBlocks(root, rules, q))
    decreases |rules|
  {
    if rules == [] {
      assert done + [] == done;
    } else {
      var r := rules[0];
      var a' := RulePass(root, r)(q, a);
      var c := Contribution(root, r, q);
      PassStyle(root, r, q, a, done, start);
      FoldPassesStyle(root, rules[1..], q, a', done + c, start);
      FoldStep(root, rules, q, a, done);
    }
  }

  lemma FoldStep(root: Element, rules: seq<Rule>, q: Path, a: seq<Attribute>, done: seq<string>)
    requires ValidPath(root, q) && rules != []
    ensures FoldPasses(root, rules, q, a) == FoldPasses(root, rules[1..], q, RulePass(root, rules[0])(q, a))
    ensures done + Contribution(root, rules[0], q) + MatchedBlocks(root, rules[1..], q) ==
      done + MatchedBlocks(root, rules, q)
  {
    var c := Contribution(root, rules[0], q);
    var m := MatchedBlocks(root, rules[1..], q);
    assert MatchedBlocks(root, rules, q) == c + m;
    assert done + c + m == done + (c + m);
  }

  /** The passes leave every attribute but `style` alone. */
  lemma {:induction false} FoldPassesOthers(root: Element, rules: seq<Rule>, q: Path, a: seq<Attribute>, n: string)
    requires n != "style"
    ensures GetAttribute(FoldPasses(root, rules, q, a), n) == GetAttribute(a, n)
    decreases |rules|
  {
    if rules != [] {
      var r := rules[0];
      var a' := RulePass(root, r)(q, a);
      if ValidPath(root, q) && AnyMatches(root, r.selectors, q) {
        SetKeepsOthers(a, "style", GetAttribute(a, "style").GetOr([]) + r.block, n);
      }
      FoldPassesOthers(root, rules[1..], q, a', n);
    }
  }

  /** One pass: the rule's block is appended to the style when the rule
      applies, and nothing changes otherwise. */
  lemma PassStyle(root: Element, r: Rule, q: Path, a: seq<Attribute>, done: seq<string>, start: Option<string>)
    requires ValidPath(root, q)
    requires GetAttribute(a, "style") == MergeStyle(start, done)
    ensures GetAttribute(RulePass(root, r)(q, a), "style") == MergeStyle(start, done + Contribution(root, r, q))
  {
    if AnyMatches(root, r.selectors, q) {
      var v := GetAttribute(a, "style").GetOr([]) + r.block;
      assert RulePass(root, r)(q, a) == SetAttribute(a, "style", v);
      SetThenGet(a, "style", v);
      MergeStyleSnoc(start, done, r.block);
    } else {
      assert done + [] == done;
    }
  }

  lemma NormaliseStyle(a: seq<Attribute>)
    ensures GetAttribute(Normalise(a), "style") == MergeStyle(GetAttribute(a, "style"), [])
    ensures forall n :: n != "style" ==> GetAttribute(Normalise(a), n) == GetAttribute(a, n)
  {
    match GetAttribute(a, "style")
    case None =>
    case Some(v) =>
      SetThenGet(a, "style", LowerNames(v));
      assert Concat([]) == [];
      assert LowerNames(v) + [] == LowerNames(v);
      forall n | n != "style" ensures GetAttribute(Normalise(a), n) == GetAttribute(a, n) {
        SetKeepsOthers(a, "style", LowerNames(v), n);
      }
  }

  /** The engine writes into every element exactly the style `InlinedStyle`
      describes, leaves its other attributes and its tag alone, and keeps
      the shape of the tree. */
  lemma InlineStyleAt(root: Element, rules: seq<Rule>, q: Path)
    requires ValidPath(root, q)
    ensures ValidPath(Inline(root, rules), q)
    ensures GetAttribute(At(Inline(root, rules), q).attrs, "style") == InlinedStyle(root, rules, q)
    ensures forall n :: n != "style" ==>
      GetAttribute(At(Inline(root, rules), q).attrs, n) == GetAttribute(At(root, q).attrs, n)
    ensures At(Inline(root, rules), q).tag == At(root, q).tag
    ensures |At(Inline(root, rules), q).children| == |At(root, q).children|
  {
    var f := (q, a) => Normalise(a);
    var h := (q, a) => FoldPasses(root, rules, q, f(q, a));
    PassesAsOneRewrite(root, root, rules, f);
    MapAttrsAt(root, h, q);
    var a := At(root, q).attrs;
    NormaliseStyle(a);
    FoldPassesStyle(root, rules, q, Normalise(a), [], GetAttribute(a, "style"));
    assert [] + MatchedBlocks(root, rules, q) == MatchedBlocks(root, rules, q);
    forall n | n != "style"
      ensures GetAttribute(At(Inline(root, rules), q).attrs, n) == GetAttribute(a, n)
    {
      FoldPassesOthers(root, rules, q, Normalise(a), n);
    }
  }

  /** The paths of the inlined document are those of the original. */
  lemma InlineKeepsPaths(root: Element, rules: seq<Rule>, q: Path)
    ensures ValidPath(Inline(root, rules), q) <==> ValidPath(root, q)
  {
    var f := (q, a) => Normalise(a);
    var h := (q, a) => FoldPasses(root, rules, q, f(q, a));
    PassesAsOneRewrite(root, root, rules, f);
    if ValidPath(root, q) {
      MapAttrsAt(root, h, q);
    }
    if ValidPath(Inline(root, rules), q) {
      MapAttrsValid(root, h, q);
    }
  }

  /** The attributes `attrs` with a `style` attribute `st` after them, if
      there is one. */
  function WithStyle(attrs: seq<Attribute>, st: Option<string>): seq<Attribute> {
    match st
    case None => attrs
    case Some(v) => attrs + [Attribute("style", v)]
  }

  lemma {:induction false} FoldPassesNew(root: Element, rules: seq<Rule>, q: Path, a0: seq<Attribute>, done: seq<string>)
    requires ValidPath(root, q) && GetAttribute(a0, "style").None?
    ensures FoldPasses(root, rules, q, WithStyle(a0, MergeStyle(None, done))) ==
      WithStyle(a0, MergeStyle(None, done + MatchedBlocks(root, rules, q)))
    decreases |rules|
  {
    if rules == [] {
      assert done + [] == done;
    } else {
      var r := rules[0];
      var a := WithStyle(a0, MergeStyle(None, done));
      var c := Contribution(root, r, q);
      NewPass(root, r, q, a0, done);
      FoldPassesNew(root, rules[1..], q, a0, done + c);
      FoldStep(root, rules, q, a, done);
    }
  }

  lemma NewPass(root: Element, r: Rule, q: Path, a0: seq<Attribute>, done: seq<string>)
    requires ValidPath(root, q) && GetAttribute(a0, "style").None?
    ensures RulePass(root, r)(q, WithStyle(a0, MergeStyle(None, done))) ==
      WithStyle(a0, MergeStyle(None, done + Contribution(root, r, q)))
  {
    var a := WithStyle(a0, MergeStyle(None, done));
    if AnyMatches(root, r.selectors, q) {
      MergeStyleSnoc(None, done, r.block);
      if done == [] {
        assert a == a0;
        assert GetAttribute(a, "style").GetOr([]) == [];
      } else {
        var v := MergeStyle(None, done).value;
        assert GetAttribute(a, "style") == Some(v) by {
          SetThenGet(a0, "style", v);
        }
        SetLast(a0, "style", v, v + r.block);
      }
    } else {
      assert done + [] == done;
    }
  }

  /** An element without a `style` attribute keeps its attributes in order
      and gains `style` after them when some rule matches it; otherwise it
      is left exactly as it was. */
  lemma InlineNewStyle(root: Element, rules: seq<Rule>, q: Path)
    requires ValidPath(root, q) && GetAttribute(At(root, q).attrs, "style").None?
    ensures ValidPath(Inline(root, rules), q)
    ensures At(Inline(root, rules), q).attrs == WithStyle(At(root, q).attrs, InlinedStyle(root, rules, q))
  {
    var f := (q, a) => Normalise(a);
    var h := (q, a) => FoldPasses(root, rules, q, f(q, a));
    PassesAsOneRewrite(root, root, rules, f);
    MapAttrsAt(root, h, q);
    var a := At(root, q).attrs;
    assert Normalise(a) == a == WithStyle(a, MergeStyle(None, []));
    FoldPassesNew(root, rules, q, a, []);
    assert [] + MatchedBlocks(root, rules, q) == MatchedBlocks(root, rules, q);
  }

  // ---------------------------------------------------------------------
  // The whole run
  // ---------------------------------------------------------------------

  /** The inlined document and the media rules to keep with it. */
  datatype Output = Output(document: Element, mediaCss: seq<string>)

  datatype Error = NoDocument

  /** Inlines `css` into the document `html`. Unset or empty markup is
      modelled as no document, and is refused rather than inlined into. */
  function Emogrify(html: Option<Element>, css: string): (r: Result<Output, Error>)
    ensures r.Failure? <==> html.None?
    ensures r.Success? ==> r.value.mediaCss == ParseStylesheet(css).preserved
  {
    match html
    case None => Failure(NoDocument)
    case Some(root) =>
      var sheet := ParseStylesheet(css);
      Success(Output(Inline(root, sheet.rules), sheet.preserved))
  }

  /** Every element of an inlined document carries the style the rules of
      the stylesheet give it. */
  lemma EmogrifyInlines(root: Element, css: string, q: Path)
    requires ValidPath(root, q)
    ensures Emogrify(Some(root), css).Success?
    ensures var doc := Emogrify(Some(root), css).value.document;
      && ValidPath(doc, q)
      && GetAttribute(At(doc, q).attrs, "style") == InlinedStyle(root, ParseStylesheet(css).rules, q)
      && At(doc, q).tag == At(root, q).tag
  {
    InlineStyleAt(root, ParseStylesheet(css).rules, q);
  }

  /** Inlining is not idempotent. Running the inliner again over its own
      output, with no rules at all, lower-cases a property name that a rule
      wrote in upper case: the first run keeps the stylesheet's casing, the
      second treats the result as an existing inline style. */
  lemma RerunLowersCssNames(root: Element, x: Selector, b: string, q: Path)
    requires ValidPath(root, q) && GetAttribute(At(root, q).attrs, "style").None?
    requires MatchesAt(root, x, q)
    requires b != [] && 'A' <= b[0] <= 'Z'
    ensures Inline(Inline(root, [Rule([x], b)]), []) != Inline(root, [Rule([x], b)])
  {
    var rules := [Rule([x], b)];
    var once := Inline(root, rules);
    InlineStyleAt(root, rules, q);
    assert AnyMatches(root, rules[0].selectors, q) by {
      assert rules[0].selectors[0] == x;
    }
    assert MatchedBlocks(root, rules, q) == [b] by {
      assert rules[1..] == [];
    }
    assert LowerNames([]) == [] && [] + b == b;
    assert InlinedStyle(root, rules, q) == MergeStyle(None, [b]);
    var none: Option<string> := None;
    assert none.GetOr([]) == [];
    assert MergeStyle(none, [b]) == Some(LowerNames([]) + Concat([b]));
    assert Concat([b]) == b by {
      assert Concat([b]) == b + Concat([]);
      assert Concat([]) == [] && b + [] == b;
    }
    assert MergeStyle(none, [b]) == Some(b);
    assert GetAttribute(At(once, q).attrs, "style") == Some(b);
    InlineStyleAt(once, [], q);
    var st := LowerNames(b) + Concat([]);
    assert GetAttribute(At(Inline(once, []), q).attrs, "style") == Some(st);
    assert st[0] == LowerChar(b[0]) != b[0];
  }
}
