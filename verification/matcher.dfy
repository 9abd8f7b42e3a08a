/**
 * Deciding whether a selector matches an element of the document tree.
 *
 * `MatchesAt` is the matcher: it checks the rightmost compound against the
 * element and walks leftwards, trying the parent for `>`, the preceding
 * sibling for `+` and each ancestor in turn, nearest first, for whitespace.
 * `Selects` is the relation section 5 of CSS 2.1 describes, stated with an
 * existential over related elements; `MatchesIffSelects` shows the two agree.
 */
module Matcher {
  import opened Wrappers
  import opened Text
  import opened Dom
  import opened Selectors

  /** The class names of an element: the words of its `class` attribute. */
  function Classes(e: Element): seq<string> {
    match GetAttribute(e.attrs, "class")
    case None => []
    case Some(v) => Words(v)
  }

  predicate TestHolds(t: Test, e: Element) {
    match t
    case HasId(v) => GetAttribute(e.attrs, "id") == Some(v)
    case HasClass(c) => c in Classes(e)
    case HasAttr(n) => GetAttribute(e.attrs, n).Some?
    case AttrEquals(n, v) => GetAttribute(e.attrs, n) == Some(v)
  }

  /** A compound matches an element when the element has its type (if it
      names one) and passes every one of its tests. */
  predicate CompoundMatches(c: Compound, e: Element) {
    && (c.tag.None? || c.tag.value == e.tag)
    && forall i :: 0 <= i < |c.tests| ==> TestHolds(c.tests[i], e)
  }

  predicate MatchesAt(root: Element, s: Selector, p: Path)
    requires ValidPath(root, p)
    decreases s, 0, 0
  {
    match s
    case Key(c) => CompoundMatches(c, At(root, p))
    case Chain(l, k, r) =>
      && CompoundMatches(r, At(root, p))
      && match k
         case Child => |p| > 0 && MatchesAt(root, l, Parent(p))
         case AdjacentSibling =>
           |p| > 0 && Last(p) > 0
           && (ChildPath(root, Parent(p), Last(p) - 1); MatchesAt(root, l, PreviousSibling(p)))
         case Descendant => AncestorMatches(root, l, p, |p|)
  }

  /** Some ancestor `p[..j]` with `j < k` is matched by `l`; the nearest such
      ancestor is tried first. */
  predicate AncestorMatches(root: Element, l: Selector, p: Path, k: nat)
    requires ValidPath(root, p) && k <= |p|
    decreases l, 1, k
  {
    && k > 0
    && (PrefixPath(root, p, k - 1);
        MatchesAt(root, l, p[..k - 1]) || AncestorMatches(root, l, p, k - 1))
  }

  /** How the element at `q` must stand to the element at `p` for a
      combinator: a strict ancestor for whitespace, the parent for `>`, the
      element just before it among the parent's children for `+`. */
  predicate Related(k: Combinator, q: Path, p: Path) {
    match k
    case Descendant => |q| < |p| && q == p[..|q|]
    case Child => |p| > 0 && q == Parent(p)
    case AdjacentSibling => |p| > 0 && Last(p) > 0 && q == PreviousSibling(p)
  }

  ghost predicate Selects(root: Element, s: Selector, p: Path)
    requires ValidPath(root, p)
    decreases s
  {
    match s
    case Key(c) => CompoundMatches(c, At(root, p))
    case Chain(l, k, r) =>
      && CompoundMatches(r, At(root, p))
      && exists q :: Related(k, q, p) && ValidPath(root, q) && Selects(root, l, q)
  }

  /** The matcher decides exactly the relation `Selects` states for the
      supported subset of sections 5.3 to 5.9 of CSS 2.1. */
  lemma {:induction false} MatchesIffSelects(root: Element, s: Selector, p: Path)
    requires ValidPath(root, p)
    ensures MatchesAt(root, s, p) <==> Selects(root, s, p)
    decreases s, 0, 0
  {
    match s
    case Key(c) =>
    case Chain(l, k, r) =>
      match k
      case Child =>
        if |p| > 0 {
          MatchesIffSelects(root, l, Parent(p));
        }
      case AdjacentSibling =>
        if |p| > 0 && Last(p) > 0 {
          ChildPath(root, Parent(p), Last(p) - 1);
          MatchesIffSelects(root, l, PreviousSibling(p));
        }
      case Descendant =>
        AncestorMatchesIff(root, l, p, |p|);
        if AncestorMatches(root, l, p, |p|) {
          var j :| 0 <= j < |p| && ValidPath(root, p[..j]) && Selects(root, l, p[..j]);
          assert Related(Descendant, p[..j], p);
        }
        if Selects(root, s, p) {
          var q :| Related(k, q, p) && ValidPath(root, q) && Selects(root, l, q);
          assert q == p[..|q|];
        }
  }

  lemma {:induction false} AncestorMatchesIff(root: Element, l: Selector, p: Path, k: nat)
    requires ValidPath(root, p) && k <= |p|
    ensures AncestorMatches(root, l, p, k) <==>
      exists j :: 0 <= j < k && ValidPath(root, p[..j]) && Selects(root, l, p[..j])
    decreases l, 1, k
  {
    if k > 0 {
      PrefixPath(root, p, k - 1);
      MatchesIffSelects(root, l, p[..k - 1]);
      AncestorMatchesIff(root, l, p, k - 1);
    }
  }

  /** The universal selector `*` matches every element, the root included. */
  lemma UniversalMatchesEverything(root: Element, p: Path)
    requires ValidPath(root, p)
    ensures MatchesAt(root, Key(Compound(None, [])), p)
  {
  }

  /** A type selector matches exactly the elements with that tag. */
  lemma TypeSelectorMatchesTag(root: Element, tag: string, p: Path)
    requires ValidPath(root, p)
    ensures MatchesAt(root, Key(Compound(Some(tag), [])), p) <==> At(root, p).tag == tag
  {
  }

  /** A descendant selector `a b` matches an element matching `b` below an
      element matching `a` at any depth. */
  lemma DescendantAtAnyDepth(root: Element, a: Selector, b: Compound, p: Path, j: nat)
    requires ValidPath(root, p) && j < |p|
    requires CompoundMatches(b, At(root, p))
    requires ValidPath(root, p[..j]) && MatchesAt(root, a, p[..j])
    ensures MatchesAt(root, Chain(a, Descendant, b), p)
  {
    MatchesIffSelects(root, a, p[..j]);
    AncestorMatchesIff(root, a, p, |p|);
  }

  /** A child selector `a > b` looks at the parent only: whatever the
      grandparent and further ancestors are, it fails when the parent does
      not match `a`. Stated for the matcher and for the relation of CSS
      2.1. */
  lemma ChildLooksAtParentOnly(root: Element, a: Selector, b: Compound, p: Path)
    requires ValidPath(root, p)
    ensures MatchesAt(root, Chain(a, Child, b), p) <==>
      |p| > 0 && CompoundMatches(b, At(root, p)) && MatchesAt(root, a, Parent(p))
    ensures Selects(root, Chain(a, Child, b), p) <==>
      |p| > 0 && CompoundMatches(b, At(root, p)) && Selects(root, a, Parent(p))
  {
    MatchesIffSelects(root, Chain(a, Child, b), p);
    if |p| > 0 {
      MatchesIffSelects(root, a, Parent(p));
    }
  }

  /** An adjacent sibling selector `a + b` never matches a first child, and
      otherwise looks at the preceding sibling only. Stated for the matcher
      and for the relation of CSS 2.1. */
  lemma AdjacentLooksAtPreviousSibling(root: Element, a: Selector, b: Compound, p: Path)
    requires ValidPath(root, p)
    ensures |p| > 0 && Last(p) == 0 ==> !MatchesAt(root, Chain(a, AdjacentSibling, b), p)
    ensures |p| > 0 && Last(p) > 0 ==>
      ValidPath(root, PreviousSibling(p)) &&
      (MatchesAt(root, Chain(a, AdjacentSibling, b), p) <==>
        CompoundMatches(b, At(root, p)) && MatchesAt(root, a, PreviousSibling(p)))
    ensures |p| > 0 && Last(p) == 0 ==> !Selects(root, Chain(a, AdjacentSibling, b), p)
    ensures |p| > 0 && Last(p) > 0 ==>
      ValidPath(root, PreviousSibling(p)) &&
      (Selects(root, Chain(a, AdjacentSibling, b), p) <==>
        CompoundMatches(b, At(root, p)) && Selects(root, a, PreviousSibling(p)))
  {
    MatchesIffSelects(root, Chain(a, AdjacentSibling, b), p);
    if |p| > 0 && Last(p) > 0 {
      ChildPath(root, Parent(p), Last(p) - 1);
      MatchesIffSelects(root, a, PreviousSibling(p));
    }
  }

  /** `[n]` holds whenever some attribute is called `n`, whatever its value. */
  lemma AttributePresence(e: Element, n: string)
    ensures TestHolds(HasAttr(n), e) <==> exists i :: 0 <= i < |e.attrs| && e.attrs[i].name == n
  {
  }

  /** `[n="v"]` holds exactly when the attribute `n` has the value `v`;
      an element without the attribute fails it. */
  lemma AttributeValue(e: Element, n: string, v: string)
    ensures TestHolds(AttrEquals(n, v), e) <==> GetAttribute(e.attrs, n) == Some(v)
    ensures TestHolds(AttrEquals(n, v), e) ==> exists i :: 0 <= i < |e.attrs| && e.attrs[i] == Attribute(n, v)
    ensures (forall i :: 0 <= i < |e.attrs| ==> e.attrs[i].name != n) ==> !TestHolds(AttrEquals(n, v), e)
  {
  }
}
