/**
 * Declaration text as written into an element's `style` attribute.
 *
 * The inline style an element already has is normalised by lower-casing its
 * property names (CSS property names are case-insensitive) while values
 * without a `;` in them keep their case. Every `;` ends a declaration, even
 * one inside parentheses or quotes, so the text after such a `;` is read as
 * a property name. The blocks of the rules that match the element are then
 * appended after it, in the order the rules appear in the stylesheet, each
 * exactly as written apart from its outer whitespace; their property names
 * keep the casing of the stylesheet.
 */
module Declarations {
  import opened Wrappers
  import opened Text

  /** Lower-cases the property names of a declaration list, leaving values
      up to their first `;` alone. `inName` says whether the text starts inside a property name:
      a name runs up to its `:`, a value up to the `;` that ends the
      declaration. */
  function LowerFrom(s: string, inName: bool): (r: string)
    ensures |r| == |s|
    decreases |s|
  {
    if s == [] then []
    else
      var c := s[0];
      var next := if c == ';' then true else if c == ':' then false else inName;
      [if inName then LowerChar(c) else c] + LowerFrom(s[1..], next)
  }

  /** An inline style with its property names lower-cased. */
  function LowerNames(style: string): string {
    LowerFrom(style, true)
  }

  /** A property name (no `:` or `;` in it) is lower-cased. */
  lemma {:induction false} LowerFromName(n: string, rest: string)
    requires ':' !in n && ';' !in n
    ensures LowerFrom(n + rest, true) == Lower(n) + LowerFrom(rest, true)
    decreases |n|
  {
    if n == [] {
      assert n + rest == rest;
    } else {
      var s := n + rest;
      assert s[0] == n[0] && n[0] in n;
      assert s[1..] == n[1..] + rest;
      assert ':' !in n[1..] && ';' !in n[1..] by {
        assert forall i :: 0 <= i < |n[1..]| ==> n[1..][i] == n[i + 1];
      }
      LowerFromName(n[1..], rest);
      assert Lower(n) == [LowerChar(n[0])] + Lower(n[1..]);
    }
  }

  /** A property value (no `;` in it) is kept as it is. */
  lemma {:induction false} LowerFromValue(v: string, rest: string)
    requires ';' !in v
    ensures LowerFrom(v + rest, false) == v + LowerFrom(rest, false)
    decreases |v|
  {
    if v == [] {
      assert v + rest == rest;
    } else {
      var s := v + rest;
      assert s[0] == v[0] && v[0] in v;
      assert s[1..] == v[1..] + rest;
      assert ';' !in v[1..] by {
        assert forall i :: 0 <= i < |v[1..]| ==> v[1..][i] == v[i + 1];
      }
      LowerFromValue(v[1..], rest);
      assert v == [v[0]] + v[1..];
    }
  }

  /** One declaration `name:value;` followed by more: the name is
      lower-cased, the value and the separators are kept. */
  lemma LowerNamesDeclaration(n: string, v: string, rest: string)
    requires ':' !in n && ';' !in n && ';' !in v
    ensures LowerNames(n + ":" + v + ";" + rest) == Lower(n) + ":" + v + ";" + LowerNames(rest)
  {
    var tail := v + (";" + rest);
    calc {
      LowerNames(n + ":" + v + ";" + rest);
      { Regroup(n, ":", v, ";", rest); }
      LowerFrom(n + (":" + tail), true);
      { LowerFromName(n, ":" + tail); }
      Lower(n) + LowerFrom(":" + tail, true);
      { ColonStep(tail); }
      Lower(n) + (":" + LowerFrom(tail, false));
      { LowerFromValue(v, ";" + rest); }
      Lower(n) + (":" + (v + LowerFrom(";" + rest, false)));
      { SemicolonStep(rest); }
      Lower(n) + (":" + (v + (";" + LowerNames(rest))));
      { Regroup(Lower(n), ":", v, ";", LowerNames(rest)); }
      Lower(n) + ":" + v + ";" + LowerNames(rest);
    }
  }

  /** A `;` inside a value, as in `url(data:...;base64,...)`, is taken for
      the end of the declaration: the value is kept only up to it, and the
      text after it is lower-cased as if it were a property name. */
  lemma SemicolonInValue(n: string, v: string, w: string)
    requires ':' !in n && ';' !in n && ';' !in v && ':' !in w && ';' !in w
    ensures LowerNames(n + ":" + v + ";" + w) == Lower(n) + ":" + v + ";" + Lower(w)
  {
    LowerNamesDeclaration(n, v, w);
    LowerFromName(w, []);
    assert w + [] == w && Lower(w) + [] == Lower(w);
  }

  lemma Regroup(a: string, b: string, c: string, d: string, e: string)
    ensures a + b + c + d + e == a + (b + (c + (d + e)))
  {
  }

  lemma ColonStep(tail: string)
    ensures LowerFrom(":" + tail, true) == ":" + LowerFrom(tail, false)
  {
    assert (":" + tail)[1..] == tail;
  }

  lemma SemicolonStep(rest: string)
    ensures LowerFrom(";" + rest, false) == ";" + LowerFrom(rest, true)
  {
    assert (";" + rest)[1..] == rest;
  }

  /** The state after reading a character is the same whether the character
      was lower-cased or not, so normalising is idempotent. */
  lemma {:induction false} LowerFromIdempotent(s: string, inName: bool)
    ensures LowerFrom(LowerFrom(s, inName), inName) == LowerFrom(s, inName)
    decreases |s|
  {
    if s != [] {
      var c := s[0];
      var next := if c == ';' then true else if c == ':' then false else inName;
      var r := LowerFrom(s, inName);
      var d := if inName then LowerChar(c) else c;
      assert r == [d] + LowerFrom(s[1..], next);
      assert r[0] == d && r[1..] == LowerFrom(s[1..], next);
      assert (d == ';') == (c == ';') && (d == ':') == (c == ':');
      LowerFromIdempotent(s[1..], next);
    }
  }

  lemma LowerNamesIdempotent(style: string)
    ensures LowerNames(LowerNames(style)) == LowerNames(style)
  {
    LowerFromIdempotent(style, true);
  }

  /** The blocks one after the other. */
  function Concat(blocks: seq<string>): string {
    if blocks == [] then [] else blocks[0] + Concat(blocks[1..])
  }

  /** The style an element ends up with: its existing inline style with the
      property names lower-cased, then the blocks of the matching rules in
      source order. An element without a style attribute that no rule
      matches gets none. */
  function MergeStyle(existing: Option<string>, blocks: seq<string>): (r: Option<string>)
    ensures r.None? <==> existing.None? && blocks == []
  {
    if existing.None? && blocks == [] then None
    else Some(LowerNames(existing.GetOr([])) + Concat(blocks))
  }

  /** Appending the blocks one at a time, as a rule-by-rule pass does, builds
      the same text as appending their concatenation. */
  lemma {:induction false} ConcatSnoc(blocks: seq<string>, b: string)
    ensures Concat(blocks + [b]) == Concat(blocks) + b
    decreases |blocks|
  {
    if blocks == [] {
      assert blocks + [b] == [b];
      assert Concat([b]) == b + Concat([]);
    } else {
      assert (blocks + [b])[1..] == blocks[1..] + [b];
      ConcatSnoc(blocks[1..], b);
    }
  }

  /** Merging one more block appends it to the merged style. */
  lemma MergeStyleSnoc(existing: Option<string>, blocks: seq<string>, b: string)
    ensures MergeStyle(existing, blocks + [b]) == Some(MergeStyle(existing, blocks).GetOr([]) + b)
  {
    ConcatSnoc(blocks, b);
    var l := LowerNames(existing.GetOr([]));
    if existing.None? && blocks == [] {
      assert l == [];
      assert Concat(blocks) == [];
      assert blocks + [b] == [b];
      assert [] + b == b;
    } else {
      assert l + (Concat(blocks) + b) == l + Concat(blocks) + b;
    }
  }
}
