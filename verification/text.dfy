/**
 * Character-level helpers shared by the stylesheet, selector and declaration
 * code: CSS whitespace, ASCII lower-casing, trimming and whitespace-separated
 * words.
 */
module Text {

  /** Whitespace as section 4.1.1 of CSS 2.1 defines it: space, tab, line feed,
      carriage return and form feed. */
  predicate IsSpace(c: char) {
    c == ' ' || c == '\t' || c == '\n' || c == '\r' || c == '\U{000C}'
  }

  predicate AllSpace(s: string) {
    forall i :: 0 <= i < |s| ==> IsSpace(s[i])
  }

  predicate NoSpace(s: string) {
    forall i :: 0 <= i < |s| ==> !IsSpace(s[i])
  }

  /** ASCII lower-casing; every other character is left alone. */
  function LowerChar(c: char): char {
    if 'A' <= c <= 'Z' then (c as int + 32) as char else c
  }

  function Lower(s: string): (r: string)
    ensures |r| == |s|
    ensures forall i :: 0 <= i < |s| ==> r[i] == LowerChar(s[i])
  {
    seq(|s|, i requires 0 <= i < |s| => LowerChar(s[i]))
  }

  predicate NoUpper(s: string) {
    forall i :: 0 <= i < |s| ==> !('A' <= s[i] <= 'Z')
  }

  /** Lower-casing leaves text without capital letters as it is, and its
      result has no capital letters left. */
  lemma LowerFixesLowercase(s: string)
    ensures NoUpper(Lower(s))
    ensures NoUpper(s) ==> Lower(s) == s
  {
  }

  /** Removes leading whitespace; `TrimLeftSplit` shows that what is removed
      is exactly the whitespace prefix. */
  function TrimLeft(s: string): (r: string)
    ensures |r| <= |s|
    ensures r == [] || !IsSpace(r[0])
    decreases |s|
  {
    if |s| > 0 && IsSpace(s[0]) then TrimLeft(s[1..]) else s
  }

  /** Removes trailing whitespace; `TrimRightSplit` shows that what is
      removed is exactly the whitespace suffix. */
  function TrimRight(s: string): (r: string)
    ensures |r| <= |s|
    ensures r == [] || !IsSpace(r[|r| - 1])
    decreases |s|
  {
    if |s| > 0 && IsSpace(s[|s| - 1]) then TrimRight(s[..|s| - 1]) else s
  }

  lemma {:induction false} TrimLeftSplit(s: string)
    ensures s == s[..|s| - |TrimLeft(s)|] + TrimLeft(s)
    ensures AllSpace(s[..|s| - |TrimLeft(s)|])
    decreases |s|
  {
    if |s| > 0 && IsSpace(s[0]) {
      TrimLeftSplit(s[1..]);
      var k := |s| - |TrimLeft(s)|;
      assert s[..k] == [s[0]] + s[1..][..k - 1];
    }
  }

  lemma {:induction false} TrimRightSplit(s: string)
    ensures s == TrimRight(s) + s[|TrimRight(s)|..]
    ensures AllSpace(s[|TrimRight(s)|..])
    decreases |s|
  {
    if |s| > 0 && IsSpace(s[|s| - 1]) {
      var p := s[..|s| - 1];
      TrimRightSplit(p);
      var r := TrimRight(s);
      assert s[|r|..] == p[|r|..] + [s[|s| - 1]];
    }
  }

  /** Removes whitespace at both ends; every interior character is kept. */
  function Trim(s: string): (r: string)
    ensures exists i :: 0 <= i <= |s| - |r| && s == s[..i] + r + s[i + |r|..]
                        && AllSpace(s[..i]) && AllSpace(s[i + |r|..])
    ensures r == [] || (!IsSpace(r[0]) && !IsSpace(r[|r| - 1]))
  {
    var t := TrimLeft(s);
    var r := TrimRight(t);
    TrimParts(s);
    r
  }

  /** Where the text kept by `Trim` sits inside its argument. */
  lemma TrimParts(s: string)
    ensures var t := TrimLeft(s); var r := TrimRight(t); var i := |s| - |t|;
      && 0 <= i <= |s| - |r| && s == s[..i] + r + s[i + |r|..]
      && AllSpace(s[..i]) && AllSpace(s[i + |r|..])
      && (r == [] || !IsSpace(r[0]))
  {
    var t := TrimLeft(s);
    var r := TrimRight(t);
    TrimLeftSplit(s);
    TrimRightSplit(t);
    var i := |s| - |t|;
    assert s[i..] == t;
    assert s[i + |r|..] == t[|r|..];
    if r != [] {
      assert r[0] == t[0];
    }
  }

  /** Concatenation regroups. */
  lemma Regroup3(a: string, b: string, c: string)
    ensures a + b + c == a + (b + c)
  {
  }

  /** Text that neither starts nor ends with whitespace is already
      trimmed. */
  lemma TrimNoEdges(t: string)
    requires t == [] || (!IsSpace(t[0]) && !IsSpace(t[|t| - 1]))
    ensures Trim(t) == t
  {
    TrimExact([], t, []);
    assert [] + t + [] == t;
  }

  /** Trimming `w1 + t + w2` for whitespace `w1`, `w2` yields exactly `t`
      when `t` neither starts nor ends with whitespace. */
  lemma {:induction false} TrimExact(w1: string, t: string, w2: string)
    requires AllSpace(w1) && AllSpace(w2)
    requires t == [] || (!IsSpace(t[0]) && !IsSpace(t[|t| - 1]))
    ensures Trim(w1 + t + w2) == t
  {
    assert w1 + t + w2 == w1 + (t + w2);
    TrimLeftSpacePrefix(w1, t + w2);
    if t == [] {
      assert t + w2 == w2;
      TrimLeftAllSpace(w2);
      assert TrimRight([]) == [];
    } else {
      assert (t + w2)[0] == t[0];
      assert TrimLeft(t + w2) == t + w2;
      TrimRightSpaceSuffix(t, w2);
    }
  }

  lemma {:induction false} TrimLeftAllSpace(s: string)
    requires AllSpace(s)
    ensures TrimLeft(s) == []
  {
    if |s| > 0 {
      TrimLeftAllSpace(s[1..]);
    }
  }

  /** A whitespace prefix is invisible to `TrimLeft`. */
  lemma {:induction false} TrimLeftSpacePrefix(sp: string, x: string)
    requires AllSpace(sp)
    ensures TrimLeft(sp + x) == TrimLeft(x)
    decreases |sp|
  {
    if |sp| > 0 {
      assert (sp + x)[1..] == sp[1..] + x;
      TrimLeftSpacePrefix(sp[1..], x);
    } else {
      assert sp + x == x;
    }
  }

  /** `TrimLeft` removes exactly a whitespace prefix in front of text that
      does not start with whitespace. */
  lemma TrimLeftExact(sp: string, x: string)
    requires AllSpace(sp)
    requires x == [] || !IsSpace(x[0])
    ensures TrimLeft(sp + x) == x
  {
    TrimLeftSpacePrefix(sp, x);
  }

  /** A whitespace suffix is invisible to `TrimRight` when what precedes it
      does not end in whitespace. */
  lemma {:induction false} TrimRightSpaceSuffix(t: string, sp: string)
    requires AllSpace(sp)
    requires t != [] && !IsSpace(t[|t| - 1])
    ensures TrimRight(t + sp) == t
    decreases |sp|
  {
    if |sp| > 0 {
      var u := t + sp;
      assert u[..|u| - 1] == t + sp[..|sp| - 1];
      TrimRightSpaceSuffix(t, sp[..|sp| - 1]);
    } else {
      assert t + sp == t;
    }
  }

  /** The longest prefix of `s` that holds no whitespace. */
  function Token(s: string): (w: string)
    ensures |w| <= |s| && w == s[..|w|] && NoSpace(w)
    ensures |w| < |s| ==> IsSpace(s[|w|])
    decreases |s|
  {
    if |s| > 0 && !IsSpace(s[0]) then [s[0]] + Token(s[1..]) else []
  }

  /** The whitespace-separated words of `s`, in order; as an HTML `class`
      attribute is read as a set of class names and a media query prelude as
      a series of keywords. */
  function Words(s: string): (ws: seq<string>)
    ensures forall k :: 0 <= k < |ws| ==> ws[k] != [] && NoSpace(ws[k])
    decreases |s|
  {
    var t := TrimLeft(s);
    if t == [] then []
    else
      var w := Token(t);
      [w] + Words(t[|w|..])
  }

  lemma {:induction false} TokenExact(w: string, rest: string)
    requires NoSpace(w)
    requires rest == [] || IsSpace(rest[0])
    ensures Token(w + rest) == w
    decreases |w|
  {
    if |w| > 0 {
      assert (w + rest)[1..] == w[1..] + rest;
      TokenExact(w[1..], rest);
    } else {
      assert w + rest == rest;
    }
  }

  /** Leading whitespace does not change the words of a text. */
  lemma WordsSpacePrefix(sp: string, x: string)
    requires AllSpace(sp)
    ensures Words(sp + x) == Words(x)
  {
    TrimLeftSpacePrefix(sp, x);
  }

  /** A word followed by whitespace or the end of the text is the first word. */
  lemma WordsCons(w: string, rest: string)
    requires w != [] && NoSpace(w)
    requires rest == [] || IsSpace(rest[0])
    ensures Words(w + rest) == [w] + Words(rest)
  {
    assert TrimLeft(w + rest) == w + rest;
    TokenExact(w, rest);
    assert (w + rest)[|w|..] == rest;
  }

  /** A text with no whitespace in it is a single word, unless it is empty. */
  lemma WordsSingle(w: string)
    requires w != [] && NoSpace(w)
    ensures Words(w) == [w]
  {
    WordsCons(w, []);
    assert w + [] == w;
  }
}
