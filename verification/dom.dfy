/**
 * The document the engine works on: an already-parsed tree of elements.
 * Parsing markup into this tree and serialising it back are done by an HTML
 * library outside this model. Tag and attribute names are lower-case, as the
 * HTML parser normalises them; attribute values are opaque strings.
 *
 * An element is addressed by its path, the sequence of child indices that
 * leads to it from the root, so parents and preceding siblings are reached by
 * editing the path rather than through back-references.
 */
module Dom {
  import opened Wrappers

  datatype Attribute = Attribute(name: string, value: string)

  /** An element with its attributes in document order and its element
      children in document order. Text nodes are not represented: no selector
      matches them and the sibling combinator skips over them. */
  datatype Element = Element(tag: string, attrs: seq<Attribute>, children: seq<Element>)

  type Path = seq<nat>

  function Parent(p: Path): Path
    requires |p| > 0
  {
    p[..|p| - 1]
  }

  function Last(p: Path): nat
    requires |p| > 0
  {
    p[|p| - 1]
  }

  /** The path of the element just before `p` among its parent's children. */
  function PreviousSibling(p: Path): Path
    requires |p| > 0 && Last(p) > 0
  {
    Parent(p) + [Last(p) - 1]
  }

  /** `p` leads from `root` to an element of the tree. */
  predicate ValidPath(root: Element, p: Path)
    decreases |p|, 0
  {
    p == [] || (ValidPath(root, Parent(p)) && Last(p) < |At(root, Parent(p)).children|)
  }

  /** The element that `p` leads to. */
  function At(root: Element, p: Path): Element
    requires ValidPath(root, p)
    decreases |p|, 1
  {
    if p == [] then root else At(root, Parent(p)).children[Last(p)]
  }

  lemma ChildPath(root: Element, p: Path, i: nat)
    requires ValidPath(root, p) && i < |At(root, p).children|
    ensures ValidPath(root, p + [i]) && At(root, p + [i]) == At(root, p).children[i]
  {
    assert Parent(p + [i]) == p;
  }

  /** Every prefix of a path that leads into the tree leads into the tree:
      every ancestor of an element is an element of the tree. */
  lemma {:induction false} PrefixPath(root: Element, p: Path, k: nat)
    requires ValidPath(root, p) && k <= |p|
    ensures ValidPath(root, p[..k])
    decreases |p|
  {
    if k < |p| {
      assert Parent(p)[..k] == p[..k];
      PrefixPath(root, Parent(p), k);
    } else {
      assert p[..k] == p;
    }
  }

  /** The value of the first attribute called `name`, if there is one. */
  function GetAttribute(attrs: seq<Attribute>, name: string): (v: Option<string>)
    ensures v.Some? <==> exists i :: 0 <= i < |attrs| && attrs[i].name == name
    ensures v.Some? ==> exists i :: 0 <= i < |attrs| && attrs[i] == Attribute(name, v.value)
    ensures forall i :: FirstNamed(attrs, name, i) ==> v == Some(attrs[i].value)
  {
    if attrs == [] then None
    else if attrs[0].name == name then
      assert FirstNamed(attrs, name, 0);
      Some(attrs[0].value)
    else
      var v := GetAttribute(attrs[1..], name);
      assert forall i :: 1 <= i < |attrs| ==> attrs[i] == attrs[1..][i - 1];
      FirstNamedTail(attrs, name);
      v
  }

  /** Sets attribute `name` to `value`: an attribute already called `name`
      keeps its place and gets the new value, otherwise the attribute is
      appended after the existing ones. */
  function SetAttribute(attrs: seq<Attribute>, name: string, value: string): (r: seq<Attribute>)
    ensures GetAttribute(attrs, name).None? ==> r == attrs + [Attribute(name, value)]
    ensures GetAttribute(attrs, name).Some? ==>
      |r| == |attrs| && forall i :: 0 <= i < |attrs| ==> r[i].name == attrs[i].name
    ensures GetAttribute(attrs, name).Some? ==>
      forall i :: 0 <= i < |attrs| ==>
        r[i] == if FirstNamed(attrs, name, i) then Attribute(name, value) else attrs[i]
  {
    if GetAttribute(attrs, name).None? then
      PutAbsent(attrs, name, value);
      Put(attrs, name, value)
    else
      PutPresent(attrs, name, value);
      Put(attrs, name, value)
  }

  /** The attribute list with the first attribute called `name` given the
      value `value`, or with it appended if there is none. */
  function Put(attrs: seq<Attribute>, name: string, value: string): seq<Attribute> {
    if attrs == [] then [Attribute(name, value)]
    else if attrs[0].name == name then [Attribute(name, value)] + attrs[1..]
    else [attrs[0]] + Put(attrs[1..], name, value)
  }

  lemma {:induction false} PutAbsent(attrs: seq<Attribute>, name: string, value: string)
    requires GetAttribute(attrs, name).None?
    ensures Put(attrs, name, value) == attrs + [Attribute(name, value)]
    decreases |attrs|
  {
    if attrs != [] {
      assert GetAttribute(attrs[1..], name).None?;
      PutAbsent(attrs[1..], name, value);
      assert attrs == [attrs[0]] + attrs[1..];
    }
  }

  lemma {:induction false} PutPresent(attrs: seq<Attribute>, name: string, value: string)
    requires GetAttribute(attrs, name).Some?
    ensures |Put(attrs, name, value)| == |attrs|
    ensures forall i :: 0 <= i < |attrs| ==>
      Put(attrs, name, value)[i] == if FirstNamed(attrs, name, i) then Attribute(name, value) else attrs[i]
    decreases |attrs|
  {
    var r := Put(attrs, name, value);
    if attrs[0].name == name {
      assert FirstNamed(attrs, name, 0);
      assert forall i :: 0 < i < |attrs| ==> !FirstNamed(attrs, name, i);
    } else {
      assert GetAttribute(attrs[1..], name).Some?;
      PutPresent(attrs[1..], name, value);
      FirstNamedTail(attrs, name);
      assert forall i :: 0 < i < |attrs| ==> r[i] == Put(attrs[1..], name, value)[i - 1];
    }
  }

  /** Past a first attribute of another name, the first attribute called
      `name` is one place further on than in the rest. */
  lemma FirstNamedTail(attrs: seq<Attribute>, name: string)
    requires attrs != [] && attrs[0].name != name
    ensures forall i :: 0 < i < |attrs| ==> (FirstNamed(attrs, name, i) <==> FirstNamed(attrs[1..], name, i - 1))
  {
    assert forall k :: 0 < k < |attrs| ==> attrs[k] == attrs[1..][k - 1];
  }

  /** `i` is the position of the first attribute called `name`. */
  predicate FirstNamed(attrs: seq<Attribute>, name: string, i: int) {
    && 0 <= i < |attrs| && attrs[i].name == name
    && forall k :: 0 <= k < i ==> attrs[k].name != name
  }

  /** After setting, the attribute reads back as the value written. */
  lemma {:induction false} SetThenGet(attrs: seq<Attribute>, name: string, value: string)
    ensures GetAttribute(SetAttribute(attrs, name, value), name) == Some(value)
  {
    if attrs != [] && attrs[0].name != name {
      SetThenGet(attrs[1..], name, value);
    }
  }

  /** Setting one attribute leaves every other attribute as it was. */
  lemma {:induction false} SetKeepsOthers(attrs: seq<Attribute>, name: string, value: string, other: string)
    requires other != name
    ensures GetAttribute(SetAttribute(attrs, name, value), other) == GetAttribute(attrs, other)
  {
    if attrs != [] && attrs[0].name != name {
      SetKeepsOthers(attrs[1..], name, value, other);
    }
  }

  /** An attribute appended after a list that does not name it is updated
      where it stands, at the end. */
  lemma {:induction false} SetLast(attrs: seq<Attribute>, name: string, v: string, w: string)
    requires GetAttribute(attrs, name).None?
    ensures SetAttribute(attrs + [Attribute(name, v)], name, w) == attrs + [Attribute(name, w)]
    decreases |attrs|
  {
    if attrs == [] {
      assert attrs + [Attribute(name, v)] == [Attribute(name, v)];
    } else {
      var l := attrs + [Attribute(name, v)];
      assert l[0] == attrs[0] && l[1..] == attrs[1..] + [Attribute(name, v)];
      assert GetAttribute(attrs[1..], name).None? by {
        assert forall i :: 0 <= i < |attrs[1..]| ==> attrs[1..][i] == attrs[i + 1];
      }
      SetLast(attrs[1..], name, v, w);
    }
  }
}
