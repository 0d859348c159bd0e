/**
 * The ElementTree view of a parsed TTML document: an element with its tag,
 * attributes in document order, text before the first child, children, and
 * the tail text that follows the element inside its parent.
 */
module ElementTree {
  import opened Wrappers

  datatype Element = Element(
    tag: string,
    attrib: seq<(string, string)>,
    text: Option<string>,
    children: seq<Element>,
    tail: Option<string>)

  /** `e.get(key)`: the value of the first attribute with that name, if any. */
  function Get(attrib: seq<(string, string)>, key: string): (r: Option<string>)
    ensures r.None? <==> forall i :: 0 <= i < |attrib| ==> attrib[i].0 != key
    ensures r.Some? ==> exists i :: 0 <= i < |attrib| && attrib[i] == (key, r.value)
  {
    if attrib == [] then None
    else if attrib[0].0 == key then Some(attrib[0].1)
    else
      var r := Get(attrib[1..], key);
      assert r.Some? ==> exists i :: 1 <= i < |attrib| && attrib[i] == (key, r.value) by {
        if r.Some? {
          var i :| 0 <= i < |attrib[1..]| && attrib[1..][i] == (key, r.value);
          assert attrib[i + 1] == (key, r.value);
        }
      }
      r
  }

  /** Looking a key up in two attribute lists one after the other: the first list wins. */
  lemma {:induction false} GetAppend(a: seq<(string, string)>, b: seq<(string, string)>, key: string)
    ensures Get(a + b, key) == if Get(a, key).Some? then Get(a, key) else Get(b, key)
  {
    if a != [] {
      GetAppend(a[1..], b, key);
      assert (a + b)[1..] == a[1..] + b;
    } else {
      assert a + b == b;
    }
  }

  /** `e.findall(tag)`: the direct children with exactly that tag, in document order. */
  function ChildrenTagged(cs: seq<Element>, tag: string): (r: seq<Element>)
    ensures forall x :: x in r ==> x in cs && x.tag == tag
    ensures forall x :: x in cs && x.tag == tag ==> x in r
    ensures |r| <= |cs|
  {
    if cs == [] then []
    else
      var init := ChildrenTagged(cs[..|cs| - 1], tag);
      var last := cs[|cs| - 1];
      assert cs == cs[..|cs| - 1] + [last];
      if last.tag == tag then init + [last] else init
  }

  /** The proper descendants of an element in document order (preorder). */
  function Descendants(e: Element): seq<Element> {
    DescendantsOf(e.children)
  }

  /** Each element of `cs` followed by its own descendants, in order. */
  function DescendantsOf(cs: seq<Element>): seq<Element> {
    if cs == [] then []
    else
      var last := cs[|cs| - 1];
      DescendantsOf(cs[..|cs| - 1]) + ([last] + Descendants(last))
  }

  /** The first element of `xs` with the tag. */
  function FirstTagged(xs: seq<Element>, tag: string): (r: Option<Element>)
    ensures r.None? <==> forall i :: 0 <= i < |xs| ==> xs[i].tag != tag
    ensures r.Some? ==> exists i :: (0 <= i < |xs| && xs[i] == r.value && r.value.tag == tag &&
      forall j :: 0 <= j < i ==> xs[j].tag != tag)
  {
    if xs == [] then None
    else if xs[0].tag == tag then Some(xs[0])
    else
      var r := FirstTagged(xs[1..], tag);
      assert r.Some? ==> exists i :: (1 <= i < |xs| && xs[i] == r.value && r.value.tag == tag &&
        forall j :: 0 <= j < i ==> xs[j].tag != tag) by {
        if r.Some? {
          var i :| (0 <= i < |xs[1..]| && xs[1..][i] == r.value && r.value.tag == tag &&
            forall j :: 0 <= j < i ==> xs[1..][j].tag != tag);
          assert forall j :: 1 <= j < i + 1 ==> xs[j] == xs[1..][j - 1];
        }
      }
      r
  }

  /** `e.find(".//" + tag)`, searched child by child, each child before its subtree. */
  function FindDescendant(e: Element, tag: string): Option<Element> {
    FindIn(e.children, tag)
  }

  function FindIn(cs: seq<Element>, tag: string): Option<Element> {
    if cs == [] then None
    else
      match FindIn(cs[..|cs| - 1], tag)
      case Some(d) => Some(d)
      case None =>
        var last := cs[|cs| - 1];
        if last.tag == tag then Some(last) else FindDescendant(last, tag)
  }

  // ---------------------------------------------------------------------------

  lemma {:induction false} FirstTaggedAppend(xs: seq<Element>, ys: seq<Element>, tag: string)
    ensures FirstTagged(xs + ys, tag) ==
      if FirstTagged(xs, tag).Some? then FirstTagged(xs, tag) else FirstTagged(ys, tag)
  {
    if xs == [] {
      assert xs + ys == ys;
    } else {
      assert (xs + ys)[0] == xs[0];
      assert (xs + ys)[1..] == xs[1..] + ys;
      FirstTaggedAppend(xs[1..], ys, tag);
    }
  }

  /** `find(".//tag")` returns the first proper descendant with that tag in document order. */
  lemma {:induction false} FindIsFirstDescendant(e: Element, tag: string)
    ensures FindDescendant(e, tag) == FirstTagged(Descendants(e), tag)
    decreases e, 1
  {
    FindInIsFirst(e.children, tag);
  }

  lemma {:induction false} FindInIsFirst(cs: seq<Element>, tag: string)
    ensures FindIn(cs, tag) == FirstTagged(DescendantsOf(cs), tag)
    decreases cs, 0
  {
    if cs != [] {
      var init := cs[..|cs| - 1];
      var last := cs[|cs| - 1];
      FindInIsFirst(init, tag);
      FindIsFirstDescendant(last, tag);
      FirstTaggedAppend(DescendantsOf(init), [last] + Descendants(last), tag);
      FirstTaggedAppend([last], Descendants(last), tag);
    }
  }
}
