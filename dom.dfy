/**
 * The part of the browser DOM the web front end relies on, over element
 * values: qualified tag names, attribute lookup, `textContent`, element
 * paths and `getElementsByTagName`.
 *
 * An element's character data is kept in one `text` field placed before its
 * child elements; `textContent` is that text followed by the children's.
 */
module Dom {
  import opened Wrappers

  datatype Attr = Attr(name: string, value: string)

  datatype Element = Element(
    prefix: Option<string>,
    localName: string,
    attrs: seq<Attr>,
    text: string,
    children: seq<Element>)
  {
    predicate IsLeaf() {
      children == []
    }
  }

  /** `tagName` in an XML document: the qualified name `prefix:local`. */
  function TagName(e: Element): (r: string)
    ensures e.prefix.None? ==> r == e.localName
    ensures e.prefix.Some? ==> r == e.prefix.value + ":" + e.localName
  {
    match e.prefix
    case None => e.localName
    case Some(p) => p + ":" + e.localName
  }

  /** `getAttribute(name)`: the value of the first attribute with that name, `null` when there is none. */
  function GetAttribute(attrs: seq<Attr>, name: string): (r: Option<string>)
    ensures r.None? <==> forall k :: 0 <= k < |attrs| ==> attrs[k].name != name
    ensures r.Some? ==> Attr(name, r.value) in attrs
  {
    if attrs == [] then None
    else if attrs[0].name == name then Some(attrs[0].value)
    else GetAttribute(attrs[1..], name)
  }

  /** `textContent`: all character data below the element, in document order. */
  function TextContent(e: Element): string
  {
    e.text + ChildrenText(e.children)
  }

  function ChildrenText(cs: seq<Element>): string
  {
    if cs == [] then [] else TextContent(cs[0]) + ChildrenText(cs[1..])
  }

  /** Setting `textContent` replaces everything below the element by one text. */
  function SetTextContent(e: Element, v: string): (r: Element)
    ensures TextContent(r) == v && r.IsLeaf()
    ensures r.prefix == e.prefix && r.localName == e.localName && r.attrs == e.attrs
  {
    e.(text := v, children := [])
  }

  /** A leaf gets back exactly what it was when its old `textContent` is written back. */
  lemma RestoreLeaf(e: Element, v: string)
    requires e.IsLeaf()
    ensures SetTextContent(SetTextContent(e, v), TextContent(e)) == e
  {
    assert TextContent(e) == e.text + [];
  }

  // ---------------------------------------------------------------- paths

  /** A position in a tree: the child index taken at each level. */
  type Path = seq<nat>

  predicate ValidPath(e: Element, p: Path)
    decreases |p|
  {
    p == [] || (p[0] < |e.children| && ValidPath(e.children[p[0]], p[1..]))
  }

  function At(e: Element, p: Path): Element
    requires ValidPath(e, p)
    decreases |p|
  {
    if p == [] then e else At(e.children[p[0]], p[1..])
  }

  /** `q` leaves the way to `p`: at some level the two take different children. */
  predicate Diverges(p: Path, q: Path) {
    exists i :: 0 <= i < |p| && i < |q| && p[i] != q[i]
  }

  /** `q` leads to a proper ancestor of the element at `p`. */
  predicate Above(q: Path, p: Path) {
    |q| < |p| && q == p[..|q|]
  }

  /** Same name, attributes, text and number of children; the children themselves may differ. */
  predicate SameHead(a: Element, b: Element) {
    a.prefix == b.prefix && a.localName == b.localName && a.attrs == b.attrs &&
    a.text == b.text && |a.children| == |b.children|
  }

  /**
   * `r` differs from `e` at most at and below `p`: every element off the way
   * to `p` is the same, and every ancestor of `p` keeps its own name,
   * attributes, text and number of children.
   */
  ghost predicate OnlyBelow(e: Element, p: Path, r: Element) {
    (forall q :: ValidPath(e, q) && Diverges(p, q) ==> ValidPath(r, q) && At(r, q) == At(e, q)) &&
    (forall q :: ValidPath(e, q) && Above(q, p) ==> ValidPath(r, q) && SameHead(At(r, q), At(e, q)))
  }

  /** Replacing one child of `e` by `c` changes `e` only below that child, given that `c` changed only below `p[1..]`. */
  lemma OnlyBelowStep(e: Element, p: Path, c: Element)
    requires p != [] && ValidPath(e, p)
    requires OnlyBelow(e.children[p[0]], p[1..], c)
    ensures OnlyBelow(e, p, e.(children := e.children[p[0] := c]))
  {
    var k := p[0];
    var r := e.(children := e.children[k := c]);
    forall q | ValidPath(e, q) && Diverges(p, q) ensures ValidPath(r, q) && At(r, q) == At(e, q) {
      var i :| 0 <= i < |p| && i < |q| && p[i] != q[i];
      if q[0] != k {
        assert r.children[q[0]] == e.children[q[0]];
      } else {
        assert i > 0;
        assert p[1..][i - 1] != q[1..][i - 1];
        assert Diverges(p[1..], q[1..]);
      }
    }
    forall q | ValidPath(e, q) && Above(q, p) ensures ValidPath(r, q) && SameHead(At(r, q), At(e, q)) {
      if q != [] {
        assert q[0] == k;
        assert q[1..] == p[1..][..|q| - 1];
        assert Above(q[1..], p[1..]);
      }
    }
  }

  /** The tree with the element at `p` replaced by `sub`, and nothing changed off the way to `p`. */
  function Replace(e: Element, p: Path, sub: Element): (r: Element)
    requires ValidPath(e, p)
    ensures ValidPath(r, p) && At(r, p) == sub
    ensures OnlyBelow(e, p, r)
    decreases |p|
  {
    if p == [] then sub
    else
      var k := p[0];
      var c := Replace(e.children[k], p[1..], sub);
      OnlyBelowStep(e, p, c);
      e.(children := e.children[k := c])
  }

  /** Writing back what is already there changes nothing. */
  lemma {:induction false} ReplaceAtSelf(e: Element, p: Path)
    requires ValidPath(e, p)
    ensures Replace(e, p, At(e, p)) == e
    decreases |p|
  {
    if p != [] {
      ReplaceAtSelf(e.children[p[0]], p[1..]);
    }
  }

  /** A second replacement at the same place undoes the first. */
  lemma {:induction false} ReplaceTwice(e: Element, p: Path, a: Element, b: Element)
    requires ValidPath(e, p)
    ensures Replace(Replace(e, p, a), p, b) == Replace(e, p, b)
    decreases |p|
  {
    if p != [] {
      var k := p[0];
      ReplaceTwice(e.children[k], p[1..], a, b);
      assert Replace(e, p, a).children[k] == Replace(e.children[k], p[1..], a);
    }
  }

  /** Trees of the same shape: names and child counts agree everywhere; text and attributes may differ. */
  predicate SameShape(a: Element, b: Element)
  {
    a.prefix == b.prefix && a.localName == b.localName && |a.children| == |b.children| &&
    forall k :: 0 <= k < |a.children| ==> SameShape(a.children[k], b.children[k])
  }

  lemma {:induction false} SameShapeRefl(e: Element)
    ensures SameShape(e, e)
  {
    forall k | 0 <= k < |e.children| ensures SameShape(e.children[k], e.children[k]) {
      SameShapeRefl(e.children[k]);
    }
  }

  lemma {:induction false} SameShapeSym(a: Element, b: Element)
    requires SameShape(a, b)
    ensures SameShape(b, a)
  {
    forall k | 0 <= k < |b.children| ensures SameShape(b.children[k], a.children[k]) {
      SameShapeSym(a.children[k], b.children[k]);
    }
  }

  /** Replacing a leaf by a leaf of the same name keeps the shape of the whole tree. */
  lemma {:induction false} ReplaceLeafKeepsShape(e: Element, p: Path, sub: Element)
    requires ValidPath(e, p) && At(e, p).IsLeaf() && sub.IsLeaf()
    requires sub.prefix == At(e, p).prefix && sub.localName == At(e, p).localName
    ensures SameShape(Replace(e, p, sub), e)
    decreases |p|
  {
    if p != [] {
      var k := p[0];
      var r := Replace(e, p, sub);
      ReplaceLeafKeepsShape(e.children[k], p[1..], sub);
      forall j | 0 <= j < |e.children| ensures SameShape(r.children[j], e.children[j]) {
        if j != k {
          SameShapeRefl(e.children[j]);
        }
      }
    }
  }

  /** Trees of the same shape have the same valid paths, with the same names at their ends. */
  lemma {:induction false} SameShapeAt(a: Element, b: Element, p: Path)
    requires SameShape(a, b) && ValidPath(a, p)
    ensures ValidPath(b, p) && SameShape(At(a, p), At(b, p))
    decreases |p|
  {
    if p != [] {
      SameShapeAt(a.children[p[0]], b.children[p[0]], p[1..]);
    }
  }

  // ---------------------------------------------------------------- tag search

  /** The element and all its descendants, in document (pre-)order. */
  function PreOrder(e: Element): (r: seq<Element>)
    ensures |r| >= 1 && r[0] == e
  {
    [e] + PreOrderAll(e.children)
  }

  function PreOrderAll(cs: seq<Element>): seq<Element>
  {
    if cs == [] then [] else PreOrder(cs[0]) + PreOrderAll(cs[1..])
  }

  /** The elements of `xs` whose qualified name is `name`, in order. */
  function WithTag(xs: seq<Element>, name: string): (r: seq<Element>)
    ensures forall x :: x in r <==> x in xs && TagName(x) == name
    ensures r != [] ==>
      exists i :: 0 <= i < |xs| && xs[i] == r[0] && forall j :: 0 <= j < i ==> TagName(xs[j]) != name
  {
    if xs == [] then []
    else
      var rest := WithTag(xs[1..], name);
      if TagName(xs[0]) == name then [xs[0]] + rest
      else
        assert rest != [] ==>
          exists i :: 1 <= i < |xs| && xs[i] == rest[0] && forall j :: 1 <= j < i ==> TagName(xs[j]) != name by {
          if rest != [] {
            var i :| 0 <= i < |xs| - 1 && xs[1..][i] == rest[0] &&
              forall j :: 0 <= j < i ==> TagName(xs[1..][j]) != name;
            assert xs[i + 1] == rest[0];
            forall j | 1 <= j < i + 1 ensures TagName(xs[j]) != name {
              assert xs[j] == xs[1..][j - 1];
            }
          }
        }
        rest
  }

  /** `document.getElementsByTagName(name)[0]`: the first element in document order with that name. */
  function FirstByTag(doc: Element, name: string): (r: Option<Element>)
    ensures r.Some? ==> TagName(r.value) == name && r.value in PreOrder(doc)
    ensures r.Some? ==>
      exists i :: 0 <= i < |PreOrder(doc)| && PreOrder(doc)[i] == r.value &&
        forall j :: 0 <= j < i ==> TagName(PreOrder(doc)[j]) != name
    ensures r.None? <==> forall x :: x in PreOrder(doc) ==> TagName(x) != name
  {
    var found := WithTag(PreOrder(doc), name);
    if found == [] then None else Some(found[0])
  }
}
