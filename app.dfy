/**
 * The pure logic of the web front end's `App` component: request URLs, the
 * parameter tree built from the configuration document, module resolution
 * and the Loxone placeholder substitution.
 */
module App {
  import opened Wrappers
  import opened Strings
  import opened Scan
  import opened Dom
  import opened Types
  import opened XmlUtils

  const BASE_PATH: string := "/ISAPI/Image/channels/1"

  // ---------------------------------------------------------------- getSafeUrl

  function Lower(c: char): char {
    if 'A' <= c <= 'Z' then (c as int - 'A' as int + 'a' as int) as char else c
  }

  /** `/^https?:\/\//i`: the text starts with `http://` or `https://`, in any letter case. */
  predicate HasHttpScheme(s: string) {
    (|s| >= 7 && Lower(s[0]) == 'h' && Lower(s[1]) == 't' && Lower(s[2]) == 't' && Lower(s[3]) == 'p' &&
      s[4] == ':' && s[5] == '/' && s[6] == '/') ||
    (|s| >= 8 && Lower(s[0]) == 'h' && Lower(s[1]) == 't' && Lower(s[2]) == 't' && Lower(s[3]) == 'p' &&
      Lower(s[4]) == 's' && s[5] == ':' && s[6] == '/' && s[7] == '/')
  }

  /** The path with a leading `/`. */
  function CleanPath(path: string): (r: string)
    ensures StartsWith(r, "/")
    ensures StartsWith(path, "/") ==> r == path
    ensures !StartsWith(path, "/") ==> r == "/" + path
  {
    if StartsWith(path, "/") then path else "/" + path
  }

  /**
   * `getSafeUrl`: in a production build the camera is reached through the
   * `/camera-proxy/<ip>` route, otherwise directly, with `http://` added
   * when the address names no scheme.
   */
  function GetSafeUrl(prod: bool, targetIp: string, path: string): (r: string)
    ensures prod ==> r == "/camera-proxy/" + Trim(targetIp) + CleanPath(path)
    ensures !prod && HasHttpScheme(Trim(targetIp)) ==> r == Trim(targetIp) + CleanPath(path)
    ensures !prod && !HasHttpScheme(Trim(targetIp)) ==> r == "http://" + Trim(targetIp) + CleanPath(path)
  {
    var cleanPath := CleanPath(path);
    if prod then "/camera-proxy/" + Trim(targetIp) + cleanPath
    else
      var cleanBase := Trim(targetIp);
      var base := if !HasHttpScheme(cleanBase) then "http://" + cleanBase else cleanBase;
      base + cleanPath
  }

  /** Outside production every URL names a scheme and ends with the slash-led path. */
  lemma SafeUrlShape(targetIp: string, path: string)
    ensures HasHttpScheme(GetSafeUrl(false, targetIp, path))
    ensures var r := GetSafeUrl(false, targetIp, path); var c := CleanPath(path);
      |c| <= |r| && r[|r| - |c|..] == c
  {
    var r := GetSafeUrl(false, targetIp, path);
    var b := Trim(targetIp);
    if HasHttpScheme(b) {
      assert r[..|b|] == b;
    } else {
      assert r[..7] == "http://";
    }
  }

  // ---------------------------------------------------------------- buildTree

  /** A node's text: the trimmed `textContent` for an element without child elements, else empty. */
  function LeafText(el: Element): string
  {
    if el.children == [] then Trim(TextContent(el)) else ""
  }

  /** `capsDoc.getElementsByTagName(tag)[0]`, read with `parseCapabilities`; nothing without a document or a match. */
  function CapabilitiesFor(capsDoc: Option<Element>, tag: string): (r: Option<HikCapabilities>)
    ensures capsDoc.None? ==> r.None?
    ensures capsDoc.Some? ==>
      (r.None? <==> forall x :: x in PreOrder(capsDoc.value) ==> TagName(x) != tag)
    ensures r.Some? ==>
      capsDoc.Some? && FirstByTag(capsDoc.value, tag).Some? &&
      r.value == ParseCapabilities(FirstByTag(capsDoc.value, tag).value)
  {
    if capsDoc.None? then None
    else
      match FirstByTag(capsDoc.value, tag)
      case None => None
      case Some(c) => Some(ParseCapabilities(c))
  }

  /** The node tree has the element tree's shape: tags, child counts and positions agree. */
  predicate Shaped(n: HikNode, el: Element, raw: Path)
  {
    n.raw == raw && n.tag == el.localName && |n.children| == |el.children| &&
    forall k :: 0 <= k < |n.children| ==>
      n.children[k].parentTag == Some(n.tag) && Shaped(n.children[k], el.children[k], raw + [k])
  }

  /** `Shaped`, plus each node's text and capabilities as `createNode` computes them. */
  predicate Mirrors(n: HikNode, el: Element, raw: Path, capsDoc: Option<Element>)
  {
    n.raw == raw && n.tag == el.localName && |n.children| == |el.children| &&
    n.text == LeafText(el) && n.capabilities == CapabilitiesFor(capsDoc, n.tag) &&
    forall k :: 0 <= k < |n.children| ==>
      n.children[k].parentTag == Some(n.tag) && Mirrors(n.children[k], el.children[k], raw + [k], capsDoc)
  }

  /** Every node of the tree carries the path `fp`. */
  predicate PathsAre(n: HikNode, fp: string)
  {
    n.fullPath == fp && forall k :: 0 <= k < |n.children| ==> PathsAre(n.children[k], fp)
  }

  /** The ids of a tree in pre-order. */
  function Ids(n: HikNode): seq<nat>
  {
    [n.id] + IdsAll(n.children)
  }

  function IdsAll(ns: seq<HikNode>): seq<nat>
  {
    if ns == [] then [] else Ids(ns[0]) + IdsAll(ns[1..])
  }

  /** The numbers `lo`, `lo + 1`, …, `hi - 1`. */
  function Range(lo: nat, hi: nat): (r: seq<nat>)
    requires lo <= hi
    ensures |r| == hi - lo && forall i :: 0 <= i < |r| ==> r[i] == lo + i
    decreases hi - lo
  {
    if lo == hi then [] else [lo] + Range(lo + 1, hi)
  }

  /** `createNode` path rule: only the root, reached with `BASE_PATH`, appends its tag. */
  function NodePath(path: string, tag: string): string
  {
    if path == BASE_PATH then path + "/" + tag else path
  }

  /**
   * `createNode`: one node for `el` (found at `raw` in the document) and,
   * in order, one for each child element. Ids come from a counter starting
   * at `next` and are handed out in pre-order; the second result is the
   * first unused id.
   */
  function CreateNode(capsDoc: Option<Element>, el: Element, raw: Path, path: string,
                      parentTag: Option<string>, next: nat): (r: (HikNode, nat))
    ensures Mirrors(r.0, el, raw, capsDoc)
    ensures PathsAre(r.0, NodePath(path, el.localName))
    ensures r.0.parentTag == parentTag
    ensures next < r.1 && Ids(r.0) == Range(next, r.1)
    decreases el, |el.children| + 1
  {
    var tag := el.localName;
    var currentPath := NodePath(path, tag);
    var children := CreateChildren(capsDoc, el, raw, currentPath, |el.children|, next + 1);
    var node := HikNode(next, tag, LeafText(el), children.0, currentPath,
                        CapabilitiesFor(capsDoc, tag), parentTag, raw);
    assert NodePath(currentPath, tag) == currentPath by {
      if path == BASE_PATH {
        assert |currentPath| > |BASE_PATH|;
      }
    }
    (node, children.1)
  }

  /** One child's node: under `el`, carrying `path`, and mirroring child `k` of `el`. */
  predicate ChildNode(n: HikNode, capsDoc: Option<Element>, el: Element, raw: Path, path: string, k: nat)
    requires k < |el.children|
  {
    n.parentTag == Some(el.localName) && Mirrors(n, el.children[k], raw + [k], capsDoc) && PathsAre(n, path)
  }

  /** `ns` are the nodes for the first `|ns|` children of `el`. */
  predicate ChildNodes(ns: seq<HikNode>, capsDoc: Option<Element>, el: Element, raw: Path, path: string)
  {
    |ns| <= |el.children| && forall k :: 0 <= k < |ns| ==> ChildNode(ns[k], capsDoc, el, raw, path, k)
  }

  lemma ChildNodesSnoc(ns: seq<HikNode>, last: HikNode, capsDoc: Option<Element>, el: Element,
                       raw: Path, path: string)
    requires ChildNodes(ns, capsDoc, el, raw, path) && |ns| < |el.children|
    requires ChildNode(last, capsDoc, el, raw, path, |ns|)
    ensures ChildNodes(ns + [last], capsDoc, el, raw, path)
  {
    var r := ns + [last];
    forall k | 0 <= k < |r| ensures ChildNode(r[k], capsDoc, el, raw, path, k) {
      if k < |ns| {
        assert r[k] == ns[k];
      }
    }
  }

  /** The nodes for the first `n` children of `el`, ids handed out from `next` on. */
  function CreateChildren(capsDoc: Option<Element>, el: Element, raw: Path, path: string,
                          n: nat, next: nat): (r: (seq<HikNode>, nat))
    requires n <= |el.children|
    requires path != BASE_PATH
    ensures |r.0| == n && ChildNodes(r.0, capsDoc, el, raw, path)
    ensures next <= r.1 && IdsAll(r.0) == Range(next, r.1)
    decreases el, n
  {
    if n == 0 then ([], next)
    else
      var init := CreateChildren(capsDoc, el, raw, path, n - 1, next);
      var last := CreateNode(capsDoc, el.children[n - 1], raw + [n - 1], path, Some(el.localName), init.1);
      IdsAllSnoc(init.0, last.0);
      RangeAppend(next, init.1, last.1);
      ChildNodesSnoc(init.0, last.0, capsDoc, el, raw, path);
      (init.0 + [last.0], last.1)
  }

  lemma {:induction false} IdsAllSnoc(ns: seq<HikNode>, last: HikNode)
    ensures IdsAll(ns + [last]) == IdsAll(ns) + Ids(last)
  {
    if ns == [] {
      assert [last][1..] == [];
    } else {
      assert (ns + [last])[1..] == ns[1..] + [last];
      IdsAllSnoc(ns[1..], last);
    }
  }

  lemma RangeAppend(a: nat, b: nat, c: nat)
    requires a <= b <= c
    ensures Range(a, b) + Range(b, c) == Range(a, c)
  {
  }

  /** `buildTree`: a single root node for the document element. */
  function BuildTree(doc: Element, capsDoc: Option<Element>): (r: seq<HikNode>)
    ensures |r| == 1 && Mirrors(r[0], doc, [], capsDoc) && r[0].parentTag.None?
    ensures PathsAre(r[0], BASE_PATH + "/" + doc.localName)
    ensures Ids(r[0]) == Range(0, |Ids(r[0])|)
  {
    [CreateNode(capsDoc, doc, [], BASE_PATH, None, 0).0]
  }

  /** No id occurs twice in the tree. */
  predicate IdsDistinct(n: HikNode) {
    var ids := Ids(n);
    forall i, j :: 0 <= i < j < |ids| ==> ids[i] != ids[j]
  }

  /** The counter hands out every id once: `buildTree`'s ids are unique. */
  lemma BuildTreeIdsDistinct(doc: Element, capsDoc: Option<Element>)
    ensures IdsDistinct(BuildTree(doc, capsDoc)[0])
  {
  }

  /** A freshly built tree has the document's shape and unique ids. */
  lemma BuildTreeFits(doc: Element, capsDoc: Option<Element>)
    ensures |BuildTree(doc, capsDoc)| == 1
    ensures Shaped(BuildTree(doc, capsDoc)[0], doc, []) && IdsDistinct(BuildTree(doc, capsDoc)[0])
  {
    MirrorsIsShaped(BuildTree(doc, capsDoc)[0], doc, [], capsDoc);
  }

  lemma {:induction false} MirrorsIsShaped(n: HikNode, el: Element, raw: Path, capsDoc: Option<Element>)
    requires Mirrors(n, el, raw, capsDoc)
    ensures Shaped(n, el, raw)
  {
    forall k | 0 <= k < |n.children| ensures Shaped(n.children[k], el.children[k], raw + [k]) {
      MirrorsIsShaped(n.children[k], el.children[k], raw + [k], capsDoc);
    }
  }

  // ---------------------------------------------------------------- nodes by position

  predicate ValidNodePath(n: HikNode, p: Path)
    decreases |p|
  {
    p == [] || (p[0] < |n.children| && ValidNodePath(n.children[p[0]], p[1..]))
  }

  function NodeAt(n: HikNode, p: Path): HikNode
    requires ValidNodePath(n, p)
    decreases |p|
  {
    if p == [] then n else NodeAt(n.children[p[0]], p[1..])
  }

  /** The node at a position of a shaped tree stands for the element at the same position. */
  lemma {:induction false} ShapedAt(n: HikNode, el: Element, raw: Path, p: Path)
    requires Shaped(n, el, raw) && ValidNodePath(n, p)
    ensures ValidPath(el, p) && Shaped(NodeAt(n, p), At(el, p), raw + p)
    decreases |p|
  {
    if p == [] {
      assert raw + p == raw;
    } else {
      ShapedAt(n.children[p[0]], el.children[p[0]], raw + [p[0]], p[1..]);
      assert raw + [p[0]] + p[1..] == raw + p;
    }
  }

  /** Every node of a tree carrying `fp` carries `fp`. */
  lemma {:induction false} PathsAreAt(n: HikNode, fp: string, p: Path)
    requires PathsAre(n, fp) && ValidNodePath(n, p)
    ensures NodeAt(n, p).fullPath == fp
    decreases |p|
  {
    if p != [] {
      PathsAreAt(n.children[p[0]], fp, p[1..]);
    }
  }

  /** Everything a node holds apart from its children, and how many children it has. */
  predicate SameNodeHead(a: HikNode, b: HikNode) {
    a.(children := []) == b.(children := []) && |a.children| == |b.children|
  }

  /** Every position of `n` other than `p` is a position of `r` whose node is the same apart from its children. */
  ghost predicate NodesKept(n: HikNode, p: Path, r: HikNode) {
    forall q :: ValidNodePath(n, q) && q != p ==> ValidNodePath(r, q) && SameNodeHead(NodeAt(r, q), NodeAt(n, q))
  }

  /** Putting `c` in place of one child keeps every other position, given that `c` kept all but `p[1..]`. */
  lemma NodesKeptStep(n: HikNode, p: Path, c: HikNode)
    requires p != [] && ValidNodePath(n, p)
    requires NodesKept(n.children[p[0]], p[1..], c)
    ensures NodesKept(n, p, n.(children := n.children[p[0] := c]))
  {
    var k := p[0];
    var r := n.(children := n.children[k := c]);
    forall q | ValidNodePath(n, q) && q != p ensures ValidNodePath(r, q) && SameNodeHead(NodeAt(r, q), NodeAt(n, q)) {
      if q != [] {
        if q[0] != k {
          assert r.children[q[0]] == n.children[q[0]];
        } else {
          assert q[1..] != p[1..] by {
            assert q == [q[0]] + q[1..] && p == [p[0]] + p[1..];
          }
        }
      }
    }
  }

  /**
   * `selectedNode.text = v` on the node at `p`; every other node keeps its
   * text, id, tag, path, capabilities and parent tag.
   */
  function SetNodeText(n: HikNode, p: Path, v: string): (r: HikNode)
    requires ValidNodePath(n, p)
    ensures ValidNodePath(r, p) && NodeAt(r, p) == NodeAt(n, p).(text := v)
    ensures NodesKept(n, p, r)
    ensures r.id == n.id && r.tag == n.tag && r.raw == n.raw && r.parentTag == n.parentTag
    ensures |r.children| == |n.children|
    decreases |p|
  {
    if p == [] then n.(text := v)
    else
      var k := p[0];
      var c := SetNodeText(n.children[k], p[1..], v);
      NodesKeptStep(n, p, c);
      n.(children := n.children[k := c])
  }

  /** Changing a node's text keeps the ids and the shape of the tree. */
  lemma {:induction false} SetNodeTextKeeps(n: HikNode, el: Element, raw: Path, p: Path, v: string)
    requires ValidNodePath(n, p) && Shaped(n, el, raw)
    ensures Shaped(SetNodeText(n, p, v), el, raw)
    ensures Ids(SetNodeText(n, p, v)) == Ids(n)
    decreases |p|
  {
    if p != [] {
      var k := p[0];
      var r := SetNodeText(n, p, v);
      SetNodeTextKeeps(n.children[k], el.children[k], raw + [k], p[1..], v);
      assert r.children == n.children[k := SetNodeText(n.children[k], p[1..], v)];
      IdsAllPointwise(r.children, n.children);
    }
  }

  lemma {:induction false} IdsAllPointwise(a: seq<HikNode>, b: seq<HikNode>)
    requires |a| == |b| && forall k :: 0 <= k < |a| ==> Ids(a[k]) == Ids(b[k])
    ensures IdsAll(a) == IdsAll(b)
  {
    if a != [] {
      IdsAllPointwise(a[1..], b[1..]);
    }
  }

  /** A tree keeps its shape against a document whose shape did not change. */
  lemma {:induction false} ShapedSameShape(n: HikNode, a: Element, b: Element, raw: Path)
    requires Shaped(n, a, raw) && SameShape(a, b)
    ensures Shaped(n, b, raw)
  {
    forall k | 0 <= k < |n.children| ensures Shaped(n.children[k], b.children[k], raw + [k]) {
      ShapedSameShape(n.children[k], a.children[k], b.children[k], raw + [k]);
    }
  }

  // ---------------------------------------------------------------- findModuleElement

  /** `root.children.find(c => c.tag === name)`. */
  function FindChild(cs: seq<HikNode>, name: string): (r: Option<nat>)
    ensures r.Some? ==> (r.value < |cs| && cs[r.value].tag == name &&
      forall j :: 0 <= j < r.value ==> cs[j].tag != name)
    ensures r.None? ==> forall j :: 0 <= j < |cs| ==> cs[j].tag != name
  {
    if cs == [] then None
    else if cs[0].tag == name then Some(0)
    else
      var r := FindChild(cs[1..], name);
      if r.Some? then Some(r.value + 1) else None
  }

  /** The module a node is edited in: its name and the position of its element. */
  datatype Module = Module(name: string, raw: Path)

  /**
   * `findModuleElement`: the root for the root node; otherwise segment 5 of
   * the node's `fullPath` (or the node's own tag when that segment is
   * missing or empty) names a direct child of the root, and the root is the
   * fallback.
   */
  function FindModuleElement(root: HikNode, node: HikNode): (r: Module)
    ensures node.id == root.id ==> r == Module(root.tag, root.raw)
    ensures r == Module(root.tag, root.raw) ||
      (exists k :: 0 <= k < |root.children| && r == Module(root.children[k].tag, root.children[k].raw))
  {
    if node.id == root.id then Module(root.tag, root.raw)
    else
      var parts := SplitAny(node.fullPath, {'/'});
      var moduleName := if |parts| > 5 && parts[5] != [] then parts[5] else node.tag;
      match FindChild(root.children, moduleName)
      case Some(k) => Module(root.children[k].tag, root.children[k].raw)
      case None => Module(root.tag, root.raw)
  }

  /** A character that is no separator joins the first part. */
  lemma SplitAnyCons(x: char, s: string, seps: set<char>)
    requires x !in seps
    ensures SplitAny([x] + s, seps) == [[x] + SplitAny(s, seps)[0]] + SplitAny(s, seps)[1..]
  {
    assert ([x] + s)[1..] == s;
  }

  /** Cutting at a separator: the parts before it, then the parts after it. */
  lemma {:induction false} SplitAnyAtSeparator(a: string, c: char, b: string, seps: set<char>)
    requires c in seps
    ensures SplitAny(a + [c] + b, seps) == SplitAny(a, seps) + SplitAny(b, seps)
    decreases |a|
  {
    if a == [] {
      assert a + [c] + b == [c] + b;
      assert ([c] + b)[1..] == b;
    } else if a[0] in seps {
      assert (a + [c] + b)[1..] == a[1..] + [c] + b;
      SplitAnyAtSeparator(a[1..], c, b, seps);
    } else {
      var t := a[1..] + [c] + b;
      assert a + [c] + b == [a[0]] + t;
      assert a == [a[0]] + a[1..];
      SplitAnyAtSeparator(a[1..], c, b, seps);
      SplitAnyCons(a[0], t, seps);
      SplitAnyCons(a[0], a[1..], seps);
      PrependToFirst([a[0]], SplitAny(a[1..], seps), SplitAny(b, seps));
    }
  }

  /** Extending the first of a list of parts, before or after appending more parts. */
  lemma PrependToFirst(x: string, head: seq<string>, rest: seq<string>)
    requires head != []
    ensures [x + (head + rest)[0]] + (head + rest)[1..] == [x + head[0]] + head[1..] + rest
  {
    assert (head + rest)[1..] == head[1..] + rest;
  }

  lemma {:induction false} SplitAnyNone(s: string, seps: set<char>)
    requires NoneIn(s, seps)
    ensures SplitAny(s, seps) == [s]
  {
    if s != [] {
      assert s[0] !in seps;
      assert NoneIn(s[1..], seps) by {
        forall i | 0 <= i < |s| - 1 ensures s[1..][i] !in seps {
          assert s[1..][i] == s[i + 1];
        }
      }
      SplitAnyNone(s[1..], seps);
      assert [s[0]] + s[1..] == s;
    }
  }

  /** `/w1/w2/…`: each segment after a slash. */
  function JoinPath(ws: seq<string>): string
  {
    if ws == [] then "" else "/" + ws[0] + JoinPath(ws[1..])
  }

  /** The segments of `BASE_PATH`. */
  lemma BasePathJoined()
    ensures JoinPath(["ISAPI", "Image", "channels", "1"]) == BASE_PATH
  {
  }

  lemma SplitAfterSlash(y: string)
    ensures SplitAny("/" + y, {'/'}) == [""] + SplitAny(y, {'/'})
  {
    assert "/" + y == "" + ['/'] + y;
    SplitAnyAtSeparator("", '/', y, {'/'});
  }

  lemma SplitWordSlash(w: string, y: string)
    requires NoneIn(w, {'/'})
    ensures SplitAny(w + "/" + y, {'/'}) == [w] + SplitAny(y, {'/'})
  {
    assert w + "/" + y == w + ['/'] + y;
    SplitAnyAtSeparator(w, '/', y, {'/'});
    SplitAnyNone(w, {'/'});
  }

  /** Splitting `/w1/…/wn/t` on `/`: an empty segment, the `wi`, then `t`. */
  lemma {:induction false} SplitJoinedPath(ws: seq<string>, t: string)
    requires forall k :: 0 <= k < |ws| ==> NoneIn(ws[k], {'/'})
    requires NoneIn(t, {'/'})
    ensures SplitAny(JoinPath(ws) + "/" + t, {'/'}) == [""] + ws + [t]
  {
    if ws == [] {
      assert JoinPath(ws) + "/" + t == "/" + t;
      SplitAfterSlash(t);
      SplitAnyNone(t, {'/'});
    } else {
      SplitJoinedPath(ws[1..], t);
      SplitJoinedCons(ws, t);
    }
  }

  /** The induction step of `SplitJoinedPath`: the first word in front of the rest. */
  lemma SplitJoinedCons(ws: seq<string>, t: string)
    requires ws != [] && NoneIn(ws[0], {'/'})
    requires SplitAny(JoinPath(ws[1..]) + "/" + t, {'/'}) == [""] + ws[1..] + [t]
    ensures SplitAny(JoinPath(ws) + "/" + t, {'/'}) == [""] + ws + [t]
  {
    var z := (JoinPath(ws[1..]) + "/" + t)[1..];
    JoinedStartsWithSlash(ws[1..], t);
    Associative([""], ws[1..], [t]);
    SplitJoinedStep(ws[0], z, ws[1..] + [t]);
    JoinPathCons(ws, t);
    ConsParts(ws, t);
  }

  lemma JoinPathCons(ws: seq<string>, t: string)
    requires ws != []
    ensures JoinPath(ws) + "/" + t == "/" + (ws[0] + "/" + (JoinPath(ws[1..]) + "/" + t)[1..])
  {
    var y := JoinPath(ws[1..]) + "/" + t;
    var z := y[1..];
    JoinedStartsWithSlash(ws[1..], t);
    assert JoinPath(ws) == "/" + ws[0] + JoinPath(ws[1..]);
    Associative("/" + ws[0], JoinPath(ws[1..]), "/" + t);
    Associative("/", ws[0], y);
    Associative(ws[0], "/", z);
  }

  lemma ConsParts(ws: seq<string>, t: string)
    requires ws != []
    ensures [""] + ([ws[0]] + (ws[1..] + [t])) == [""] + ws + [t]
  {
    assert ws == [ws[0]] + ws[1..];
    Associative([""], ws, [t]);
    Associative([ws[0]], ws[1..], [t]);
  }

  /** Concatenation is associative. */
  lemma Associative<T>(a: seq<T>, b: seq<T>, c: seq<T>)
    ensures a + b + c == a + (b + c)
  {
  }

  /** One more word in front: `/w/z` splits into an empty part, `w`, then the parts of `z`. */
  lemma SplitJoinedStep(w: string, z: string, rest: seq<string>)
    requires NoneIn(w, {'/'}) && SplitAny("/" + z, {'/'}) == [""] + rest
    ensures SplitAny("/" + (w + "/" + z), {'/'}) == [""] + ([w] + rest)
  {
    SplitAfterSlash(z);
    assert SplitAny(z, {'/'}) == rest by {
      assert ([""] + SplitAny(z, {'/'}))[1..] == SplitAny(z, {'/'});
      assert ([""] + rest)[1..] == rest;
    }
    SplitWordSlash(w, z);
    SplitAfterSlash(w + "/" + z);
  }

  /** A joined path followed by `/t` starts with its slash. */
  lemma JoinedStartsWithSlash(ws: seq<string>, t: string)
    ensures var y := JoinPath(ws) + "/" + t; |y| >= 1 && y == "/" + y[1..]
  {
    var y := JoinPath(ws) + "/" + t;
    if ws != [] {
      assert JoinPath(ws) == "/" + ws[0] + JoinPath(ws[1..]);
    }
    assert y[0] == '/';
  }

  /** Segment 5 of `BASE_PATH/<t>` is `t`, for a tag without `/`. */
  lemma BasePathSegments(t: string)
    requires NoneIn(t, {'/'})
    ensures var parts := SplitAny(BASE_PATH + "/" + t, {'/'}); |parts| == 6 && parts[5] == t
  {
    var ws := ["ISAPI", "Image", "channels", "1"];
    BasePathJoined();
    forall k | 0 <= k < |ws| ensures NoneIn(ws[k], {'/'}) {
    }
    SplitJoinedPath(ws, t);
  }

  /**
   * Because every node carries the root's path, module resolution can only
   * land on the root or on a direct child named like the root: a node
   * resolves to the first child of the root whose tag is the root's own tag,
   * and to the root itself when there is none.
   */
  lemma ModuleIsRootUnlessSelfNamedChild(root: HikNode, p: Path)
    requires ValidNodePath(root, p)
    requires PathsAre(root, BASE_PATH + "/" + root.tag)
    requires root.tag != [] && NoneIn(root.tag, {'/'})
    ensures var r := FindModuleElement(root, NodeAt(root, p));
      match FindChild(root.children, root.tag)
      case None => r == Module(root.tag, root.raw)
      case Some(k) => r == Module(root.tag, root.children[k].raw) || NodeAt(root, p).id == root.id
  {
    PathsAreAt(root, BASE_PATH + "/" + root.tag, p);
    BasePathSegments(root.tag);
  }

  /** `BASE_PATH` for the root module, `BASE_PATH/<name>` for any other. */
  function RequestPath(name: string, rootTag: string): (r: string)
    ensures name == rootTag ==> r == BASE_PATH
    ensures name != rootTag ==> r == BASE_PATH + "/" + name
  {
    BASE_PATH + (if name == rootTag then "" else "/" + name)
  }

  // ---------------------------------------------------------------- Loxone placeholder

  /** The two characters `\v` that a Loxone dimmer replaces by its value. */
  const PLACEHOLDER: string := ['\\', 'v']

  function ValueTag(tag: string, value: string): string
  {
    "<" + tag + ">" + value + "</" + tag + ">"
  }

  /**
   * For a parameter with a range, the first `<tag>edit</tag>` of the body
   * becomes `<tag>\v</tag>` and the command is marked as a dimmer command;
   * otherwise the body is kept and it is not.
   */
  function SubstitutePlaceholder(body: string, tag: string, edit: string, hasMin: bool): (r: (string, bool))
    ensures r.1 <==> hasMin && Contains(body, ValueTag(tag, edit))
    ensures !r.1 ==> r.0 == body
  {
    var pattern := ValueTag(tag, edit);
    if hasMin && Contains(body, pattern) then
      (ReplaceFirst(Literal(pattern, ValueTag(tag, PLACEHOLDER)), body), true)
    else (body, false)
  }

  /** A dimmer body is the original with its first `<tag>edit</tag>` spliced out for `<tag>\v</tag>`. */
  lemma DimmerBodySplice(body: string, tag: string, edit: string)
    requires Contains(body, ValueTag(tag, edit))
    ensures var m := Literal(ValueTag(tag, edit), ValueTag(tag, PLACEHOLDER));
      var i := FirstHit(m, body);
      i.Some? && OccursAt(body, ValueTag(tag, edit), i.value) &&
      SubstitutePlaceholder(body, tag, edit, true).0 ==
        body[..i.value] + ValueTag(tag, PLACEHOLDER) + body[i.value + |ValueTag(tag, edit)|..]
  {
    var pat := ValueTag(tag, edit);
    var repl := ValueTag(tag, PLACEHOLDER);
    var m := Literal(pat, repl);
    assert pat != [] by { assert pat[0] == '<'; }
    LiteralHitIffContains(pat, repl, body);
    var f := FirstHit(m, body);
    assert f.Some?;
    var i := f.value;
    ReplaceFirstSplice(m, body);
    LiteralHitAt(pat, repl, body, i);
    assert m(body[i..]) == Some(Hit(|pat|, repl));
    assert SubstitutePlaceholder(body, tag, edit, true).0 == ReplaceFirst(m, body);
  }

  // ---------------------------------------------------------------- the root check

  lemma {:induction false} IdInChildren(cs: seq<HikNode>, k: nat, x: nat)
    requires k < |cs| && x in Ids(cs[k])
    ensures x in IdsAll(cs)
  {
    if k > 0 {
      IdInChildren(cs[1..], k - 1, x);
    }
  }

  lemma {:induction false} IdInTree(n: HikNode, p: Path)
    requires ValidNodePath(n, p)
    ensures NodeAt(n, p).id in Ids(n)
    ensures p != [] ==> NodeAt(n, p).id in IdsAll(n.children)
    decreases |p|
  {
    if p != [] {
      IdInTree(n.children[p[0]], p[1..]);
      IdInChildren(n.children, p[0], NodeAt(n, p).id);
    }
  }

  /**
   * The handlers recognise the root by its id; with unique ids that is the
   * same as the selected node sitting at the top of the tree.
   */
  lemma RootCheckIsPosition(root: HikNode, p: Path)
    requires IdsDistinct(root) && ValidNodePath(root, p)
    ensures NodeAt(root, p).id == root.id <==> p == []
  {
    if p != [] {
      IdInTree(root, p);
      var ids := Ids(root);
      var below := IdsAll(root.children);
      forall j | 0 <= j < |below| ensures below[j] != root.id {
        assert ids[j + 1] == below[j] && ids[0] == root.id;
        assert ids[0] != ids[j + 1];
      }
    }
  }

  /** The node at a position stands for the element at that position of the document. */
  lemma ShapedRawIsPosition(root: HikNode, doc: Element, p: Path)
    requires Shaped(root, doc, []) && ValidNodePath(root, p)
    ensures NodeAt(root, p).raw == p && ValidPath(doc, p)
    ensures |NodeAt(root, p).children| == |At(doc, p).children|
  {
    ShapedAt(root, doc, [], p);
    assert [] + p == p;
  }

  // ---------------------------------------------------------------- editing through a node's element

  /** The document after `rawElement.textContent = edit` on the element at `raw`. */
  function EditedDocument(doc: Element, raw: Path, edit: string): (r: Element)
    requires ValidPath(doc, raw)
    ensures ValidPath(r, raw) && TextContent(At(r, raw)) == edit && At(r, raw).IsLeaf()
    ensures var a := At(r, raw); var b := At(doc, raw);
      a.prefix == b.prefix && a.localName == b.localName && a.attrs == b.attrs
    ensures OnlyBelow(doc, raw, r)
    ensures raw != [] ==> |r.children| == |doc.children|
  {
    Replace(doc, raw, SetTextContent(At(doc, raw), edit))
  }

  /** Writing a leaf's old `textContent` back gives exactly the document from before the edit. */
  lemma EditThenRestore(doc: Element, raw: Path, edit: string)
    requires ValidPath(doc, raw) && At(doc, raw).IsLeaf()
    ensures EditedDocument(EditedDocument(doc, raw, edit), raw, TextContent(At(doc, raw))) == doc
  {
    var e := At(doc, raw);
    var edited := SetTextContent(e, edit);
    ReplaceTwice(doc, raw, edited, SetTextContent(edited, TextContent(e)));
    RestoreLeaf(e, edit);
    ReplaceAtSelf(doc, raw);
  }

  /** Editing a leaf keeps the shape of the document. */
  lemma EditKeepsShape(doc: Element, raw: Path, edit: string)
    requires ValidPath(doc, raw) && At(doc, raw).IsLeaf()
    ensures SameShape(doc, EditedDocument(doc, raw, edit))
  {
    ReplaceLeafKeepsShape(doc, raw, SetTextContent(At(doc, raw), edit));
    SameShapeSym(EditedDocument(doc, raw, edit), doc);
  }

  /** The module element of a non-root node is still in the document after the node's edit. */
  lemma ModuleInDocument(doc: Element, root: HikNode, p: Path, edit: string)
    requires Shaped(root, doc, []) && IdsDistinct(root) && ValidNodePath(root, p) && p != []
    ensures NodeAt(root, p).raw == p && ValidPath(doc, p) && NodeAt(root, p).id != root.id
    ensures ValidPath(EditedDocument(doc, p, edit), FindModuleElement(root, NodeAt(root, p)).raw)
  {
    ShapedRawIsPosition(root, doc, p);
    RootCheckIsPosition(root, p);
    var m := FindModuleElement(root, NodeAt(root, p));
    if m != Module(root.tag, root.raw) {
      var k :| 0 <= k < |root.children| && m == Module(root.children[k].tag, root.children[k].raw);
      assert root.children[k].raw == [k];
    }
  }

  /** `cleanXmlElement` of the module holding the node at `p`, once the node's element reads `edit`. */
  function ModulePayload(doc: Element, root: HikNode, p: Path, edit: string, serialize: Element -> string): string
    requires Shaped(root, doc, []) && IdsDistinct(root) && ValidNodePath(root, p) && p != []
  {
    ModuleInDocument(doc, root, p, edit);
    var m := FindModuleElement(root, NodeAt(root, p));
    StripDeclarations(StripPrefixes(serialize(NsStripped(At(EditedDocument(doc, p, edit), m.raw)))))
  }

  /** The node's capabilities carry a `min`: the editor shows a slider. */
  predicate HasRange(n: HikNode) {
    n.capabilities.Some? && n.capabilities.value.min.Some?
  }

  /**
   * `handleShowLoxone`'s command for the node at `p` with value `edit`: the
   * camera address with credentials, the module's request path, and the
   * module's cleaned XML with the value turned into the dimmer placeholder
   * when the parameter has a range.
   */
  function LoxoneCommand(doc: Element, root: HikNode, p: Path, edit: string, serialize: Element -> string,
                         user: string, pass: string, ip: string): (r: LoxoneConfig)
    requires Shaped(root, doc, []) && IdsDistinct(root) && ValidNodePath(root, p) && p != []
    ensures r.address == "http://" + user + ":" + pass + "@" + ip
    ensures r.instruction == RequestPath(FindModuleElement(root, NodeAt(root, p)).name, root.tag)
    ensures r.instruction == BASE_PATH ||
      (exists k :: 0 <= k < |root.children| && r.instruction == BASE_PATH + "/" + root.children[k].tag)
    ensures r.isDimmer <==>
      HasRange(NodeAt(root, p)) && Contains(ModulePayload(doc, root, p, edit, serialize), ValueTag(NodeAt(root, p).tag, edit))
    ensures !r.isDimmer ==> r.body == ModulePayload(doc, root, p, edit, serialize)
    ensures r.isDimmer ==> r.body == SubstitutePlaceholder(ModulePayload(doc, root, p, edit, serialize),
                                                          NodeAt(root, p).tag, edit, true).0
  {
    ModuleInDocument(doc, root, p, edit);
    var node := NodeAt(root, p);
    var m := FindModuleElement(root, node);
    var sub := SubstitutePlaceholder(ModulePayload(doc, root, p, edit, serialize), node.tag, edit, HasRange(node));
    LoxoneConfig("http://" + user + ":" + pass + "@" + ip, RequestPath(m.name, root.tag), sub.0, sub.1)
  }

  /** `LoxoneCommand` assembled from the payload after the placeholder step. */
  lemma LoxoneCommandFrom(doc: Element, root: HikNode, p: Path, edit: string, serialize: Element -> string,
                          user: string, pass: string, ip: string, body: string, isDimmer: bool)
    requires Shaped(root, doc, []) && IdsDistinct(root) && ValidNodePath(root, p) && p != []
    requires (body, isDimmer) == SubstitutePlaceholder(ModulePayload(doc, root, p, edit, serialize),
                                                       NodeAt(root, p).tag, edit, HasRange(NodeAt(root, p)))
    ensures LoxoneCommand(doc, root, p, edit, serialize, user, pass, ip) ==
      LoxoneConfig("http://" + user + ":" + pass + "@" + ip,
                   RequestPath(FindModuleElement(root, NodeAt(root, p)).name, root.tag), body, isDimmer)
  {
  }

  /** The request `handlePut` sends: the module's URL and its cleaned XML. */
  datatype PutRequest = PutRequest(url: string, body: string)

  function PutCommand(doc: Element, root: HikNode, p: Path, edit: string, serialize: Element -> string,
                      prod: bool, ip: string): (r: PutRequest)
    requires Shaped(root, doc, []) && IdsDistinct(root) && ValidNodePath(root, p) && p != []
    ensures r.url == GetSafeUrl(prod, ip, RequestPath(FindModuleElement(root, NodeAt(root, p)).name, root.tag))
    ensures r.body == ModulePayload(doc, root, p, edit, serialize)
    ensures !prod ==> HasHttpScheme(r.url)
  {
    ModuleInDocument(doc, root, p, edit);
    var m := FindModuleElement(root, NodeAt(root, p));
    SafeUrlShape(ip, RequestPath(m.name, root.tag));
    PutRequest(GetSafeUrl(prod, ip, RequestPath(m.name, root.tag)), ModulePayload(doc, root, p, edit, serialize))
  }

  /**
   * The two handlers agree: the camera is written at the path the Loxone
   * command uses, and the Loxone body is the written body, with the value
   * replaced by the placeholder for a dimmer.
   */
  lemma PutAndLoxoneAgree(doc: Element, root: HikNode, p: Path, edit: string, serialize: Element -> string,
                          prod: bool, user: string, pass: string, ip: string)
    requires Shaped(root, doc, []) && IdsDistinct(root) && ValidNodePath(root, p) && p != []
    ensures var put := PutCommand(doc, root, p, edit, serialize, prod, ip);
      var lox := LoxoneCommand(doc, root, p, edit, serialize, user, pass, ip);
      put.url == GetSafeUrl(prod, ip, lox.instruction) &&
      lox.body == SubstitutePlaceholder(put.body, NodeAt(root, p).tag, edit, HasRange(NodeAt(root, p))).0
  {
  }

  /** An element name as a parsed document has it: not empty and without `/`. */
  predicate PlainName(t: string) {
    t != [] && NoneIn(t, {'/'})
  }

  /**
   * In a tree built by `buildTree` every node carries `BASE_PATH/<root>`,
   * so every node resolves to a module named like the root: the PUT always
   * goes to `BASE_PATH` and the Loxone instruction is always `BASE_PATH`,
   * whichever parameter is selected.
   */
  lemma CommandsUseBasePath(doc: Element, root: HikNode, p: Path, edit: string, serialize: Element -> string,
                            prod: bool, user: string, pass: string, ip: string)
    requires Shaped(root, doc, []) && IdsDistinct(root) && ValidNodePath(root, p) && p != []
    requires PathsAre(root, BASE_PATH + "/" + root.tag) && PlainName(root.tag)
    ensures FindModuleElement(root, NodeAt(root, p)).name == root.tag
    ensures PutCommand(doc, root, p, edit, serialize, prod, ip).url == GetSafeUrl(prod, ip, BASE_PATH)
    ensures LoxoneCommand(doc, root, p, edit, serialize, user, pass, ip).instruction == BASE_PATH
  {
    RootCheckIsPosition(root, p);
    ModuleIsRootUnlessSelfNamedChild(root, p);
    match FindChild(root.children, root.tag)
    case None =>
    case Some(k) =>
  }

  /** Giving a node a new text keeps every node's path. */
  lemma {:induction false} SetNodeTextKeepsPaths(n: HikNode, fp: string, p: Path, v: string)
    requires ValidNodePath(n, p) && PathsAre(n, fp)
    ensures PathsAre(SetNodeText(n, p, v), fp)
    decreases |p|
  {
    if p != [] {
      var k := p[0];
      SetNodeTextKeepsPaths(n.children[k], fp, p[1..], v);
      var r := SetNodeText(n, p, v);
      assert r.children == n.children[k := SetNodeText(n.children[k], p[1..], v)];
    }
  }

  /** After a successful PUT the tree, with the node's new text, still fits the edited document. */
  lemma PutKeepsTree(root: HikNode, doc: Element, p: Path, v: string)
    requires Shaped(root, doc, []) && IdsDistinct(root) && ValidNodePath(root, p)
    requires NodeAt(root, p).children == []
    ensures ValidPath(doc, p) && At(doc, p).IsLeaf()
    ensures var r := SetNodeText(root, p, v);
      Shaped(r, EditedDocument(doc, p, v), []) && IdsDistinct(r) && ValidNodePath(r, p) && NodeAt(r, p).children == []
  {
    ShapedRawIsPosition(root, doc, p);
    var r := SetNodeText(root, p, v);
    SetNodeTextKeeps(root, doc, [], p, v);
    EditKeepsShape(doc, p, v);
    ShapedSameShape(r, doc, EditedDocument(doc, p, v), []);
  }
}
