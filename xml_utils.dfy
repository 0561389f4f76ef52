/**
 * The web front end's XML helpers: namespace-free serialisation of an
 * element (`cleanXmlElement`) and the reading of a capability element
 * (`parseCapabilities`).
 *
 * The browser's `XMLSerializer` is a parameter: whatever text it produces
 * for the cleaned copy is what the two regular-expression passes rewrite.
 */
module XmlUtils {
  import opened Wrappers
  import opened Strings
  import opened Scan
  import opened Dom
  import opened Types

  // ---------------------------------------------------------------- removing xmlns attributes

  predicate IsXmlnsName(name: string) {
    StartsWith(name, "xmlns")
  }

  /** The attributes whose name does not start with `xmlns`, in their original order. */
  function WithoutXmlns(attrs: seq<Attr>): (r: seq<Attr>)
    ensures forall a :: a in r <==> a in attrs && !IsXmlnsName(a.name)
    ensures |r| <= |attrs|
  {
    if attrs == [] then []
    else if IsXmlnsName(attrs[0].name) then WithoutXmlns(attrs[1..])
    else [attrs[0]] + WithoutXmlns(attrs[1..])
  }

  /** Filtering a concatenation filters each part and keeps them in order. */
  lemma {:induction false} WithoutXmlnsAppend(a: seq<Attr>, b: seq<Attr>)
    ensures WithoutXmlns(a + b) == WithoutXmlns(a) + WithoutXmlns(b)
    decreases |a|
  {
    if a == [] {
      assert a + b == b;
    } else {
      assert (a + b)[1..] == a[1..] + b;
      WithoutXmlnsAppend(a[1..], b);
    }
  }

  lemma WithoutXmlnsSnoc(attrs: seq<Attr>, i: nat)
    requires i < |attrs|
    ensures WithoutXmlns(attrs[..i + 1]) ==
      WithoutXmlns(attrs[..i]) + (if IsXmlnsName(attrs[i].name) then [] else [attrs[i]])
  {
    WithoutXmlnsAppend(attrs[..i], [attrs[i]]);
    assert attrs[..i + 1] == attrs[..i] + [attrs[i]];
  }

  /** The element as `removeNamespaces` leaves its copy: every `xmlns*` attribute gone, at every depth. */
  function NsStripped(e: Element): (r: Element)
    ensures r.prefix == e.prefix && r.localName == e.localName && r.text == e.text
    ensures r.attrs == WithoutXmlns(e.attrs)
    ensures |r.children| == |e.children|
  {
    e.(attrs := WithoutXmlns(e.attrs), children := NsStrippedAll(e.children))
  }

  function NsStrippedAll(cs: seq<Element>): (r: seq<Element>)
    ensures |r| == |cs| && forall k :: 0 <= k < |cs| ==> r[k] == NsStripped(cs[k])
  {
    if cs == [] then [] else [NsStripped(cs[0])] + NsStrippedAll(cs[1..])
  }

  /** The attribute loop of `removeNamespaces`: every `xmlns*` attribute removed, the rest kept in order. */
  method KeepNonXmlns(attrs: seq<Attr>) returns (kept: seq<Attr>)
    ensures kept == WithoutXmlns(attrs)
  {
    kept := [];
    var i := 0;
    while i < |attrs|
      invariant 0 <= i <= |attrs|
      invariant kept == WithoutXmlns(attrs[..i])
    {
      WithoutXmlnsSnoc(attrs, i);
      if !IsXmlnsName(attrs[i].name) {
        kept := kept + [attrs[i]];
      }
      i := i + 1;
    }
    assert attrs[..i] == attrs;
  }

  /** A list stripped child by child is the stripped list. */
  lemma NsStrippedAllPointwise(cs: seq<Element>, r: seq<Element>)
    requires |r| == |cs| && forall j :: 0 <= j < |cs| ==> r[j] == NsStripped(cs[j])
    ensures r == NsStrippedAll(cs)
  {
  }

  /**
   * `removeNamespaces` on the deep copy: drops the `xmlns*` attributes of
   * the element, then treats every child element the same way.
   */
  method RemoveNamespaces(e: Element) returns (r: Element)
    ensures r == NsStripped(e)
    decreases e, 1
  {
    var kept := KeepNonXmlns(e.attrs);
    var children := RemoveNamespacesAll(e, e.children);
    r := e.(attrs := kept, children := children);
  }

  /** The child loop of `removeNamespaces`: each child of `parent` stripped in turn. */
  method RemoveNamespacesAll(ghost parent: Element, cs: seq<Element>) returns (r: seq<Element>)
    requires cs == parent.children
    ensures r == NsStrippedAll(cs)
    decreases parent, 0
  {
    r := [];
    var k := 0;
    while k < |cs|
      invariant 0 <= k <= |cs|
      invariant |r| == k
      invariant forall j :: 0 <= j < k ==> r[j] == NsStripped(cs[j])
    {
      var c := RemoveNamespaces(cs[k]);
      r := r + [c];
      k := k + 1;
    }
    NsStrippedAllPointwise(cs, r);
  }

  /** No attribute anywhere in the tree is a namespace declaration. */
  predicate NoXmlns(e: Element) {
    (forall a :: a in e.attrs ==> !IsXmlnsName(a.name)) &&
    forall k :: 0 <= k < |e.children| ==> NoXmlns(e.children[k])
  }

  /** After `removeNamespaces` no declaration is left at any depth. */
  lemma {:induction false} NsStrippedHasNoXmlns(e: Element)
    ensures NoXmlns(NsStripped(e))
  {
    forall k | 0 <= k < |e.children| ensures NoXmlns(NsStripped(e).children[k]) {
      NsStrippedHasNoXmlns(e.children[k]);
    }
  }

  lemma {:induction false} WithoutXmlnsOfClean(attrs: seq<Attr>)
    requires forall a :: a in attrs ==> !IsXmlnsName(a.name)
    ensures WithoutXmlns(attrs) == attrs
  {
    if attrs != [] {
      assert attrs[0] in attrs;
      assert forall a :: a in attrs[1..] ==> a in attrs;
      WithoutXmlnsOfClean(attrs[1..]);
    }
  }

  /** `removeNamespaces` changes a tree exactly when some declaration is in it. */
  lemma {:induction false} NsStrippedUnchangedIff(e: Element)
    ensures NsStripped(e) == e <==> NoXmlns(e)
  {
    if NoXmlns(e) {
      WithoutXmlnsOfClean(e.attrs);
      forall k | 0 <= k < |e.children| ensures NsStripped(e.children[k]) == e.children[k] {
        NsStrippedUnchangedIff(e.children[k]);
      }
      assert NsStrippedAll(e.children) == e.children;
    } else if NsStripped(e) == e {
      NsStrippedHasNoXmlns(e);
    }
  }

  /** Running `removeNamespaces` twice is running it once. */
  lemma NsStrippedIdempotent(e: Element)
    ensures NsStripped(NsStripped(e)) == NsStripped(e)
  {
    NsStrippedHasNoXmlns(e);
    NsStrippedUnchangedIff(NsStripped(e));
  }

  /** Only attributes go: names, child order and all character data stay as they were. */
  lemma {:induction false} NsStrippedKeepsTree(e: Element)
    ensures SameShape(NsStripped(e), e)
    ensures TextContent(NsStripped(e)) == TextContent(e)
  {
    var r := NsStripped(e);
    forall k | 0 <= k < |e.children|
      ensures SameShape(r.children[k], e.children[k])
      ensures TextContent(r.children[k]) == TextContent(e.children[k])
    {
      NsStrippedKeepsTree(e.children[k]);
    }
    ChildrenTextPointwise(r.children, e.children);
  }

  lemma {:induction false} ChildrenTextPointwise(a: seq<Element>, b: seq<Element>)
    requires |a| == |b| && forall k :: 0 <= k < |a| ==> TextContent(a[k]) == TextContent(b[k])
    ensures ChildrenText(a) == ChildrenText(b)
  {
    if a != [] {
      ChildrenTextPointwise(a[1..], b[1..]);
    }
  }

  // ---------------------------------------------------------------- the prefix pass

  /**
   * `/<\/?\w+:(\w+)/` at the start of `t`, replaced by `<` or `</` (the
   * slash kept exactly when the match began with `</`) and the captured
   * local name.
   */
  function PrefixedTagAt(t: string): Option<Hit>
  {
    if |t| < 2 || t[0] != '<' then None
    else
      var j := if t[1] == '/' then 2 else 1;
      QualifiedNameAt(t[..j], t[j..])
  }

  /** `\w+:(\w+)` at the start of `u`, after the already matched `open`; replaced by `open` and the captured name. */
  function QualifiedNameAt(open: string, u: string): Option<Hit>
  {
    var a := WordRun(u);
    if a == 0 || a >= |u| || u[a] != ':' then None
    else
      var b := WordRun(u[a + 1..]);
      if b == 0 then None
      else Some(Hit(|open| + a + 1 + b, open + u[a + 1..a + 1 + b]))
  }

  function StripPrefixes(s: string): string
  {
    ReplaceAll(PrefixedTagAt, s)
  }

  lemma PrefixedTagShrinks()
    ensures Shrinking(PrefixedTagAt)
  {
  }

  /** The opening of a start tag (`<`) or of an end tag (`</`). */
  function Opening(closing: bool): string
  {
    if closing then "</" else "<"
  }

  /** `<p:Name` or `</p:Name`. */
  function PrefixedOpening(closing: bool, p: string, n: string): string
  {
    Opening(closing) + p + ":" + n
  }

  /** `<Name` or `</Name`. */
  function PlainOpening(closing: bool, n: string): string
  {
    Opening(closing) + n
  }

  /** The pattern's match on `<p:Name` or `</p:Name`: the whole opening, replaced by `<Name` or `</Name`. */
  lemma QualifiedNameAtRule(open: string, p: string, n: string, rest: string)
    requires IsWord(p) && IsWord(n)
    requires rest == [] || !IsWordChar(rest[0])
    ensures QualifiedNameAt(open, p + ":" + n + rest) == Some(Hit(|open| + |p| + 1 + |n|, open + n))
  {
    var u := p + ":" + n + rest;
    assert u == p + (":" + n + rest);
    WordRunOfWord(p, ":" + n + rest);
    assert u[|p|] == ':';
    assert u[|p| + 1..] == n + rest;
    WordRunOfWord(n, rest);
    assert u[|p| + 1..|p| + 1 + |n|] == n;
  }

  lemma PrefixedTagAtRule(closing: bool, p: string, n: string, rest: string)
    requires IsWord(p) && IsWord(n)
    requires rest == [] || !IsWordChar(rest[0])
    ensures var o := Opening(closing);
      PrefixedTagAt(o + p + ":" + n + rest) == Some(Hit(|o| + |p| + 1 + |n|, o + n))
  {
    var o := Opening(closing);
    var body := p + ":" + n + rest;
    var t := o + body;
    assert t == o + p + ":" + n + rest;
    assert t[..|o|] == o && t[|o|..] == body;
    assert t[1] == '/' <==> closing by {
      if !closing {
        assert t[1] == p[0];
      }
    }
    QualifiedNameAtRule(o, p, n, rest);
  }

  /**
   * `<p:Name` becomes `<Name` and `</p:Name` becomes `</Name`; scanning
   * goes on right after the name.
   */
  lemma StripPrefixesRule(closing: bool, p: string, n: string, rest: string)
    requires IsWord(p) && IsWord(n)
    requires rest == [] || !IsWordChar(rest[0])
    ensures StripPrefixes(PrefixedOpening(closing, p, n) + rest) == PlainOpening(closing, n) + StripPrefixes(rest)
  {
    var o := Opening(closing);
    var t := o + p + ":" + n + rest;
    PrefixedTagAtRule(closing, p, n, rest);
    var len := |o| + |p| + 1 + |n|;
    assert t[len..] == rest;
    assert HitAt(PrefixedTagAt, t);
    assert StripPrefixes(t) == o + n + StripPrefixes(t[len..]);
  }

  /** Text without `<` is copied unchanged and the scan resumes behind it. */
  lemma StripPrefixesCopies(x: string, rest: string)
    requires NoneIn(x, {'<'})
    ensures StripPrefixes(x + rest) == x + StripPrefixes(rest)
  {
    forall i | 0 <= i < |x| ensures !HitAt(PrefixedTagAt, (x + rest)[i..]) {
      assert (x + rest)[i..][0] == x[i];
    }
    ReplaceAllCopies(PrefixedTagAt, x, rest);
  }

  /** The prefix pass leaves a text unchanged exactly when no prefixed tag opening occurs in it. */
  lemma StripPrefixesUnchangedIff(s: string)
    ensures StripPrefixes(s) == s <==> NoHit(PrefixedTagAt, s)
  {
    PrefixedTagShrinks();
    ReplaceAllUnchangedIff(PrefixedTagAt, s);
  }

  // ---------------------------------------------------------------- the declaration pass

  /** `/\sxmlns(:\w+)?="[^"]*"/` at the start of `t`, replaced by nothing. */
  function XmlnsDeclAt(t: string): Option<Hit>
  {
    if |t| < 6 || !IsSpace(t[0]) || t[1..6] != "xmlns" then None
    else
      var k := if |t| > 6 && t[6] == ':' then
                 (var w := WordRun(t[7..]); if w == 0 then 0 else 7 + w)
               else 6;
      if k == 0 || k + 1 >= |t| || t[k] != '=' || t[k + 1] != '"' then None
      else
        var q := RunWithout(t[k + 2..], '"');
        if k + 2 + q >= |t| then None else Some(Hit(k + 3 + q, []))
  }

  function StripDeclarations(s: string): string
  {
    ReplaceAll(XmlnsDeclAt, s)
  }

  /** The declaration pass never lengthens the text, and shortens it whenever it finds something. */
  lemma StripDeclarationsShrinks(s: string)
    ensures |StripDeclarations(s)| <= |s|
    ensures StripDeclarations(s) == s <==> NoHit(XmlnsDeclAt, s)
  {
    assert Shrinking(XmlnsDeclAt);
    ReplaceAllShrinks(XmlnsDeclAt, s);
    ReplaceAllUnchangedIff(XmlnsDeclAt, s);
  }

  /** An optional `:prefix` after `xmlns`. */
  predicate IsDeclSuffix(x: string) {
    x == [] || (x[0] == ':' && IsWord(x[1..]))
  }

  /** A namespace declaration led by `c`: `xmlns="v"`, or `xmlns:p="v"` when `x` is `:p`. */
  function Declaration(c: char, x: string, v: string): string
  {
    [c] + "xmlns" + x + "=\"" + v + "\""
  }

  /** A whitespace-led `xmlns="v"` or `xmlns:p="v"` is deleted, and scanning goes on behind it. */
  lemma StripDeclarationsRule(c: char, x: string, v: string, rest: string)
    requires IsSpace(c) && IsDeclSuffix(x) && NoneIn(v, {'"'})
    ensures StripDeclarations(Declaration(c, x, v) + rest) == StripDeclarations(rest)
  {
    var t := [c] + "xmlns" + x + "=\"" + v + "\"" + rest;
    assert t[1..6] == "xmlns";
    var k := 6 + |x|;
    if x != [] {
      assert t[6] == ':';
      assert t[7..] == x[1..] + ("=\"" + v + "\"" + rest);
      WordRunOfWord(x[1..], "=\"" + v + "\"" + rest);
    }
    assert t[k] == '=' && t[k + 1] == '"';
    assert t[k + 2..] == v + ['"'] + rest;
    RunWithoutUpTo(v, '"', rest);
    assert XmlnsDeclAt(t) == Some(Hit(k + 3 + |v|, []));
    assert t[k + 3 + |v|..] == rest;
  }

  /** Text without whitespace is copied unchanged by the declaration pass. */
  lemma StripDeclarationsCopies(x: string, rest: string)
    requires forall i :: 0 <= i < |x| ==> !IsSpace(x[i])
    ensures StripDeclarations(x + rest) == x + StripDeclarations(rest)
  {
    forall i | 0 <= i < |x| ensures !HitAt(XmlnsDeclAt, (x + rest)[i..]) {
      assert (x + rest)[i..][0] == x[i];
    }
    ReplaceAllCopies(XmlnsDeclAt, x, rest);
  }

  // ---------------------------------------------------------------- cleanXmlElement

  /**
   * `cleanXmlElement`: strip the declarations from a copy, serialise it,
   * then run the prefix pass and the declaration pass over the text. The
   * argument itself is a value and is left as it was.
   */
  method CleanXmlElement(e: Element, serialize: Element -> string) returns (xml: string)
    ensures xml == StripDeclarations(StripPrefixes(serialize(NsStripped(e))))
  {
    var clone := RemoveNamespaces(e);
    xml := serialize(clone);
    xml := StripPrefixes(xml);
    xml := StripDeclarations(xml);
  }

  /**
   * The serialisation of a module `p:M` that declares `p` and holds one
   * leaf `p:L` with value `v`: `<p:M xmlns:p="u"><p:L>v</p:L></p:M>`.
   */
  function PrefixedModuleXml(p: string, m: string, l: string, u: string, v: string): string
  {
    PrefixedOpening(false, p, m) + (Declaration(' ', ":" + p, u) + (">" +
      (PrefixedOpening(false, p, l) + (">" + (v +
      (PrefixedOpening(true, p, l) + (">" + (PrefixedOpening(true, p, m) + ">"))))))))
  }

  /** The same module without prefixes or declaration: `<M><L>v</L></M>`. */
  function PlainModuleXml(m: string, l: string, v: string): string
  {
    PlainOpening(false, m) + (">" +
      (PlainOpening(false, l) + (">" + (v +
      (PlainOpening(true, l) + (">" + (PlainOpening(true, m) + ">")))))))
  }

  lemma DeclarationWithoutAngle(p: string, u: string)
    requires IsWord(p) && NoneIn(u, {'"', '<'})
    ensures NoneIn(Declaration(' ', ":" + p, u), {'<'})
  {
  }

  /** The prefix pass unprefixes the four tags of the module and keeps its declaration. */
  lemma StripPrefixesOfModule(p: string, m: string, l: string, u: string, v: string)
    requires IsWord(p) && IsWord(m) && IsWord(l) && NoneIn(u, {'"', '<'})
    requires forall i :: 0 <= i < |v| ==> IsWordChar(v[i])
    ensures StripPrefixes(PrefixedModuleXml(p, m, l, u, v)) ==
      PlainOpening(false, m) + (Declaration(' ', ":" + p, u) + (">" +
      (PlainOpening(false, l) + (">" + (v +
      (PlainOpening(true, l) + (">" + (PlainOpening(true, m) + ">"))))))))
  {
    var x1 := PrefixedOpening(true, p, m) + ">";
    var x2 := ">" + x1;
    var x3 := PrefixedOpening(true, p, l) + x2;
    var x4 := ">" + (v + x3);
    var x5 := PrefixedOpening(false, p, l) + x4;
    var d := Declaration(' ', ":" + p, u);
    var x6 := d + (">" + x5);
    StripPrefixesCopies(">", []);
    assert ">" + [] == ">";
    StripPrefixesRule(true, p, m, ">");
    StripPrefixesCopies(">", x1);
    StripPrefixesRule(true, p, l, x2);
    StripPrefixesCopies(v, x3);
    StripPrefixesCopies(">", v + x3);
    StripPrefixesRule(false, p, l, x4);
    StripPrefixesCopies(">", x5);
    DeclarationWithoutAngle(p, u);
    StripPrefixesCopies(d, ">" + x5);
    StripPrefixesRule(false, p, m, x6);
  }

  /** The declaration pass then drops the one remaining declaration. */
  lemma StripDeclarationsOfModule(p: string, m: string, l: string, u: string, v: string)
    requires IsWord(p) && IsWord(m) && IsWord(l) && NoneIn(u, {'"'})
    requires forall i :: 0 <= i < |v| ==> IsWordChar(v[i])
    ensures StripDeclarations(
      PlainOpening(false, m) + (Declaration(' ', ":" + p, u) + (">" +
      (PlainOpening(false, l) + (">" + (v +
      (PlainOpening(true, l) + (">" + (PlainOpening(true, m) + ">")))))))))
      == PlainModuleXml(m, l, v)
  {
    var y1 := PlainOpening(true, m) + ">";
    var y2 := ">" + y1;
    var y3 := PlainOpening(true, l) + y2;
    var y4 := v + y3;
    var y5 := ">" + y4;
    var y6 := PlainOpening(false, l) + y5;
    var y7 := ">" + y6;
    StripDeclarationsCopies(">", []);
    assert ">" + [] == ">";
    StripDeclarationsCopies(PlainOpening(true, m), ">");
    StripDeclarationsCopies(">", y1);
    StripDeclarationsCopies(PlainOpening(true, l), y2);
    StripDeclarationsCopies(v, y3);
    StripDeclarationsCopies(">", y4);
    StripDeclarationsCopies(PlainOpening(false, l), y5);
    StripDeclarationsCopies(">", y6);
    StripDeclarationsRule(' ', ":" + p, u, y7);
    StripDeclarationsCopies(PlainOpening(false, m), Declaration(' ', ":" + p, u) + y7);
  }

  /**
   * A typical serialisation of a prefixed module, its namespace declared on
   * the outer tag, comes out as plain XML:
   * `<p:M xmlns:p="u"><p:L>v</p:L></p:M>` becomes `<M><L>v</L></M>`.
   */
  lemma CleanPrefixedModule(p: string, m: string, l: string, u: string, v: string)
    requires IsWord(p) && IsWord(m) && IsWord(l) && NoneIn(u, {'"', '<'})
    requires forall i :: 0 <= i < |v| ==> IsWordChar(v[i])
    ensures StripDeclarations(StripPrefixes(PrefixedModuleXml(p, m, l, u, v))) == PlainModuleXml(m, l, v)
  {
    StripPrefixesOfModule(p, m, l, u, v);
    StripDeclarationsOfModule(p, m, l, u, v);
  }

  // ---------------------------------------------------------------- parseCapabilities

  /** `getAttribute('opt') || getAttribute('options')`: `opt` unless it is absent or empty. */
  function OptionText(attrs: seq<Attr>): (r: Option<string>)
    ensures r.Some? && r.value != [] <==>
      (GetAttribute(attrs, "opt").Some? && GetAttribute(attrs, "opt").value != []) ||
      (GetAttribute(attrs, "options").Some? && GetAttribute(attrs, "options").value != [])
  {
    var opt := GetAttribute(attrs, "opt");
    if opt.Some? && opt.value != [] then opt else GetAttribute(attrs, "options")
  }

  /**
   * `parseCapabilities`: `min` and `max` are read together with `parseInt`
   * when both attributes exist; the option list is the non-empty `opt` (or
   * else `options`) text split on `;` and `,`, trimmed, empties dropped.
   */
  function ParseCapabilities(capEl: Element): (r: HikCapabilities)
    ensures r.min.Some? <==> r.max.Some?
    ensures r.min.Some? <==> GetAttribute(capEl.attrs, "min").Some? && GetAttribute(capEl.attrs, "max").Some?
    ensures r.min.Some? ==>
      r.min.value == JsParseInt(GetAttribute(capEl.attrs, "min").value) &&
      r.max.value == JsParseInt(GetAttribute(capEl.attrs, "max").value)
    ensures r.options.Some? <==> OptionText(capEl.attrs).Some? && OptionText(capEl.attrs).value != []
    ensures r.options.Some? ==> r.options.value == SplitOptions(OptionText(capEl.attrs).value, {';', ','})
  {
    var min := GetAttribute(capEl.attrs, "min");
    var max := GetAttribute(capEl.attrs, "max");
    var opt := OptionText(capEl.attrs);
    HikCapabilities(
      if min.Some? && max.Some? then Some(JsParseInt(min.value)) else None,
      if min.Some? && max.Some? then Some(JsParseInt(max.value)) else None,
      if opt.Some? && opt.value != [] then Some(SplitOptions(opt.value, {';', ','})) else None)
  }

  /** Range and options are independent: each depends only on its own attributes. */
  lemma CapabilitiesIndependent(a: Element, b: Element)
    ensures (GetAttribute(a.attrs, "min") == GetAttribute(b.attrs, "min") &&
             GetAttribute(a.attrs, "max") == GetAttribute(b.attrs, "max")) ==>
      ParseCapabilities(a).min == ParseCapabilities(b).min && ParseCapabilities(a).max == ParseCapabilities(b).max
    ensures (GetAttribute(a.attrs, "opt") == GetAttribute(b.attrs, "opt") &&
             GetAttribute(a.attrs, "options") == GetAttribute(b.attrs, "options")) ==>
      ParseCapabilities(a).options == ParseCapabilities(b).options
  {
  }

  /** An element with none of the four attributes yields an empty object. */
  lemma CapabilitiesEmpty(capEl: Element)
    requires forall k :: 0 <= k < |capEl.attrs| ==> capEl.attrs[k].name !in {"min", "max", "opt", "options"}
    ensures ParseCapabilities(capEl) == HikCapabilities(None, None, None)
  {
    assert GetAttribute(capEl.attrs, "min").None?;
    assert GetAttribute(capEl.attrs, "opt").None?;
    assert GetAttribute(capEl.attrs, "options").None?;
  }

  /** Every option is non-empty, trimmed and free of `;` and `,`. */
  lemma CapabilityOptionsWellFormed(capEl: Element)
    ensures var r := ParseCapabilities(capEl);
      r.options.Some? ==> forall k :: 0 <= k < |r.options.value| ==>
        var o := r.options.value[k]; o != [] && IsTrimmed(o) && NoneIn(o, {';', ','})
  {
    var opt := OptionText(capEl.attrs);
    if opt.Some? && opt.value != [] {
      SplitOptionsWellFormed(opt.value, {';', ','});
    }
  }

  /** Decimal bounds come back as the numbers they spell. */
  lemma CapabilitiesReadDecimalBounds(capEl: Element, lo: int, hi: int)
    requires GetAttribute(capEl.attrs, "min") == Some(ShowInt(lo))
    requires GetAttribute(capEl.attrs, "max") == Some(ShowInt(hi))
    ensures ParseCapabilities(capEl).min == Some(Num(lo))
    ensures ParseCapabilities(capEl).max == Some(Num(hi))
  {
    JsParseIntShowInt(lo, []);
    JsParseIntShowInt(hi, []);
    assert ShowInt(lo) + [] == ShowInt(lo);
    assert ShowInt(hi) + [] == ShowInt(hi);
  }
}
