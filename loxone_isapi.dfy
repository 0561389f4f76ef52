/**
 * The pure helpers of the desktop tool `Loxone_ISAPI.py`: `safe_url`,
 * `clean_xml_string`, the `{uri}` stripping done while parsing, and the
 * computations `_add_nodes_recursive` and `on_tree_select` make on
 * ElementTree elements (capability matching, the displayed value, the kind
 * of editor).
 *
 * ElementTree elements are values here; an element of the loaded document
 * is reached through its position, so writing `el.text` is an update of the
 * document at that position.
 */
module LoxoneIsapi {
  import opened Wrappers
  import opened Strings
  import opened Scan
  import App

  /** An ElementTree element: tag, attribute dictionary, optional text and child elements (tails are not kept). */
  datatype PyElement = PyElement(tag: string, attrib: map<string, string>, text: Option<string>, children: seq<PyElement>)

  // ---------------------------------------------------------------- positions

  /** A position in a tree: the child index taken at each level. */
  type PyPath = seq<nat>

  predicate PyValidPath(e: PyElement, p: PyPath)
    decreases |p|
  {
    p == [] || (p[0] < |e.children| && PyValidPath(e.children[p[0]], p[1..]))
  }

  function PyAt(e: PyElement, p: PyPath): PyElement
    requires PyValidPath(e, p)
    decreases |p|
  {
    if p == [] then e else PyAt(e.children[p[0]], p[1..])
  }

  /** A position one level below `p`. */
  lemma {:induction false} PyAtSnoc(e: PyElement, p: PyPath, i: nat)
    requires PyValidPath(e, p) && i < |PyAt(e, p).children|
    ensures PyValidPath(e, p + [i]) && PyAt(e, p + [i]) == PyAt(e, p).children[i]
    decreases |p|
  {
    if p != [] {
      assert (p + [i])[1..] == p[1..] + [i];
      PyAtSnoc(e.children[p[0]], p[1..], i);
    }
  }

  /** A path through `p` then `q` reaches the element `q` leads to from the element at `p`. */
  lemma {:induction false} PyAtConcat(e: PyElement, p: PyPath, q: PyPath)
    requires PyValidPath(e, p + q)
    ensures PyValidPath(e, p) && PyValidPath(PyAt(e, p), q) && PyAt(e, p + q) == PyAt(PyAt(e, p), q)
    decreases |p|
  {
    if p == [] {
      assert p + q == q;
    } else {
      assert (p + q)[0] == p[0] && (p + q)[1..] == p[1..] + q;
      PyAtConcat(e.children[p[0]], p[1..], q);
    }
  }

  /** Everything an element holds apart from its children: tag, attributes, text and how many children it has. */
  predicate PySameHead(a: PyElement, b: PyElement) {
    a.(children := []) == b.(children := []) && |a.children| == |b.children|
  }

  /** Every position of `e` other than `p` is a position of `r` holding the same tag, attributes, text and child count. */
  ghost predicate PyOthersKept(e: PyElement, p: PyPath, r: PyElement) {
    forall q :: PyValidPath(e, q) && q != p ==> PyValidPath(r, q) && PySameHead(PyAt(r, q), PyAt(e, q))
  }

  /** Putting `c` in place of one child keeps every other position, given that `c` kept all but `p[1..]`. */
  lemma PyOthersKeptStep(e: PyElement, p: PyPath, c: PyElement)
    requires p != [] && PyValidPath(e, p)
    requires PyOthersKept(e.children[p[0]], p[1..], c)
    ensures PyOthersKept(e, p, e.(children := e.children[p[0] := c]))
  {
    var k := p[0];
    var r := e.(children := e.children[k := c]);
    forall q | PyValidPath(e, q) && q != p ensures PyValidPath(r, q) && PySameHead(PyAt(r, q), PyAt(e, q)) {
      if q != [] {
        if q[0] != k {
          assert r.children[q[0]] == e.children[q[0]];
        } else {
          assert q[1..] != p[1..] by {
            assert q == [q[0]] + q[1..] && p == [p[0]] + p[1..];
          }
        }
      }
    }
  }

  /** `el.text = v` for the element at `p`; every other element keeps its text, tag and attributes. */
  function SetText(e: PyElement, p: PyPath, v: Option<string>): (r: PyElement)
    requires PyValidPath(e, p)
    ensures PyValidPath(r, p) && PyAt(r, p) == PyAt(e, p).(text := v)
    ensures PyOthersKept(e, p, r)
    decreases |p|
  {
    if p == [] then e.(text := v)
    else
      var k := p[0];
      var c := SetText(e.children[k], p[1..], v);
      PyOthersKeptStep(e, p, c);
      e.(children := e.children[k := c])
  }

  /** Seen from an ancestor at `top`, writing the text at `top + rest` is writing it at `rest` inside that ancestor. */
  lemma {:induction false} SetTextBelow(e: PyElement, top: PyPath, rest: PyPath, v: Option<string>)
    requires PyValidPath(e, top + rest)
    ensures PyValidPath(e, top) && PyValidPath(PyAt(e, top), rest)
    ensures PyValidPath(SetText(e, top + rest, v), top)
    ensures PyAt(SetText(e, top + rest, v), top) == SetText(PyAt(e, top), rest, v)
    decreases |top|
  {
    PyAtConcat(e, top, rest);
    if top == [] {
      assert top + rest == rest;
    } else {
      var k := top[0];
      assert (top + rest)[0] == k && (top + rest)[1..] == top[1..] + rest;
      SetTextBelow(e.children[k], top[1..], rest, v);
    }
  }

  /** Writing the old text back gives back exactly the document that was there. */
  lemma {:induction false} SetTextRestores(e: PyElement, p: PyPath, v: Option<string>)
    requires PyValidPath(e, p)
    ensures SetText(SetText(e, p, v), p, PyAt(e, p).text) == e
    decreases |p|
  {
    if p != [] {
      var k := p[0];
      SetTextRestores(e.children[k], p[1..], v);
      assert SetText(e, p, v).children[k] == SetText(e.children[k], p[1..], v);
    }
  }

  /** Writing a text changes no tag and no child count anywhere in the tree. */
  lemma {:induction false} SetTextKeepsShape(e: PyElement, p: PyPath, v: Option<string>, q: PyPath)
    requires PyValidPath(e, p) && PyValidPath(e, q)
    ensures PyValidPath(SetText(e, p, v), q)
    ensures PyAt(SetText(e, p, v), q).tag == PyAt(e, q).tag
    ensures |PyAt(SetText(e, p, v), q).children| == |PyAt(e, q).children|
    decreases |q|
  {
    if p != [] && q != [] {
      var r := SetText(e, p, v);
      if p[0] == q[0] {
        SetTextKeepsShape(e.children[p[0]], p[1..], v, q[1..]);
      } else {
        assert r.children[q[0]] == e.children[q[0]];
      }
    }
  }

  // ---------------------------------------------------------------- safe_url

  /**
   * `safe_url`: the address stripped of surrounding whitespace and of one
   * trailing `/`, prefixed with `http://` unless it already begins with the
   * four letters `http`, followed by the path with a leading `/`.
   */
  function SafeUrl(base: string, path: string): (r: string)
    ensures StartsWith(r, "http")
    ensures var c := App.CleanPath(path); |c| <= |r| && r[|r| - |c|..] == c
  {
    var b := Trim(base);
    var unslashed := if b != [] && b[|b| - 1] == '/' then b[..|b| - 1] else b;
    var withScheme := if StartsWith(unslashed, "http") then unslashed else "http://" + unslashed;
    withScheme + App.CleanPath(path)
  }

  /** `safe_url` strips the address first: surrounding whitespace never matters. */
  lemma SafeUrlTrims(base: string, path: string)
    ensures SafeUrl(base, path) == SafeUrl(Trim(base), path)
  {
    TrimIdempotent(base);
  }

  /**
   * On an address without surrounding whitespace, `safe_url` cuts exactly
   * one trailing `/` (a second one stays) and puts `http://` in front
   * exactly when the address does not begin with the letters `http`.
   */
  lemma SafeUrlRule(b: string, path: string)
    requires IsTrimmed(b)
    ensures (b == [] || b[|b| - 1] != '/') ==>
      SafeUrl(b, path) == (if StartsWith(b, "http") then b else "http://" + b) + App.CleanPath(path)
    ensures SafeUrl(b + "/", path) == (if StartsWith(b, "http") then b else "http://" + b) + App.CleanPath(path)
  {
    TrimOfTrimmed(b);
    assert IsTrimmed(b + "/");
    TrimOfTrimmed(b + "/");
    assert (b + "/")[..|b|] == b;
  }

  /**
   * For an address without a trailing `/` whose `http` prefix is a real
   * scheme (or that has neither), the desktop tool and the web front end
   * outside production build the same URL.
   */
  lemma SafeUrlAgreesWithScript(base: string, path: string)
    requires var b := Trim(base); b == [] || b[|b| - 1] != '/'
    requires StartsWith(Trim(base), "http") <==> App.HasHttpScheme(Trim(base))
    ensures SafeUrl(base, path) == App.GetSafeUrl(false, base, path)
  {
  }

  /** The desktop tool's scheme test is a prefix test: a host named `httpcam` gets no scheme. */
  lemma SafeUrlPrefixTest()
    ensures SafeUrl("httpcam", "x") == "httpcam/x"
    ensures !App.HasHttpScheme(SafeUrl("httpcam", "x"))
    ensures App.GetSafeUrl(false, "httpcam", "x") == "http://httpcam/x"
  {
    assert Leading("httpcam") == 0;
    assert Trailing("httpcam") == 0;
    assert Trim("httpcam") == "httpcam";
    assert StartsWith("httpcam", "http");
    assert App.CleanPath("x") == "/x";
  }

  // ---------------------------------------------------------------- clean_xml_string

  /** `ns\d+:` at the start of `t`: `ns`, one or more digits and a colon, all removed. */
  function NsPrefix(t: string): (r: Option<Hit>)
    ensures r.Some? ==> r.value.repl == [] && 1 <= r.value.len <= |t|
    ensures r.Some? ==>
      var n := r.value.len;
      n >= 4 && t[..2] == "ns" && AllDigits(t[2..n - 1]) && t[n - 1] == ':'
  {
    if |t| >= 2 && t[0] == 'n' && t[1] == 's' then
      var n := DigitRun(t[2..]);
      assert t[2..2 + n] == t[2..][..n];
      assert t[..2] == "ns";
      if n >= 1 && 2 + n < |t| && t[2 + n] == ':' then Some(Hit(n + 3, [])) else None
    else None
  }

  /** `ns`, digits and a colon are a match of `ns\d+:`. */
  lemma NsPrefixRule(d: string, rest: string)
    requires d != [] && AllDigits(d)
    ensures NsPrefix("ns" + d + ":" + rest) == Some(Hit(|d| + 3, []))
  {
    var t := "ns" + d + ":" + rest;
    assert t[2..] == d + (":" + rest);
    DigitRunOfDigits(d, ":" + rest);
  }

  /** `:ns\d+` at the start of `t`: a colon, `ns` and all the digits that follow, removed. */
  function NsSuffix(t: string): (r: Option<Hit>)
    ensures r.Some? ==> r.value.repl == [] && 1 <= r.value.len <= |t|
    ensures r.Some? ==>
      var n := r.value.len;
      n >= 4 && t[..3] == ":ns" && AllDigits(t[3..n]) && (n == |t| || !IsDigit(t[n]))
  {
    if |t| >= 3 && t[0] == ':' && t[1] == 'n' && t[2] == 's' then
      var n := DigitRun(t[3..]);
      assert t[3..3 + n] == t[3..][..n];
      assert t[..3] == ":ns";
      if n >= 1 then Some(Hit(n + 3, [])) else None
    else None
  }

  /** A colon, `ns` and a whole run of digits are a match of `:ns\d+`. */
  lemma NsSuffixRule(d: string, rest: string)
    requires d != [] && AllDigits(d) && (rest == [] || !IsDigit(rest[0]))
    ensures NsSuffix(":ns" + d + rest) == Some(Hit(|d| + 3, []))
  {
    var t := ":ns" + d + rest;
    assert t[3..] == d + rest;
    DigitRunOfDigits(d, rest);
  }

  /** `\sxmlns="[^"]+"` at the start of `t`: a whitespace character and a default namespace declaration, removed. */
  function DefaultXmlns(t: string): (r: Option<Hit>)
    ensures r.Some? ==> r.value.repl == [] && 1 <= r.value.len <= |t|
    ensures r.Some? ==>
      var n := r.value.len;
      n >= 10 && IsSpace(t[0]) && t[1..8] == "xmlns=\"" && '"' !in t[8..n - 1] && t[n - 1] == '"'
  {
    if |t| >= 8 && IsSpace(t[0]) && t[1..8] == "xmlns=\"" then
      var n := RunWithout(t[8..], '"');
      if n >= 1 && 8 + n < |t| then Some(Hit(n + 9, [])) else None
    else None
  }

  /** A whitespace character and `xmlns="v"` with a non-empty `v` are a match of `\sxmlns="[^"]+"`. */
  lemma DefaultXmlnsRule(c: char, v: string, rest: string)
    requires IsSpace(c) && v != [] && '"' !in v
    ensures DefaultXmlns([c] + ("xmlns=\"" + (v + ("\"" + rest)))) == Some(Hit(|v| + 9, []))
  {
    var q := v + ("\"" + rest);
    var t := [c] + ("xmlns=\"" + q);
    assert t[1..8] == "xmlns=\"";
    assert t[8..] == q;
    assert q == v + ['"'] + rest;
    RunWithoutUpTo(v, '"', rest);
  }

  /** `\sxmlns:[\w]+="[^"]+"` at the start of `t`: a whitespace character and a prefixed namespace declaration, removed. */
  function PrefixedXmlns(t: string): (r: Option<Hit>)
    ensures r.Some? ==> r.value.repl == [] && 1 <= r.value.len <= |t|
    ensures r.Some? ==>
      |t| >= 7 && IsSpace(t[0]) && t[1..7] == "xmlns:" &&
      var n := r.value.len;
      var w := 7 + WordRun(t[7..]);
      7 < w && w + 3 < n && t[w..w + 2] == "=\"" && '"' !in t[w + 2..n - 1] && t[n - 1] == '"'
  {
    if |t| >= 7 && IsSpace(t[0]) && t[1..7] == "xmlns:" then
      var w := WordRun(t[7..]);
      if w >= 1 && 7 + w + 2 <= |t| && t[7 + w] == '=' && t[7 + w + 1] == '"' then
        var n := RunWithout(t[7 + w + 2..], '"');
        if n >= 1 && 7 + w + 2 + n < |t| then Some(Hit(7 + w + 2 + n + 1, [])) else None
      else None
    else None
  }

  /** A whitespace character and `xmlns:w="v"` with a word `w` and a non-empty `v` are a match of `\sxmlns:[\w]+="[^"]+"`. */
  lemma PrefixedXmlnsRule(c: char, w: string, v: string, rest: string)
    requires IsSpace(c) && IsWord(w) && v != [] && '"' !in v
    ensures PrefixedXmlns([c] + ("xmlns:" + (w + ("=\"" + (v + ("\"" + rest)))))) == Some(Hit(|w| + |v| + 10, []))
  {
    PrefixedXmlnsRuleFacts(c, w, v, rest);
    PrefixedXmlnsAt([c] + ("xmlns:" + (w + ("=\"" + (v + ("\"" + rest))))), |w|, |v|);
  }

  /** Where the parts of `xmlns:w="v"` lie in the text, as `PrefixedXmlns` reads them. */
  lemma PrefixedXmlnsRuleFacts(c: char, w: string, v: string, rest: string)
    requires IsSpace(c) && IsWord(w) && v != [] && '"' !in v
    ensures var t := [c] + ("xmlns:" + (w + ("=\"" + (v + ("\"" + rest)))));
      |t| >= 7 && IsSpace(t[0]) && t[1..7] == "xmlns:" &&
      |w| >= 1 && WordRun(t[7..]) == |w| && 7 + |w| + 2 <= |t| && t[7 + |w|] == '=' && t[7 + |w| + 1] == '"' &&
      |v| >= 1 && RunWithout(t[7 + |w| + 2..], '"') == |v| && 7 + |w| + 2 + |v| < |t|
  {
    var q := v + ("\"" + rest);
    var e := "=\"" + q;
    var t := [c] + ("xmlns:" + (w + e));
    assert t[1..7] == "xmlns:";
    assert t[7..] == w + e;
    WordRunOfWord(w, e);
    assert t[7 + |w|] == e[0] == '=' && t[7 + |w| + 1] == e[1] == '"';
    assert t[7 + |w| + 2..] == e[2..] == q;
    assert q == v + ['"'] + rest;
    RunWithoutUpTo(v, '"', rest);
  }

  /** The match `PrefixedXmlns` finds once its word run and its value run are known. */
  lemma PrefixedXmlnsAt(t: string, a: nat, b: nat)
    requires |t| >= 7 && IsSpace(t[0]) && t[1..7] == "xmlns:"
    requires a >= 1 && WordRun(t[7..]) == a && 7 + a + 2 <= |t| && t[7 + a] == '=' && t[7 + a + 1] == '"'
    requires b >= 1 && RunWithout(t[7 + a + 2..], '"') == b && 7 + a + 2 + b < |t|
    ensures PrefixedXmlns(t) == Some(Hit(a + b + 10, []))
  {
  }

  lemma StrippingPatterns()
    ensures Shrinking(NsPrefix) && Shrinking(NsSuffix) && Shrinking(DefaultXmlns) && Shrinking(PrefixedXmlns)
  {
  }

  /**
   * `clean_xml_string` on the serialised text: every `nsN:` and every
   * `:nsN` removed, then the first default namespace declaration, then
   * every prefixed one. The result is never longer than the input.
   */
  function CleanXml(raw: string): (r: string)
    ensures |r| <= |raw|
  {
    StrippingPatterns();
    var a := ReplaceAll(NsPrefix, raw);
    ReplaceAllShrinks(NsPrefix, raw);
    var b := ReplaceAll(NsSuffix, a);
    ReplaceAllShrinks(NsSuffix, a);
    var c := ReplaceFirst(DefaultXmlns, b);
    ReplaceFirstShrinks(DefaultXmlns, b);
    ReplaceAllShrinks(PrefixedXmlns, c);
    ReplaceAll(PrefixedXmlns, c)
  }

  /**
   * The cleaning leaves the text exactly as it was if and only if none of
   * the four patterns occurs in it.
   */
  lemma CleanXmlUnchangedIff(raw: string)
    ensures CleanXml(raw) == raw <==>
      NoHit(NsPrefix, raw) && NoHit(NsSuffix, raw) && NoHit(DefaultXmlns, raw) && NoHit(PrefixedXmlns, raw)
  {
    StrippingPatterns();
    var a := ReplaceAll(NsPrefix, raw);
    var b := ReplaceAll(NsSuffix, a);
    var c := ReplaceFirst(DefaultXmlns, b);
    ReplaceAllShrinks(NsPrefix, raw);
    ReplaceAllShrinks(NsSuffix, a);
    ReplaceFirstShrinks(DefaultXmlns, b);
    ReplaceAllShrinks(PrefixedXmlns, c);
    ReplaceAllUnchangedIff(NsPrefix, raw);
    ReplaceAllUnchangedIff(NsSuffix, a);
    ReplaceAllUnchangedIff(PrefixedXmlns, c);
  }

  // ---------------------------------------------------------------- clean_xml_string on a module

  /** Whitespace, as a set, for the scans whose patterns begin with `\s`. */
  const Spaces: set<char> := {' ', '\t', '\n', '\r', '\U{000B}', '\U{000C}'}

  /** Every match of `ns\d+:` begins with `n`. */
  lemma NsPrefixStarts()
    ensures StartsIn(NsPrefix, {'n'})
  {
  }

  /** Every match of `:ns\d+` begins with a colon. */
  lemma NsSuffixStarts()
    ensures StartsIn(NsSuffix, {':'})
  {
  }

  /** Every match of `\sxmlns="[^"]+"` begins with whitespace. */
  lemma DefaultXmlnsStarts()
    ensures StartsIn(DefaultXmlns, Spaces)
  {
  }

  /** Every match of `\sxmlns:[\w]+="[^"]+"` begins with whitespace. */
  lemma PrefixedXmlnsStarts()
    ensures StartsIn(PrefixedXmlns, Spaces)
  {
  }

  /** Text none of the four patterns can begin in: no `n`, colon, quote or whitespace. */
  predicate Inert(s: string) {
    NoneIn(s, {'n', ':', '"'} + Spaces)
  }

  /** The namespace declaration ` xmlns<p>="<u>"`. */
  function Decl(p: string, u: string): string {
    " xmlns" + (p + ("=\"" + (u + "\"")))
  }

  /**
   * The text `ElementTree` serialises for a module element `m` carrying the
   * declaration `d` and holding one child `l` with the text `v`, every tag
   * written with the prefix `q`: `<qm d><ql>v</ql></qm>`.
   */
  function ModuleText(q: string, d: string, m: string, l: string, v: string): string {
    "<" + (q + (m + (d + ("><" + (q + (l + (">" + (v + ("</" + (q + (l + ("></" + (q + (m + ">"))))))))))))))
  }

  /**
   * One replace-all scan over a module's text: when the tag prefix `q` and
   * the declaration `d` pass as `q2` and `d2`, and the names, the value and
   * the markup give the pattern nowhere to begin, the scan turns the text
   * into the same module with `q2` and `d2`.
   */
  lemma ModuleTextScan(mt: Matcher, starts: set<char>, q: string, q2: string, d: string, d2: string,
                       m: string, l: string, v: string)
    requires StartsIn(mt, starts) && '<' !in starts && '>' !in starts && '/' !in starts
    requires NoneIn(m, starts) && NoneIn(l, starts) && NoneIn(v, starts)
    requires Passes(mt, q, q2) && Passes(mt, d, d2)
    ensures ReplaceAll(mt, ModuleText(q, d, m, l, v)) == ModuleText(q2, d2, m, l, v)
  {
    PassesAvoiding(mt, starts, m);
    PassesAvoiding(mt, starts, l);
    PassesAvoiding(mt, starts, v);
    PassesAvoiding(mt, starts, "<");
    PassesAvoiding(mt, starts, ">");
    PassesAvoiding(mt, starts, "><");
    PassesAvoiding(mt, starts, "</");
    PassesAvoiding(mt, starts, "></");
    var close2 := q2 + (m + ">");
    PassesJoin(mt, m, m, ">", ">");
    PassesJoin(mt, q, q2, m + ">", m + ">");
    PassesJoin(mt, "></", "></", q + (m + ">"), close2);
    PassesJoin(mt, l, l, "></" + (q + (m + ">")), "></" + close2);
    PassesJoin(mt, q, q2, l + ("></" + (q + (m + ">"))), l + ("></" + close2));
    var leaf := "</" + (q + (l + ("></" + (q + (m + ">")))));
    var leaf2 := "</" + (q2 + (l + ("></" + close2)));
    PassesJoin(mt, "</", "</", q + (l + ("></" + (q + (m + ">")))), q2 + (l + ("></" + close2)));
    ModuleTextHead(mt, q, q2, d, d2, m, l, v, leaf, leaf2);
  }

  /** The first half of `ModuleTextScan`: the opening tags and the value, in front of the closing tags. */
  lemma ModuleTextHead(mt: Matcher, q: string, q2: string, d: string, d2: string,
                       m: string, l: string, v: string, leaf: string, leaf2: string)
    requires Passes(mt, m, m) && Passes(mt, l, l) && Passes(mt, v, v)
    requires Passes(mt, "<", "<") && Passes(mt, ">", ">") && Passes(mt, "><", "><")
    requires Passes(mt, q, q2) && Passes(mt, d, d2) && Passes(mt, leaf, leaf2)
    requires leaf == "</" + (q + (l + ("></" + (q + (m + ">")))))
    requires leaf2 == "</" + (q2 + (l + ("></" + (q2 + (m + ">")))))
    ensures ReplaceAll(mt, ModuleText(q, d, m, l, v)) == ModuleText(q2, d2, m, l, v)
  {
    PassesJoin(mt, v, v, leaf, leaf2);
    PassesJoin(mt, ">", ">", v + leaf, v + leaf2);
    PassesJoin(mt, l, l, ">" + (v + leaf), ">" + (v + leaf2));
    PassesJoin(mt, q, q2, l + (">" + (v + leaf)), l + (">" + (v + leaf2)));
    PassesJoin(mt, "><", "><", q + (l + (">" + (v + leaf))), q2 + (l + (">" + (v + leaf2))));
    var x := "><" + (q + (l + (">" + (v + leaf))));
    var y := "><" + (q2 + (l + (">" + (v + leaf2))));
    PassesJoin(mt, d, d2, x, y);
    PassesJoin(mt, m, m, d + x, d2 + y);
    PassesJoin(mt, q, q2, m + (d + x), m + (d2 + y));
    PassesJoin(mt, "<", "<", q + (m + (d + x)), q2 + (m + (d2 + y)));
    PassesWhole(mt, ModuleText(q, d, m, l, v), ModuleText(q2, d2, m, l, v));
  }

  /** The first scan drops the `ns0:` of every tag and keeps the declaration `xmlns:ns0`. */
  lemma NsPrefixPass(m: string, l: string, v: string, u: string)
    requires Inert(m) && Inert(l) && Inert(v) && Inert(u)
    ensures ReplaceAll(NsPrefix, ModuleText("ns0:", Decl(":ns0", u), m, l, v)) == ModuleText("", Decl(":ns0", u), m, l, v)
  {
    NsPrefixStarts();
    forall rest ensures ReplaceAll(NsPrefix, "ns0:" + rest) == [] + ReplaceAll(NsPrefix, rest) {
      NsPrefixRule("0", rest);
      assert "ns" + "0" + ":" + rest == "ns0:" + rest;
      ReplaceAllHit(NsPrefix, "ns0:", rest);
    }
    DeclSurvivesNsPrefix(u);
    ModuleTextScan(NsPrefix, {'n'}, "ns0:", "", Decl(":ns0", u), Decl(":ns0", u), m, l, v);
  }

  /** `ns:` is not `ns\d+:`: the first scan copies it whatever follows. */
  lemma NsColonSurvives()
    ensures Passes(NsPrefix, "ns:", "ns:")
  {
    NsPrefixStarts();
    forall rest ensures ReplaceAll(NsPrefix, "ns:" + rest) == "ns:" + ReplaceAll(NsPrefix, rest) {
      var t := "ns:" + rest;
      assert t[2..][0] == ':';
      assert NsPrefix(t).None?;
      assert t[1..] == "s:" + rest;
      ReplaceAllCopiesAvoiding(NsPrefix, {'n'}, "s:", rest);
      assert ['n'] + ("s:" + ReplaceAll(NsPrefix, rest)) == "ns:" + ReplaceAll(NsPrefix, rest);
    }
  }

  /** `ns0=` is not `ns\d+:`: the first scan copies it whatever follows. */
  lemma NsDigitSurvives()
    ensures Passes(NsPrefix, "ns0=", "ns0=")
  {
    forall rest ensures ReplaceAll(NsPrefix, "ns0=" + rest) == "ns0=" + ReplaceAll(NsPrefix, rest) {
      NsDigitCopied(rest);
    }
  }

  /** `NsDigitSurvives` for one text after `ns0=`. */
  lemma NsDigitCopied(rest: string)
    ensures ReplaceAll(NsPrefix, "ns0=" + rest) == "ns0=" + ReplaceAll(NsPrefix, rest)
  {
    NsDigitNoMatch(rest);
    assert "ns0=" + rest == ['n'] + ("s0=" + rest);
    ReplaceAllMiss(NsPrefix, 'n', "s0=" + rest);
    NsPrefixStarts();
    ReplaceAllCopiesAvoiding(NsPrefix, {'n'}, "s0=", rest);
    assert ['n'] + ("s0=" + ReplaceAll(NsPrefix, rest)) == "ns0=" + ReplaceAll(NsPrefix, rest);
  }

  /** `ns0=` is no match of `ns\d+:`. */
  lemma NsDigitNoMatch(rest: string)
    ensures NsPrefix(['n'] + ("s0=" + rest)).None?
  {
    assert ['n'] + ("s0=" + rest) == "ns0=" + rest;
    var t := "ns0=" + rest;
    assert t[2..] == "0" + ("=" + rest);
    DigitRunOfDigits("0", "=" + rest);
  }

  /** ` xmlns:ns0="u"` passes through the first scan intact. */
  lemma DeclSurvivesNsPrefix(u: string)
    requires Inert(u)
    ensures Passes(NsPrefix, Decl(":ns0", u), Decl(":ns0", u))
  {
    NsPrefixStarts();
    PassesAvoiding(NsPrefix, {'n'}, "\"");
    PassesAvoiding(NsPrefix, {'n'}, u);
    PassesAvoiding(NsPrefix, {'n'}, " xml");
    NsColonSurvives();
    NsDigitSurvives();
    PassesJoin(NsPrefix, u, u, "\"", "\"");
    PassesJoin(NsPrefix, "\"", "\"", u + "\"", u + "\"");
    var t := "\"" + (u + "\"");
    PassesJoin(NsPrefix, "ns0=", "ns0=", t, t);
    PassesJoin(NsPrefix, "ns:", "ns:", "ns0=" + t, "ns0=" + t);
    PassesJoin(NsPrefix, " xml", " xml", "ns:" + ("ns0=" + t), "ns:" + ("ns0=" + t));
    DeclRegrouped(u);
  }

  /** ` xmlns:ns0="u"`, cut where the first scan looks. */
  lemma DeclRegrouped(u: string)
    ensures Decl(":ns0", u) == " xml" + ("ns:" + ("ns0=" + ("\"" + (u + "\""))))
  {
    assert " xmlns" + ":ns0" + "=\"" == " xml" + "ns:" + "ns0=" + "\"";
  }

  /** `:ns0=` loses its `:ns0` in the second scan whatever follows. */
  lemma NsSuffixDrops()
    ensures Passes(NsSuffix, ":ns0=", "=")
  {
    forall rest ensures ReplaceAll(NsSuffix, ":ns0=" + rest) == "=" + ReplaceAll(NsSuffix, rest) {
      NsSuffixDropped(rest);
    }
  }

  /** `NsSuffixDrops` for one text after `:ns0=`. */
  lemma NsSuffixDropped(rest: string)
    ensures ReplaceAll(NsSuffix, ":ns0=" + rest) == "=" + ReplaceAll(NsSuffix, rest)
  {
    var t := "=" + rest;
    NsSuffixMatch(t);
    ReplaceAllHit(NsSuffix, ":ns0", t);
    assert ":ns0=" + rest == ":ns0" + t;
    NsSuffixStarts();
    ReplaceAllCopiesAvoiding(NsSuffix, {':'}, "=", rest);
  }

  /** `:ns0` in front of a non-digit is a match of `:ns\d+`. */
  lemma NsSuffixMatch(t: string)
    requires t != [] && !IsDigit(t[0])
    ensures NsSuffix(":ns0" + t) == Some(Hit(4, []))
  {
    NsSuffixRule("0", t);
    assert ":ns" + "0" + t == ":ns0" + t;
  }

  /** The second scan turns ` xmlns:ns0="u"` into ` xmlns="u"`. */
  lemma DeclLosesNsSuffix(u: string)
    requires Inert(u)
    ensures Passes(NsSuffix, Decl(":ns0", u), Decl("", u))
  {
    NsSuffixStarts();
    PassesAvoiding(NsSuffix, {':'}, "\"");
    PassesAvoiding(NsSuffix, {':'}, u);
    PassesAvoiding(NsSuffix, {':'}, " xmlns");
    NsSuffixDrops();
    PassesJoin(NsSuffix, u, u, "\"", "\"");
    PassesJoin(NsSuffix, "\"", "\"", u + "\"", u + "\"");
    var t := "\"" + (u + "\"");
    PassesJoin(NsSuffix, ":ns0=", "=", t, t);
    PassesJoin(NsSuffix, " xmlns", " xmlns", ":ns0=" + t, "=" + t);
    DeclSuffixRegrouped(u);
  }

  /** The two declarations, cut where the second scan looks. */
  lemma DeclSuffixRegrouped(u: string)
    ensures Decl(":ns0", u) == " xmlns" + (":ns0=" + ("\"" + (u + "\"")))
    ensures Decl("", u) == " xmlns" + ("=" + ("\"" + (u + "\"")))
  {
    assert ":ns0" + "=\"" == ":ns0=" + "\"";
    assert [] + "=\"" == "=" + "\"";
  }

  /** The second scan drops the `:ns0` of the declaration and nothing else. */
  lemma NsSuffixPass(m: string, l: string, v: string, u: string)
    requires Inert(m) && Inert(l) && Inert(v) && Inert(u)
    ensures ReplaceAll(NsSuffix, ModuleText("", Decl(":ns0", u), m, l, v)) == ModuleText("", Decl("", u), m, l, v)
  {
    NsSuffixStarts();
    PassesAvoiding(NsSuffix, {':'}, []);
    DeclLosesNsSuffix(u);
    ModuleTextScan(NsSuffix, {':'}, "", "", Decl(":ns0", u), Decl("", u), m, l, v);
  }

  /** The third scan removes a default declaration at the front, whatever follows. */
  lemma DefaultDeclRemoved(u: string, r: string)
    requires Inert(u) && u != []
    ensures ReplaceFirst(DefaultXmlns, Decl("", u) + r) == r
  {
    var d := Decl("", u);
    DefaultDeclRegrouped(u, r);
    DefaultXmlnsRule(' ', u, r);
    ReplaceFirstHit(DefaultXmlns, d, r);
  }

  /** ` xmlns="u"` followed by `r`, cut where the third scan looks. */
  lemma DefaultDeclRegrouped(u: string, r: string)
    ensures Decl("", u) + r == [' '] + ("xmlns=\"" + (u + ("\"" + r)))
  {
    assert " xmlns" + ("" + "=\"") == [' '] + "xmlns=\"";
  }

  /** The third scan copies text without whitespace and removes the default declaration after it. */
  lemma DefaultDeclAfter(x: string, u: string, r: string)
    requires NoneIn(x, Spaces) && Inert(u) && u != []
    ensures ReplaceFirst(DefaultXmlns, x + (Decl("", u) + r)) == x + r
  {
    DefaultXmlnsStarts();
    DefaultDeclRemoved(u, r);
    ReplaceFirstCopiesAvoiding(DefaultXmlns, Spaces, x, Decl("", u) + r);
  }

  /** The third scan copies the opening of a tag and removes the default declaration after it. */
  lemma DefaultDeclAfterName(m: string, u: string, r: string)
    requires Inert(m) && Inert(u) && u != []
    ensures ReplaceFirst(DefaultXmlns, "<" + ("" + (m + (Decl("", u) + r)))) == "<" + ("" + (m + ("" + r)))
  {
    TagOpenWithoutSpace(m);
    DefaultDeclAfter("<" + m, u, r);
    TagOpenRegrouped(m, Decl("", u) + r);
    TagOpenRegrouped(m, "" + r);
    assert "" + r == r;
  }

  /** The opening of a tag, `<` and an inert name, holds no whitespace. */
  lemma TagOpenWithoutSpace(m: string)
    requires Inert(m)
    ensures NoneIn("<" + m, Spaces)
  {
    forall i | 0 <= i < |"<" + m| ensures ("<" + m)[i] !in Spaces {
      if i > 0 {
        assert ("<" + m)[i] == m[i - 1];
      }
    }
  }

  /** `<`, an empty prefix and a name, regrouped. */
  lemma TagOpenRegrouped(m: string, t: string)
    ensures "<" + ("" + (m + t)) == ("<" + m) + t
  {
    assert "" + (m + t) == m + t;
  }

  /** The third scan removes the default declaration ` xmlns="u"`, the first of its kind. */
  lemma DefaultXmlnsPass(m: string, l: string, v: string, u: string)
    requires Inert(m) && Inert(u) && u != []
    ensures ReplaceFirst(DefaultXmlns, ModuleText("", Decl("", u), m, l, v)) == ModuleText("", "", m, l, v)
  {
    DefaultDeclAfterName(m, u, "><" + ("" + (l + (">" + (v + ("</" + ("" + (l + ("></" + ("" + (m + ">")))))))))));
  }

  /** The last scan finds no prefixed declaration left and changes nothing. */
  lemma PrefixedXmlnsPass(m: string, l: string, v: string)
    requires Inert(m) && Inert(l) && Inert(v)
    ensures ReplaceAll(PrefixedXmlns, ModuleText("", "", m, l, v)) == ModuleText("", "", m, l, v)
  {
    PrefixedXmlnsStarts();
    PassesAvoiding(PrefixedXmlns, Spaces, []);
    ModuleTextScan(PrefixedXmlns, Spaces, "", "", "", "", m, l, v);
  }

  /**
   * `clean_xml_string` on the text of a module whose tags carry the
   * prefix `ns0` bound to the namespace `u`, `<ns0:m xmlns:ns0="u"><ns0:l>v</ns0:l></ns0:m>`,
   * gives the same module without namespaces, `<m><l>v</l></m>`.
   */
  lemma {:induction false} CleanModuleText(m: string, l: string, v: string, u: string)
    requires Inert(m) && Inert(l) && Inert(v) && Inert(u) && u != []
    ensures CleanXml(ModuleText("ns0:", Decl(":ns0", u), m, l, v)) == ModuleText("", "", m, l, v)
  {
    NsPrefixPass(m, l, v, u);
    NsSuffixPass(m, l, v, u);
    DefaultXmlnsPass(m, l, v, u);
    PrefixedXmlnsPass(m, l, v);
  }

  /** The opening tag of the sample module, pieced together as `ModuleText` does. */
  lemma NamespacedHead(t: string)
    ensures "<" + ("ns0:" + ("m" + (" xmlns:ns0=\"u\"" + ("><" + t)))) == "<ns0:m xmlns:ns0=\"u\"><" + t
  {
    assert "<" + "ns0:" + "m" + " xmlns:ns0=\"u\"" + "><" == "<ns0:m xmlns:ns0=\"u\"><";
  }

  /** The leaf and the closing tag of the sample module, pieced together as `ModuleText` does. */
  lemma NamespacedTail()
    ensures "ns0:" + ("l" + (">" + ("v" + ("</" + ("ns0:" + ("l" + ("></" + ("ns0:" + ("m" + ">"))))))))) == "ns0:l>v</ns0:l></ns0:m>"
  {
  }

  /** The sample module with the `ns0` namespace, written out. */
  lemma NamespacedSample()
    ensures ModuleText("ns0:", " xmlns:ns0=\"u\"", "m", "l", "v") == "<ns0:m xmlns:ns0=\"u\"><ns0:l>v</ns0:l></ns0:m>"
  {
    NamespacedTail();
    NamespacedHead("ns0:l>v</ns0:l></ns0:m>");
    assert "<ns0:m xmlns:ns0=\"u\"><" + "ns0:l>v</ns0:l></ns0:m>" == "<ns0:m xmlns:ns0=\"u\"><ns0:l>v</ns0:l></ns0:m>";
  }

  /** The sample module without namespaces, written out. */
  lemma PlainSample()
    ensures ModuleText("", "", "m", "l", "v") == "<m><l>v</l></m>"
  {
    assert "<" + ([] + ("m" + ([] + ("><" + ([] + ("l" + (">" + ("v" + ("</" + ([] + ("l" + ("></" + ([] + ("m" + ">"))))))))))))))
      == "<m><l>v</l></m>";
  }

  /** The example above with the names `m` and `l`, the value `v` and the namespace `u`. */
  lemma CleanModuleTextSample()
    ensures CleanXml("<ns0:m xmlns:ns0=\"u\"><ns0:l>v</ns0:l></ns0:m>") == "<m><l>v</l></m>"
  {
    var m, l, v, u := "m", "l", "v", "u";
    CleanModuleText(m, l, v, u);
    assert Decl(":ns0", "u") == " xmlns:ns0=\"u\"";
    NamespacedSample();
    PlainSample();
  }

  // ---------------------------------------------------------------- parsing

  /**
   * `tag.split('}', 1)[1]` when the tag contains `}`: what follows the
   * first `}`; a tag without `}` is kept.
   */
  function LocalTag(tag: string): (r: string)
    ensures '}' !in tag ==> r == tag
    ensures '}' in tag ==>
      |r| < |tag| && tag[|tag| - |r|..] == r && tag[|tag| - |r| - 1] == '}' && '}' !in tag[..|tag| - |r| - 1]
  {
    var i := RunWithout(tag, '}');
    if i < |tag| then
      assert tag[..i] == tag[..|tag| - |tag[i + 1..]| - 1];
      tag[i + 1..]
    else tag
  }

  /** The Clark notation `{uri}local` of ElementTree loses its namespace part. */
  lemma ClarkNameLocal(uri: string, local: string)
    requires '}' !in uri
    ensures LocalTag("{" + uri + "}" + local) == local
  {
    RunWithoutUpTo("{" + uri, '}', local);
    assert "{" + uri + "}" + local == ("{" + uri) + ['}'] + local;
  }

  /** The document after its tags have lost their `{uri}` part. */
  function Localized(e: PyElement): (r: PyElement)
    ensures r.tag == LocalTag(e.tag) && r.attrib == e.attrib && r.text == e.text
    ensures |r.children| == |e.children|
    ensures forall k :: 0 <= k < |e.children| ==> r.children[k] == Localized(e.children[k])
  {
    PyElement(LocalTag(e.tag), e.attrib, e.text,
      seq(|e.children|, k requires 0 <= k < |e.children| => Localized(e.children[k])))
  }

  /**
   * The loop over the parsed elements in `load_data`: each element whose
   * tag contains `}` has it cut after the first `}`.
   */
  method LocalizeTags(e: PyElement) returns (r: PyElement)
    ensures r == Localized(e)
    decreases e
  {
    var cs: seq<PyElement> := [];
    for k := 0 to |e.children|
      invariant |cs| == k
      invariant forall j :: 0 <= j < k ==> cs[j] == Localized(e.children[j])
    {
      var c := LocalizeTags(e.children[k]);
      cs := cs + [c];
    }
    var tag := e.tag;
    if '}' in tag {
      tag := LocalTag(tag);
    }
    r := PyElement(tag, e.attrib, e.text, cs);
  }

  /** No tag anywhere in the tree contains `}`. */
  predicate PlainTags(e: PyElement) {
    '}' !in e.tag && forall k :: 0 <= k < |e.children| ==> PlainTags(e.children[k])
  }

  /** A document without namespaces comes through the parsing loop unchanged. */
  lemma {:induction false} LocalizedPlain(e: PyElement)
    requires PlainTags(e)
    ensures Localized(e) == e
  {
    forall k | 0 <= k < |e.children| ensures Localized(e.children[k]) == e.children[k] {
      LocalizedPlain(e.children[k]);
    }
    assert Localized(e).children == e.children;
  }

  // ---------------------------------------------------------------- tree building

  /** The index of the first element of `cs` with that tag. */
  function FirstTagged(cs: seq<PyElement>, tag: string): (r: Option<nat>)
    ensures r.Some? ==> r.value < |cs| && cs[r.value].tag == tag
    ensures r.Some? ==> forall j :: 0 <= j < r.value ==> cs[j].tag != tag
    ensures r.None? <==> forall j :: 0 <= j < |cs| ==> cs[j].tag != tag
  {
    if cs == [] then None
    else if cs[0].tag == tag then Some(0)
    else
      var r := FirstTagged(cs[1..], tag);
      assert forall j :: 1 <= j < |cs| ==> cs[j] == cs[1..][j - 1];
      if r.Some? then Some(r.value + 1) else None
  }

  /**
   * The capability element of a child with tag `tag`: the first child of
   * the parent's capability element with the same tag; none when the
   * parent has no capability element or no child of it has that tag.
   */
  function ChildCapability(ctx: Option<PyElement>, tag: string): (r: Option<PyElement>)
    ensures ctx.None? ==> r.None?
    ensures ctx.Some? ==> (r.None? <==> forall j :: 0 <= j < |ctx.value.children| ==> ctx.value.children[j].tag != tag)
    ensures r.Some? ==> r.value.tag == tag && r.value in ctx.value.children
    ensures r.Some? ==>
      exists i :: 0 <= i < |ctx.value.children| && ctx.value.children[i] == r.value &&
        forall j :: 0 <= j < i ==> ctx.value.children[j].tag != tag
  {
    if ctx.None? then None
    else
      var i := FirstTagged(ctx.value.children, tag);
      if i.Some? then Some(ctx.value.children[i.value]) else None
  }

  /** The value column of a row: empty for an element with children, else its stripped text (`""` for no text). */
  function DisplayValue(e: PyElement): (r: string)
    ensures e.children != [] ==> r == []
    ensures e.children == [] ==> r == Trim(e.text.GetOr([]))
  {
    if |e.children| > 0 then [] else Trim(e.text.GetOr([]))
  }

  // ---------------------------------------------------------------- editor kind

  /** `attrib.get(key)`. */
  function Get(attrib: map<string, string>, key: string): (r: Option<string>)
    ensures r.Some? <==> key in attrib
  {
    if key in attrib then Some(attrib[key]) else None
  }

  /** Python truthiness of an attribute lookup: present and not empty. */
  predicate Truthy(v: Option<string>) {
    v.Some? && v.value != []
  }

  /** `attrib.get('opt') or attrib.get('options')`. */
  function OptString(attrib: map<string, string>): (r: Option<string>)
    ensures Truthy(r) <==> Truthy(Get(attrib, "opt")) || Truthy(Get(attrib, "options"))
    ensures Truthy(Get(attrib, "opt")) ==> r == Get(attrib, "opt")
  {
    if Truthy(Get(attrib, "opt")) then Get(attrib, "opt") else Get(attrib, "options")
  }

  /** The editor `on_tree_select` builds: a text field, a slider over a range, or a list of options. */
  datatype EditType = TextEdit | RangeEdit(lo: int, hi: int) | ListEdit(options: seq<string>)

  /** Both bounds are present, not empty, and read by `int()`. */
  predicate HasIntBounds(attrib: map<string, string>) {
    Truthy(Get(attrib, "min")) && Truthy(Get(attrib, "max")) &&
    PyInt(Get(attrib, "min").value).Some? && PyInt(Get(attrib, "max").value).Some?
  }

  /**
   * The editor kind for a capability element: a non-empty `opt` (or else
   * `options`) text wins and gives the list of its stripped, non-empty
   * parts between `;` and `,`; otherwise two integer bounds give a range;
   * otherwise, and without a capability element, a text field.
   */
  function EditKind(cap: Option<PyElement>): (r: EditType)
    ensures cap.None? ==> r == TextEdit
    ensures r.ListEdit? <==> cap.Some? && Truthy(OptString(cap.value.attrib))
    ensures r.ListEdit? ==> r.options == SplitOptions(OptString(cap.value.attrib).value, {';', ','})
    ensures r.RangeEdit? <==> cap.Some? && !Truthy(OptString(cap.value.attrib)) && HasIntBounds(cap.value.attrib)
    ensures r.RangeEdit? ==>
      PyInt(Get(cap.value.attrib, "min").value) == Some(r.lo) &&
      PyInt(Get(cap.value.attrib, "max").value) == Some(r.hi)
  {
    if cap.None? then TextEdit
    else
      var a := cap.value.attrib;
      var kind :=
        if HasIntBounds(a) then RangeEdit(PyInt(Get(a, "min").value).value, PyInt(Get(a, "max").value).value)
        else TextEdit;
      var opt := OptString(a);
      if Truthy(opt) then
        PythonAndScriptOptionsAgree(opt.value);
        ListEdit(SplitOptions(ReplaceChar(opt.value, ';', ','), {','}))
      else kind
  }

  /** Every option offered is non-empty, carries no surrounding whitespace and no separator. */
  lemma EditOptionsWellFormed(cap: Option<PyElement>)
    requires EditKind(cap).ListEdit?
    ensures forall k :: 0 <= k < |EditKind(cap).options| ==>
      var o := EditKind(cap).options[k]; o != [] && IsTrimmed(o) && ';' !in o && ',' !in o
  {
    var s := OptString(cap.value.attrib).value;
    SplitOptionsWellFormed(s, {';', ','});
  }

  /** The slider's bounds are the ones the web front end reads with `parseInt` from the same attributes. */
  lemma RangeBoundsAgreeWithScript(cap: Option<PyElement>)
    requires EditKind(cap).RangeEdit?
    ensures JsParseInt(Get(cap.value.attrib, "min").value) == Num(EditKind(cap).lo)
    ensures JsParseInt(Get(cap.value.attrib, "max").value) == Num(EditKind(cap).hi)
  {
    PyIntAgreesWithJsParseInt(Get(cap.value.attrib, "min").value);
    PyIntAgreesWithJsParseInt(Get(cap.value.attrib, "max").value);
  }

  // ---------------------------------------------------------------- Loxone placeholder

  /**
   * `xml_body.replace(pattern, replacement)` of `show_loxone`: every
   * `<tag>value</tag>` becomes `<tag>\v</tag>`; a body without it is kept.
   */
  function DimmerBody(body: string, tag: string, value: string): (r: string)
    ensures !Contains(body, App.ValueTag(tag, value)) ==> r == body
  {
    var m := Literal(App.ValueTag(tag, value), App.ValueTag(tag, App.PLACEHOLDER));
    LiteralHitIffContains(App.ValueTag(tag, value), App.ValueTag(tag, App.PLACEHOLDER), body);
    assert !Contains(body, App.ValueTag(tag, value)) ==> ReplaceAll(m, body) == body by {
      if !Contains(body, App.ValueTag(tag, value)) {
        ReplaceAllNoHit(m, body);
      }
    }
    ReplaceAll(m, body)
  }

  /**
   * The desktop tool replaces every `<tag>value</tag>`, the web front end
   * only the first; for a body holding it at most once the Loxone bodies
   * agree.
   */
  lemma DimmerBodyAgreesWithScript(body: string, tag: string, value: string)
    requires Contains(body, App.ValueTag(tag, value))
    requires forall i: nat, j: nat ::
      OccursAt(body, App.ValueTag(tag, value), i) && OccursAt(body, App.ValueTag(tag, value), j) ==> i == j
    ensures DimmerBody(body, tag, value) == App.SubstitutePlaceholder(body, tag, value, true).0
  {
    LiteralOnceReplaceFirstIsAll(App.ValueTag(tag, value), App.ValueTag(tag, App.PLACEHOLDER), body);
  }
}
