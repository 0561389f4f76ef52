/**
 * Character classes and the small string routines that both front ends use:
 * trimming, splitting an option list, and decimal integer parsing.
 *
 * Whitespace, word characters and digits are the ASCII ones; JavaScript's
 * `trim`/`\s` and Python's `strip`/`\s` also accept further Unicode spaces,
 * which this model does not. Python's whitespace also takes in the control
 * characters U+001C to U+001F, which JavaScript's does not; the class here
 * leaves them out, so the Python side is modelled on text without them.
 */
module Strings {
  import opened Wrappers

  predicate IsSpace(c: char) {
    c == ' ' || c == '\t' || c == '\n' || c == '\r' || c == '\U{000B}' || c == '\U{000C}'
  }

  predicate IsDigit(c: char) {
    '0' <= c <= '9'
  }

  /** The class `\w` of a regular expression. */
  predicate IsWordChar(c: char) {
    ('a' <= c <= 'z') || ('A' <= c <= 'Z') || IsDigit(c) || c == '_'
  }

  predicate AllSpace(s: string) {
    forall i :: 0 <= i < |s| ==> IsSpace(s[i])
  }

  predicate AllDigits(s: string) {
    forall i :: 0 <= i < |s| ==> IsDigit(s[i])
  }

  /** A non-empty run of word characters, the text matched by `\w+`. */
  predicate IsWord(s: string) {
    |s| > 0 && forall i :: 0 <= i < |s| ==> IsWordChar(s[i])
  }

  predicate StartsWith(s: string, p: string) {
    p <= s
  }

  /** `s` occurs somewhere inside `t` (JavaScript `includes`, Python `in`). */
  predicate Contains(t: string, s: string) {
    exists i: nat :: i <= |t| && OccursAt(t, s, i)
  }

  predicate OccursAt(t: string, s: string, i: nat) {
    i + |s| <= |t| && t[i..i + |s|] == s
  }

  /** Length of the longest prefix of `s` made of word characters (a greedy `\w*`). */
  function WordRun(s: string): (n: nat)
    ensures n <= |s| && forall i :: 0 <= i < n ==> IsWordChar(s[i])
    ensures n < |s| ==> !IsWordChar(s[n])
  {
    if s != [] && IsWordChar(s[0]) then 1 + WordRun(s[1..]) else 0
  }

  /** A greedy run of word characters stops exactly at the end of a word. */
  lemma {:induction false} WordRunOfWord(w: string, rest: string)
    requires forall i :: 0 <= i < |w| ==> IsWordChar(w[i])
    requires rest == [] || !IsWordChar(rest[0])
    ensures WordRun(w + rest) == |w|
    decreases |w|
  {
    if w != [] {
      assert (w + rest)[1..] == w[1..] + rest;
      WordRunOfWord(w[1..], rest);
    } else {
      assert w + rest == rest;
    }
  }

  /** Length of the longest prefix of `s` free of `c` (a greedy `[^c]*`). */
  function RunWithout(s: string, c: char): (n: nat)
    ensures n <= |s| && forall i :: 0 <= i < n ==> s[i] != c
    ensures n < |s| ==> s[n] == c
  {
    if s != [] && s[0] != c then 1 + RunWithout(s[1..], c) else 0
  }

  lemma {:induction false} RunWithoutUpTo(v: string, c: char, rest: string)
    requires forall i :: 0 <= i < |v| ==> v[i] != c
    ensures RunWithout(v + [c] + rest, c) == |v|
    decreases |v|
  {
    if v != [] {
      assert (v + [c] + rest)[1..] == v[1..] + [c] + rest;
      RunWithoutUpTo(v[1..], c, rest);
    }
  }

  // ---------------------------------------------------------------- trimming

  /** How many whitespace characters lead `s`. */
  function Leading(s: string): (n: nat)
    ensures n <= |s| && AllSpace(s[..n])
    ensures n < |s| ==> !IsSpace(s[n])
  {
    if s != [] && IsSpace(s[0]) then
      var n := 1 + Leading(s[1..]);
      assert s[..n] == [s[0]] + s[1..][..n - 1];
      n
    else 0
  }

  /** How many whitespace characters end `s`. */
  function Trailing(s: string): (n: nat)
    ensures n <= |s| && AllSpace(s[|s| - n..])
    ensures n < |s| ==> !IsSpace(s[|s| - n - 1])
  {
    if s != [] && IsSpace(s[|s| - 1]) then
      var p := s[..|s| - 1];
      var m := Trailing(p);
      var n := 1 + m;
      var t := s[|s| - n..];
      forall k | 0 <= k < |t| ensures IsSpace(t[k]) {
        if k < m {
          assert t[k] == p[|p| - m..][k];
        }
      }
      assert n < |s| ==> p[|p| - m - 1] == s[|s| - n - 1];
      n
    else 0
  }

  /** Neither starts nor ends with whitespace. */
  predicate IsTrimmed(s: string) {
    s == [] || (!IsSpace(s[0]) && !IsSpace(s[|s| - 1]))
  }

  /** `trimStart()`: `s` without its leading whitespace. */
  function TrimStart(s: string): string
  {
    s[Leading(s)..]
  }

  /**
   * `trim()` / `strip()`: `s` without its leading and trailing whitespace,
   * the longest infix that neither starts nor ends with whitespace.
   */
  function Trim(s: string): (r: string)
    ensures var i := Leading(s); i + |r| <= |s| && r == s[i..i + |r|] && AllSpace(s[i + |r|..])
    ensures IsTrimmed(r)
  {
    var t := TrimStart(s);
    var r := t[..|t| - Trailing(t)];
    var i := Leading(s);
    assert r == s[i..i + |r|];
    assert s[i + |r|..] == t[|r|..];
    assert r != [] ==> r[0] == s[i] && r[|r| - 1] == t[|r| - 1];
    r
  }

  lemma TrimOfTrimmed(s: string)
    requires IsTrimmed(s)
    ensures Trim(s) == s
  {
    assert Leading(s) == 0;
    assert Trailing(s) == 0;
  }

  /** Trimming twice is trimming once. */
  lemma TrimIdempotent(s: string)
    ensures Trim(Trim(s)) == Trim(s)
  {
    TrimOfTrimmed(Trim(s));
  }

  /** A string trims to nothing exactly when it is all whitespace. */
  lemma TrimEmptyIffBlank(s: string)
    ensures Trim(s) == [] <==> AllSpace(s)
  {
    var r := Trim(s);
  }

  // ---------------------------------------------------------------- splitting

  predicate NoneIn(s: string, seps: set<char>) {
    forall i :: 0 <= i < |s| ==> s[i] !in seps
  }

  /** Number of characters of `s` that belong to `seps`. */
  function CountIn(s: string, seps: set<char>): nat
  {
    if s == [] then 0 else (if s[0] in seps then 1 else 0) + CountIn(s[1..], seps)
  }

  /**
   * Splitting on any character of `seps` (JavaScript `split(/[;,]/)`, Python
   * `split(',')`): the parts between separators, empty ones included, so the
   * result always has at least one part and no part holds a separator.
   */
  function SplitAny(s: string, seps: set<char>): (parts: seq<string>)
    ensures |parts| >= 1
    ensures forall k :: 0 <= k < |parts| ==> NoneIn(parts[k], seps)
  {
    if s == [] then [[]]
    else
      var rest := SplitAny(s[1..], seps);
      if s[0] in seps then [[]] + rest
      else [[s[0]] + rest[0]] + rest[1..]
  }

  /** There is one more part than there are separators. */
  lemma {:induction false} SplitAnyCount(s: string, seps: set<char>)
    ensures |SplitAny(s, seps)| == CountIn(s, seps) + 1
  {
    if s != [] {
      SplitAnyCount(s[1..], seps);
    }
  }

  /** Joining parts back together with one separator character. */
  function Join(parts: seq<string>, sep: char): string
    requires |parts| >= 1
  {
    if |parts| == 1 then parts[0] else parts[0] + [sep] + Join(parts[1..], sep)
  }

  /** With a single separator character, splitting loses nothing: joining the parts gives back the input. */
  lemma {:induction false} SplitJoin(s: string, sep: char)
    ensures Join(SplitAny(s, {sep}), sep) == s
  {
    if s != [] {
      SplitJoin(s[1..], sep);
      var rest := SplitAny(s[1..], {sep});
      if s[0] != sep {
        if |rest| == 1 {
        } else {
          assert ([s[0]] + rest[0]) + [sep] + Join(rest[1..], sep) == [s[0]] + (rest[0] + [sep] + Join(rest[1..], sep));
        }
      }
    }
  }

  /** Every occurrence of `a` replaced by `b` (Python `str.replace` with single characters). */
  function ReplaceChar(s: string, a: char, b: char): (r: string)
    ensures |r| == |s|
    ensures forall i :: 0 <= i < |s| ==> r[i] == (if s[i] == a then b else s[i])
  {
    if s == [] then [] else [if s[0] == a then b else s[0]] + ReplaceChar(s[1..], a, b)
  }

  /**
   * Turning one separator into another and splitting on the second is
   * splitting on either of them.
   */
  lemma {:induction false} SplitAfterReplace(s: string, a: char, b: char)
    ensures SplitAny(ReplaceChar(s, a, b), {b}) == SplitAny(s, {a, b})
  {
    if s != [] {
      SplitAfterReplace(s[1..], a, b);
      assert ReplaceChar(s, a, b)[1..] == ReplaceChar(s[1..], a, b);
    }
  }

  /**
   * Trims every part and drops those that trim to nothing, keeping the
   * order: every part that is not blank is kept, trimmed, and nothing else
   * is.
   */
  function TrimmedNonEmpty(parts: seq<string>): (r: seq<string>)
    ensures |r| <= |parts|
    ensures forall k :: 0 <= k < |r| ==> r[k] != [] && IsTrimmed(r[k])
    ensures forall k :: 0 <= k < |parts| && Trim(parts[k]) != [] ==> Trim(parts[k]) in r
    ensures forall x :: x in r ==> exists k :: 0 <= k < |parts| && x == Trim(parts[k])
  {
    if parts == [] then []
    else
      var rest := TrimmedNonEmpty(parts[1..]);
      TrimmedConsWellFormed(parts, rest);
      TrimmedConsKeeps(parts, rest);
      TrimmedConsOnly(parts, rest);
      TrimmedCons(parts, rest)
  }

  /** One step of `TrimmedNonEmpty`: the first part, trimmed, in front of the rest unless it is blank. */
  function TrimmedCons(parts: seq<string>, rest: seq<string>): seq<string>
    requires parts != []
  {
    var t := Trim(parts[0]);
    if t == [] then rest else [t] + rest
  }

  lemma TrimmedConsWellFormed(parts: seq<string>, rest: seq<string>)
    requires parts != [] && |rest| <= |parts| - 1
    requires forall k :: 0 <= k < |rest| ==> rest[k] != [] && IsTrimmed(rest[k])
    ensures |TrimmedCons(parts, rest)| <= |parts|
    ensures forall k :: 0 <= k < |TrimmedCons(parts, rest)| ==>
      TrimmedCons(parts, rest)[k] != [] && IsTrimmed(TrimmedCons(parts, rest)[k])
  {
    var r := TrimmedCons(parts, rest);
    forall k | 0 <= k < |r| ensures r[k] != [] && IsTrimmed(r[k]) {
      if Trim(parts[0]) != [] && k > 0 {
        assert r[k] == rest[k - 1];
      }
    }
  }

  lemma TrimmedConsKeeps(parts: seq<string>, rest: seq<string>)
    requires parts != []
    requires forall k :: 0 <= k < |parts[1..]| && Trim(parts[1..][k]) != [] ==> Trim(parts[1..][k]) in rest
    ensures forall k :: 0 <= k < |parts| && Trim(parts[k]) != [] ==> Trim(parts[k]) in TrimmedCons(parts, rest)
  {
    forall k | 1 <= k < |parts| && Trim(parts[k]) != [] ensures Trim(parts[k]) in TrimmedCons(parts, rest) {
      assert parts[k] == parts[1..][k - 1];
    }
  }

  lemma TrimmedConsOnly(parts: seq<string>, rest: seq<string>)
    requires parts != []
    requires forall x :: x in rest ==> exists k :: 0 <= k < |parts[1..]| && x == Trim(parts[1..][k])
    ensures forall x :: x in TrimmedCons(parts, rest) ==> exists k :: 0 <= k < |parts| && x == Trim(parts[k])
  {
    forall x | x in TrimmedCons(parts, rest) ensures exists k :: 0 <= k < |parts| && x == Trim(parts[k]) {
      if x in rest {
        var j :| 0 <= j < |parts| - 1 && x == Trim(parts[1..][j]);
        assert parts[1..][j] == parts[j + 1];
      } else {
        assert x == Trim(parts[0]);
      }
    }
  }

  /** Trimming a list part by part: the options of two lists are those of each, in order. */
  lemma {:induction false} TrimmedNonEmptyAppend(a: seq<string>, b: seq<string>)
    ensures TrimmedNonEmpty(a + b) == TrimmedNonEmpty(a) + TrimmedNonEmpty(b)
  {
    if a != [] {
      assert (a + b)[1..] == a[1..] + b;
      TrimmedNonEmptyAppend(a[1..], b);
    } else {
      assert a + b == b;
    }
  }

  /** The option list of an `opt` attribute: split on the separators, trimmed, empties dropped. */
  function SplitOptions(s: string, seps: set<char>): (r: seq<string>)
  {
    TrimmedNonEmpty(SplitAny(s, seps))
  }

  lemma TrimKeepsNoneIn(s: string, seps: set<char>)
    requires NoneIn(s, seps)
    ensures NoneIn(Trim(s), seps)
  {
    var r := Trim(s);
    var i := Leading(s);
    forall k | 0 <= k < |r| ensures r[k] !in seps {
      assert r[k] == s[i + k];
    }
  }

  lemma {:induction false} TrimmedNonEmptyKeepsNoneIn(parts: seq<string>, seps: set<char>)
    requires forall k :: 0 <= k < |parts| ==> NoneIn(parts[k], seps)
    ensures forall k :: 0 <= k < |TrimmedNonEmpty(parts)| ==> NoneIn(TrimmedNonEmpty(parts)[k], seps)
  {
    if parts != [] {
      TrimKeepsNoneIn(parts[0], seps);
      forall k | 0 <= k < |parts[1..]| ensures NoneIn(parts[1..][k], seps) {
        assert parts[1..][k] == parts[k + 1];
      }
      TrimmedNonEmptyKeepsNoneIn(parts[1..], seps);
      var rest := TrimmedNonEmpty(parts[1..]);
      var r := TrimmedNonEmpty(parts);
      assert r == TrimmedCons(parts, rest);
      forall k | 0 <= k < |r| ensures NoneIn(r[k], seps) {
        if Trim(parts[0]) != [] && k > 0 {
          assert r[k] == rest[k - 1];
        }
      }
    }
  }

  /**
   * Every option is non-empty, already trimmed and free of separators.
   */
  lemma SplitOptionsWellFormed(s: string, seps: set<char>)
    ensures forall k :: 0 <= k < |SplitOptions(s, seps)| ==>
      var o := SplitOptions(s, seps)[k]; o != [] && IsTrimmed(o) && NoneIn(o, seps)
  {
    TrimmedNonEmptyKeepsNoneIn(SplitAny(s, seps), seps);
  }

  /** Python's `replace(';', ',').split(',')` yields the same options as JavaScript's `split(/[;,]/)`. */
  lemma PythonAndScriptOptionsAgree(s: string)
    ensures SplitOptions(ReplaceChar(s, ';', ','), {','}) == SplitOptions(s, {';', ','})
  {
    SplitAfterReplace(s, ';', ',');
  }

  // ---------------------------------------------------------------- integers

  function DigitValue(c: char): nat
    requires IsDigit(c)
  {
    (c as int) - ('0' as int)
  }

  function DigitChar(d: nat): (c: char)
    requires d < 10
    ensures IsDigit(c) && DigitValue(c) == d
  {
    ('0' as int + d) as char
  }

  /** The value of a string of decimal digits, most significant first. */
  function DigitsValue(ds: string): nat
    requires AllDigits(ds)
  {
    if ds == [] then 0 else DigitsValue(ds[..|ds| - 1]) * 10 + DigitValue(ds[|ds| - 1])
  }

  /** Length of the longest prefix of `s` made of digits. */
  function DigitRun(s: string): (n: nat)
    ensures n <= |s| && AllDigits(s[..n])
    ensures n < |s| ==> !IsDigit(s[n])
  {
    if s != [] && IsDigit(s[0]) then
      var n := 1 + DigitRun(s[1..]);
      assert s[..n] == [s[0]] + s[1..][..n - 1];
      n
    else 0
  }

  /** The canonical decimal spelling of a natural number. */
  function ShowNat(n: nat): (r: string)
    ensures |r| >= 1 && AllDigits(r)
  {
    if n < 10 then [DigitChar(n)] else ShowNat(n / 10) + [DigitChar(n % 10)]
  }

  /** The canonical decimal spelling of an integer, with a leading `-` when negative. */
  function ShowInt(n: int): string
  {
    if n < 0 then "-" + ShowNat(-n) else ShowNat(n)
  }

  lemma {:induction false} ShowNatValue(n: nat)
    ensures DigitsValue(ShowNat(n)) == n
  {
    if n >= 10 {
      ShowNatValue(n / 10);
      var s := ShowNat(n);
      assert s[..|s| - 1] == ShowNat(n / 10);
    }
  }

  /** A JavaScript number as `parseInt` returns it: an integer or `NaN`. */
  datatype JsNumber = NaN | Num(value: int)

  /** Splits off an optional leading sign. */
  function SignAndBody(t: string): (r: (bool, string))
    ensures r.1 == (if t != [] && (t[0] == '-' || t[0] == '+') then t[1..] else t)
  {
    if t != [] && (t[0] == '-' || t[0] == '+') then (t[0] == '-', t[1..]) else (false, t)
  }

  /** An optional sign and the longest run of digits after it; `NaN` when that run is empty. */
  function LeadingInteger(t: string): JsNumber
  {
    var sb := SignAndBody(t);
    var k := DigitRun(sb.1);
    if k == 0 then NaN
    else
      var v: int := DigitsValue(sb.1[..k]);
      Num(if sb.0 then -v else v)
  }

  /**
   * `parseInt(s, 10)`: skip leading whitespace, read an optional sign, then the
   * longest run of decimal digits; `NaN` when that run is empty. Characters
   * after the digits are ignored.
   */
  function JsParseInt(s: string): JsNumber
  {
    LeadingInteger(TrimStart(s))
  }

  /** An optional sign followed by one or more digits and nothing else. */
  function Numeral(t: string): Option<int>
  {
    var sb := SignAndBody(t);
    if sb.1 != [] && AllDigits(sb.1) then
      var v: int := DigitsValue(sb.1);
      Some(if sb.0 then -v else v)
    else None
  }

  /**
   * Python's `int(s)`: the whole string, once stripped of surrounding
   * whitespace, must be an optional sign followed by at least one digit.
   */
  function PyInt(s: string): Option<int>
  {
    Numeral(Trim(s))
  }

  lemma DigitRunOfDigits(ds: string, rest: string)
    requires AllDigits(ds)
    requires rest == [] || !IsDigit(rest[0])
    ensures DigitRun(ds + rest) == |ds|
    decreases |ds|
  {
    if ds != [] {
      assert (ds + rest)[1..] == ds[1..] + rest;
      DigitRunOfDigits(ds[1..], rest);
    }
  }

  /**
   * `parseInt` reads back the decimal spelling of any integer, whatever
   * non-digit text follows it.
   */
  lemma JsParseIntShowInt(n: int, rest: string)
    requires rest == [] || !IsDigit(rest[0])
    ensures JsParseInt(ShowInt(n) + rest) == Num(n)
  {
    var s := ShowInt(n) + rest;
    NumeralShowInt(n);
    assert s[0] == ShowInt(n)[0];
    assert TrimStart(s) == s;
    LeadingIntegerOfNumeral(ShowInt(n), rest);
  }

  /** The decimal spelling of an integer is a numeral of that value, without surrounding whitespace. */
  lemma NumeralShowInt(n: int)
    ensures Numeral(ShowInt(n)) == Some(n) && IsTrimmed(ShowInt(n))
  {
    var m: nat := if n < 0 then -n else n;
    ShowNatValue(m);
    assert SignAndBody(ShowInt(n)).1 == ShowNat(m);
  }

  /** `int` reads back the decimal spelling of any integer. */
  lemma PyIntShowInt(n: int)
    ensures PyInt(ShowInt(n)) == Some(n)
  {
    NumeralShowInt(n);
    TrimOfTrimmed(ShowInt(n));
  }

  /** The suffix from `a` is the infix `r` found there followed by the rest. */
  lemma SuffixAfterInfix(s: string, t: string, r: string, a: nat)
    requires a + |r| <= |s| && t == s[a..] && r == s[a..a + |r|]
    ensures t == r + s[a + |r|..]
  {
  }

  /** A signed numeral followed by anything but a digit is read to its own value. */
  lemma LeadingIntegerOfNumeral(r: string, tail: string)
    requires Numeral(r).Some?
    requires tail == [] || !IsDigit(tail[0])
    ensures LeadingInteger(r + tail) == Num(Numeral(r).value)
  {
    var t := r + tail;
    var sb := SignAndBody(r);
    var body := sb.1;
    assert SignAndBody(t) == (sb.0, body + tail) by {
      assert t[0] == r[0];
      if r[0] == '-' || r[0] == '+' {
        assert t[1..] == r[1..] + tail;
      }
    }
    DigitRunOfDigits(body, tail);
    assert (body + tail)[..|body|] == body;
  }

  /** A numeral followed by whitespace only is read to its own value. */
  lemma LeadingIntegerBeforeSpace(t: string, r: string, tail: string)
    requires t == r + tail && Numeral(r).Some? && AllSpace(tail)
    ensures LeadingInteger(t) == Num(Numeral(r).value)
  {
    if tail != [] {
      assert IsSpace(tail[0]);
    }
    LeadingIntegerOfNumeral(r, tail);
  }

  /**
   * Whenever Python's `int` accepts a string, `parseInt` reads the same value
   * from it: the two implementations never disagree on a value both accept.
   */
  lemma PyIntAgreesWithJsParseInt(s: string)
    requires PyInt(s).Some?
    ensures JsParseInt(s) == Num(PyInt(s).value)
  {
    SuffixAfterInfix(s, TrimStart(s), Trim(s), Leading(s));
    LeadingIntegerBeforeSpace(TrimStart(s), Trim(s), s[Leading(s) + |Trim(s)|..]);
  }
}
