/**
 * Left-to-right regular-expression replacement over strings.
 *
 * A pattern is modelled by a matcher: a function that looks at the text not
 * yet scanned and says whether a match starts at its first character, how
 * long it is and what replaces it. Every pattern of the two front ends
 * consumes at least one character and, after its greedy runs, has a single
 * way to match, so a matcher captures it exactly.
 *
 * `ReplaceAll` is JavaScript `replace(/…/g, …)` and Python `re.sub`; it
 * resumes scanning right after each match. `ReplaceFirst` is a replacement
 * without the global flag (`re.sub(…, count=1)`, `String.replace` with a
 * string pattern).
 */
module Scan {
  import opened Wrappers
  import opened Strings

  /** A match at the start of the remaining text: its length and its replacement. */
  datatype Hit = Hit(len: nat, repl: string)

  type Matcher = string -> Option<Hit>

  /** `m` matches a non-empty prefix of `t`. */
  predicate HitAt(m: Matcher, t: string) {
    m(t).Some? && 1 <= m(t).value.len <= |t|
  }

  /** No position of `s` starts a match. */
  predicate NoHit(m: Matcher, s: string) {
    forall i :: 0 <= i < |s| ==> !HitAt(m, s[i..])
  }

  /** Every match puts back less text than it consumes (all the stripping patterns). */
  ghost predicate Shrinking(m: Matcher) {
    forall t :: HitAt(m, t) ==> |m(t).value.repl| < m(t).value.len
  }

  /** Every match, resuming after each, replaced; the text between matches copied. */
  function ReplaceAll(m: Matcher, s: string): string
    decreases |s|
  {
    if s == [] then []
    else if HitAt(m, s) then m(s).value.repl + ReplaceAll(m, s[m(s).value.len..])
    else [s[0]] + ReplaceAll(m, s[1..])
  }

  /** Only the leftmost match replaced. */
  function ReplaceFirst(m: Matcher, s: string): string
  {
    if s == [] then []
    else if HitAt(m, s) then m(s).value.repl + s[m(s).value.len..]
    else [s[0]] + ReplaceFirst(m, s[1..])
  }

  /** Where the leftmost match starts, if there is one. */
  function FirstHit(m: Matcher, s: string): (r: Option<nat>)
    ensures r.Some? ==> r.value < |s| && HitAt(m, s[r.value..])
    ensures r.Some? ==> forall j :: 0 <= j < r.value ==> !HitAt(m, s[j..])
    ensures r.None? ==> NoHit(m, s)
  {
    if s == [] then None
    else if HitAt(m, s) then Some(0)
    else
      var r := FirstHit(m, s[1..]);
      var n := if r.Some? then r.value + 1 else |s|;
      NoHitBefore(m, s, n);
      if r.Some? then
        assert s[1..][r.value..] == s[n..];
        Some(n)
      else None
  }

  /** No match at the front and none in the first `n - 1` positions of the tail: none in the first `n`. */
  lemma NoHitBefore(m: Matcher, s: string, n: nat)
    requires s != [] && !HitAt(m, s) && n <= |s|
    requires forall j :: 0 <= j < n - 1 ==> !HitAt(m, s[1..][j..])
    ensures forall j :: 0 <= j < n ==> !HitAt(m, s[j..])
  {
    forall j | 0 <= j < n ensures !HitAt(m, s[j..]) {
      if j == 0 {
        assert s[j..] == s;
      } else {
        assert s[1..][j - 1..] == s[j..];
      }
    }
  }

  lemma NoHitTail(m: Matcher, s: string)
    requires s != [] && NoHit(m, s)
    ensures NoHit(m, s[1..])
  {
    forall i | 0 <= i < |s| - 1 ensures !HitAt(m, s[1..][i..]) {
      assert s[1..][i..] == s[i + 1..];
    }
  }

  /** A string without matches comes through a global replacement unchanged. */
  lemma {:induction false} ReplaceAllNoHit(m: Matcher, s: string)
    requires NoHit(m, s)
    ensures ReplaceAll(m, s) == s
    decreases |s|
  {
    if s != [] {
      assert s[0..] == s;
      NoHitTail(m, s);
      ReplaceAllNoHit(m, s[1..]);
    }
  }

  /**
   * With a shrinking pattern the result is never longer than the input, and
   * strictly shorter as soon as anything matched.
   */
  lemma {:induction false} ReplaceAllShrinks(m: Matcher, s: string)
    requires Shrinking(m)
    ensures |ReplaceAll(m, s)| <= |s|
    ensures !NoHit(m, s) ==> |ReplaceAll(m, s)| < |s|
    decreases |s|
  {
    if s != [] {
      if HitAt(m, s) {
        ReplaceAllShrinks(m, s[m(s).value.len..]);
      } else {
        ReplaceAllShrinks(m, s[1..]);
        if !NoHit(m, s) {
          var i :| 0 <= i < |s| && HitAt(m, s[i..]);
          assert i != 0 by { assert s[0..] == s; }
          assert s[1..][i - 1..] == s[i..];
        }
      }
    }
  }

  /** A shrinking global replacement leaves a string unchanged exactly when nothing in it matches. */
  lemma ReplaceAllUnchangedIff(m: Matcher, s: string)
    requires Shrinking(m)
    ensures ReplaceAll(m, s) == s <==> NoHit(m, s)
  {
    ReplaceAllShrinks(m, s);
    if NoHit(m, s) {
      ReplaceAllNoHit(m, s);
    }
  }

  /**
   * Text in which no position starts a match is copied, and scanning picks
   * up right after it.
   */
  lemma {:induction false} ReplaceAllCopies(m: Matcher, x: string, rest: string)
    requires forall i :: 0 <= i < |x| ==> !HitAt(m, (x + rest)[i..])
    ensures ReplaceAll(m, x + rest) == x + ReplaceAll(m, rest)
    decreases |x|
  {
    if x != [] {
      var s := x + rest;
      assert s[0..] == s;
      assert !HitAt(m, s);
      assert s[1..] == x[1..] + rest;
      forall i | 0 <= i < |x| - 1 ensures !HitAt(m, (x[1..] + rest)[i..]) {
        assert (x[1..] + rest)[i..] == s[i + 1..];
      }
      ReplaceAllCopies(m, x[1..], rest);
      calc {
        ReplaceAll(m, s);
        [s[0]] + ReplaceAll(m, x[1..] + rest);
        [x[0]] + (x[1..] + ReplaceAll(m, rest));
        { assert [x[0]] + x[1..] == x; }
        x + ReplaceAll(m, rest);
      }
    } else {
      assert x + rest == rest;
    }
  }

  /** Every match of `m` begins with a character of `starts`. */
  ghost predicate StartsIn(m: Matcher, starts: set<char>) {
    forall t :: HitAt(m, t) ==> t[0] in starts
  }

  /** Text free of every character a match can begin with is copied. */
  lemma ReplaceAllCopiesAvoiding(m: Matcher, starts: set<char>, x: string, rest: string)
    requires StartsIn(m, starts) && NoneIn(x, starts)
    ensures ReplaceAll(m, x + rest) == x + ReplaceAll(m, rest)
  {
    forall i | 0 <= i < |x| ensures !HitAt(m, (x + rest)[i..]) {
      assert (x + rest)[i..][0] == x[i];
    }
    ReplaceAllCopies(m, x, rest);
  }

  /** A match spanning exactly `x` is replaced, and scanning resumes right after it. */
  lemma ReplaceAllHit(m: Matcher, x: string, rest: string)
    requires x != [] && m(x + rest).Some? && m(x + rest).value.len == |x|
    ensures ReplaceAll(m, x + rest) == m(x + rest).value.repl + ReplaceAll(m, rest)
  {
    assert (x + rest)[|x|..] == rest;
  }

  /** Scanning `x` followed by any text gives `y` followed by the scan of that text. */
  ghost predicate Passes(m: Matcher, x: string, y: string) {
    forall rest :: ReplaceAll(m, x + rest) == y + ReplaceAll(m, rest)
  }

  /** Text free of every character a match can begin with passes through unchanged. */
  lemma PassesAvoiding(m: Matcher, starts: set<char>, x: string)
    requires StartsIn(m, starts) && NoneIn(x, starts)
    ensures Passes(m, x, x)
  {
    forall rest ensures ReplaceAll(m, x + rest) == x + ReplaceAll(m, rest) {
      ReplaceAllCopiesAvoiding(m, starts, x, rest);
    }
  }

  /** Two pieces scanned one after the other. */
  lemma PassesJoin(m: Matcher, x1: string, y1: string, x2: string, y2: string)
    requires Passes(m, x1, y1) && Passes(m, x2, y2)
    ensures Passes(m, x1 + x2, y1 + y2)
  {
    forall rest ensures ReplaceAll(m, (x1 + x2) + rest) == (y1 + y2) + ReplaceAll(m, rest) {
      PassesJoinAt(m, x1, y1, x2, y2, rest);
    }
  }

  /** `PassesJoin` for one text after the two pieces. */
  lemma PassesJoinAt(m: Matcher, x1: string, y1: string, x2: string, y2: string, rest: string)
    requires ReplaceAll(m, x1 + (x2 + rest)) == y1 + ReplaceAll(m, x2 + rest)
    requires ReplaceAll(m, x2 + rest) == y2 + ReplaceAll(m, rest)
    ensures ReplaceAll(m, (x1 + x2) + rest) == (y1 + y2) + ReplaceAll(m, rest)
  {
    assert (x1 + x2) + rest == x1 + (x2 + rest);
    assert (y1 + y2) + ReplaceAll(m, rest) == y1 + (y2 + ReplaceAll(m, rest));
  }

  /** A character that starts no match is copied, and scanning goes on after it. */
  lemma ReplaceAllMiss(m: Matcher, c: char, s: string)
    requires m([c] + s).None?
    ensures ReplaceAll(m, [c] + s) == [c] + ReplaceAll(m, s)
  {
    assert ([c] + s)[1..] == s;
  }

  /** A piece that passes on its own is the whole scan. */
  lemma PassesWhole(m: Matcher, x: string, y: string)
    requires Passes(m, x, y)
    ensures ReplaceAll(m, x) == y
  {
    assert ReplaceAll(m, x + []) == y + ReplaceAll(m, []);
    assert x + [] == x && y + [] == y;
  }

  /** The replace-first scan copies text free of every character a match can begin with. */
  lemma {:induction false} ReplaceFirstCopiesAvoiding(m: Matcher, starts: set<char>, x: string, rest: string)
    requires StartsIn(m, starts) && NoneIn(x, starts)
    ensures ReplaceFirst(m, x + rest) == x + ReplaceFirst(m, rest)
    decreases |x|
  {
    if x != [] {
      var s := x + rest;
      assert s[0] == x[0] && s[1..] == x[1..] + rest;
      ReplaceFirstCopiesAvoiding(m, starts, x[1..], rest);
      assert [x[0]] + x[1..] == x;
    } else {
      assert x + rest == rest;
    }
  }

  /** A match spanning exactly `x` is replaced and the rest copied. */
  lemma ReplaceFirstHit(m: Matcher, x: string, rest: string)
    requires x != [] && m(x + rest).Some? && m(x + rest).value.len == |x|
    ensures ReplaceFirst(m, x + rest) == m(x + rest).value.repl + rest
  {
    assert (x + rest)[|x|..] == rest;
  }

  /**
   * The replace-first scan: without a match the string is unchanged;
   * otherwise the leftmost match is spliced out and replaced.
   */
  lemma ReplaceFirstSplice(m: Matcher, s: string)
    ensures FirstHit(m, s).None? ==> ReplaceFirst(m, s) == s
    ensures FirstHit(m, s).Some? ==>
      var i := FirstHit(m, s).value;
      var h := m(s[i..]).value;
      ReplaceFirst(m, s) == s[..i] + h.repl + s[i + h.len..]
  {
    var f := FirstHit(m, s);
    if f.Some? {
      ReplaceFirstAt(m, s, f.value);
    } else {
      ReplaceFirstNoHit(m, s);
    }
  }

  /** Without a match, the replace-first scan copies the text. */
  lemma {:induction false} ReplaceFirstNoHit(m: Matcher, s: string)
    requires NoHit(m, s)
    ensures ReplaceFirst(m, s) == s
    decreases |s|
  {
    if s != [] {
      assert !HitAt(m, s) by { assert s[0..] == s; }
      NoHitTail(m, s);
      ReplaceFirstNoHit(m, s[1..]);
      assert [s[0]] + s[1..] == s;
    }
  }

  /** With the leftmost match at `i`, the replace-first scan splices it out and copies the rest. */
  lemma {:induction false} ReplaceFirstAt(m: Matcher, s: string, i: nat)
    requires i < |s| && HitAt(m, s[i..])
    requires forall j :: 0 <= j < i ==> !HitAt(m, s[j..])
    ensures ReplaceFirst(m, s) == s[..i] + m(s[i..]).value.repl + s[i + m(s[i..]).value.len..]
    decreases |s|
  {
    if i == 0 {
      assert s[0..] == s;
      assert s[..0] == [];
    } else {
      var t := s[1..];
      assert !HitAt(m, s) by { assert s[0..] == s; }
      forall j | 0 <= j < i - 1 ensures !HitAt(m, t[j..]) {
        assert t[j..] == s[j + 1..];
      }
      assert t[i - 1..] == s[i..];
      ReplaceFirstAt(m, t, i - 1);
      ReplaceFirstShift(m, s, i - 1, m(s[i..]).value);
    }
  }

  /** A splice found in the tail, seen from one character earlier. */
  lemma ReplaceFirstShift(m: Matcher, s: string, j: nat, h: Hit)
    requires s != [] && !HitAt(m, s)
    requires j + 1 + h.len <= |s|
    requires ReplaceFirst(m, s[1..]) == s[1..][..j] + h.repl + s[1..][j + h.len..]
    ensures ReplaceFirst(m, s) == s[..j + 1] + h.repl + s[j + 1 + h.len..]
  {
    assert s[1..][j + h.len..] == s[j + 1 + h.len..];
    ShiftedSplice(s, j + 1, h, ReplaceFirst(m, s[1..]), s[j + 1 + h.len..]);
  }

  /** A shrinking first-match replacement never lengthens the text, and keeps it exactly when nothing matches. */
  lemma ReplaceFirstShrinks(m: Matcher, s: string)
    requires Shrinking(m)
    ensures |ReplaceFirst(m, s)| <= |s|
    ensures ReplaceFirst(m, s) == s <==> NoHit(m, s)
  {
    ReplaceFirstSplice(m, s);
    var f := FirstHit(m, s);
    if f.Some? {
      var i := f.value;
      assert !NoHit(m, s);
      assert |m(s[i..]).value.repl| < m(s[i..]).value.len;
    }
  }

  /**
   * The global scan agrees with the replace-first one up to the leftmost
   * match and then carries on behind it.
   */
  lemma {:induction false} ReplaceAllAfterFirst(m: Matcher, s: string, i: nat)
    requires i < |s| && HitAt(m, s[i..])
    requires forall j :: 0 <= j < i ==> !HitAt(m, s[j..])
    ensures ReplaceAll(m, s) == s[..i] + m(s[i..]).value.repl + ReplaceAll(m, s[i + m(s[i..]).value.len..])
    decreases |s|
  {
    if i == 0 {
      assert s[0..] == s;
      assert s[..0] == [];
    } else {
      var t := s[1..];
      assert !HitAt(m, s) by { assert s[0..] == s; }
      forall j | 0 <= j < i - 1 ensures !HitAt(m, t[j..]) {
        assert t[j..] == s[j + 1..];
      }
      assert t[i - 1..] == s[i..];
      ReplaceAllAfterFirst(m, t, i - 1);
      ShiftedSplice(s, i, m(s[i..]).value, ReplaceAll(m, t), ReplaceAll(m, s[i + m(s[i..]).value.len..]));
    }
  }

  lemma ShiftedSplice(s: string, i: nat, h: Hit, tail: string, after: string)
    requires 1 <= i <= |s| && i + h.len <= |s|
    requires tail == s[1..][..i - 1] + h.repl + after
    ensures [s[0]] + tail == s[..i] + h.repl + after
  {
    assert s[..i] == [s[0]] + s[1..][..i - 1];
  }

  /** When nothing matches behind the leftmost match, replacing the first match is replacing them all. */
  lemma ReplaceFirstIsReplaceAllWhenSingle(m: Matcher, s: string)
    requires FirstHit(m, s).None? || NoHit(m, s[FirstHit(m, s).value + m(s[FirstHit(m, s).value..]).value.len..])
    ensures ReplaceFirst(m, s) == ReplaceAll(m, s)
  {
    ReplaceFirstSplice(m, s);
    if FirstHit(m, s).None? {
      ReplaceAllNoHit(m, s);
    } else {
      var i := FirstHit(m, s).value;
      ReplaceAllAfterFirst(m, s, i);
      ReplaceAllNoHit(m, s[i + m(s[i..]).value.len..]);
    }
  }

  /** The same, with the leftmost match and its length named. */
  lemma OnlyHitReplaced(m: Matcher, s: string, i: nat, len: nat)
    requires FirstHit(m, s) == Some(i) && m(s[i..]).Some? && m(s[i..]).value.len == len
    requires NoHit(m, s[i + len..])
    ensures ReplaceFirst(m, s) == ReplaceAll(m, s)
  {
    ReplaceFirstIsReplaceAllWhenSingle(m, s);
  }

  // ---------------------------------------------------------------- literal patterns

  /** A plain, non-regular-expression search string. */
  function Literal(pat: string, repl: string): Matcher
  {
    t => if pat != [] && |pat| <= |t| && t[..|pat|] == pat then Some(Hit(|pat|, repl)) else None
  }

  /** A literal matches at position `i` exactly when it occurs there. */
  lemma LiteralHitAt(pat: string, repl: string, s: string, i: nat)
    requires pat != [] && i <= |s|
    ensures HitAt(Literal(pat, repl), s[i..]) <==> OccursAt(s, pat, i)
  {
    if i + |pat| <= |s| {
      assert s[i..][..|pat|] == s[i..i + |pat|];
    }
  }

  /**
   * A literal that occurs in the text at one position only is replaced the
   * same way by a first-match and by a replace-all.
   */
  lemma LiteralOnceReplaceFirstIsAll(pat: string, repl: string, s: string)
    requires pat != []
    requires forall i: nat, j: nat :: OccursAt(s, pat, i) && OccursAt(s, pat, j) ==> i == j
    ensures ReplaceFirst(Literal(pat, repl), s) == ReplaceAll(Literal(pat, repl), s)
  {
    var m := Literal(pat, repl);
    var f := FirstHit(m, s);
    if f.Some? {
      LiteralHitAt(pat, repl, s, f.value);
      LiteralNoHitAfter(pat, repl, s, f.value);
      OnlyHitReplaced(m, s, f.value, |pat|);
    } else {
      ReplaceFirstIsReplaceAllWhenSingle(m, s);
    }
  }

  /** Past its only occurrence, a literal does not match again. */
  lemma LiteralNoHitAfter(pat: string, repl: string, s: string, i: nat)
    requires pat != [] && OccursAt(s, pat, i)
    requires forall i: nat, j: nat :: OccursAt(s, pat, i) && OccursAt(s, pat, j) ==> i == j
    ensures var m := Literal(pat, repl); m(s[i..]).Some? && m(s[i..]).value.len == |pat|
    ensures NoHit(Literal(pat, repl), s[i + |pat|..])
  {
    var m := Literal(pat, repl);
    LiteralHitAt(pat, repl, s, i);
    var rest := s[i + |pat|..];
    forall q | 0 <= q < |rest| ensures !HitAt(m, rest[q..]) {
      var k := i + |pat| + q;
      assert rest[q..] == s[k..];
      LiteralHitAt(pat, repl, s, k);
    }
  }

  /** A non-empty literal matches somewhere exactly when the text contains it. */
  lemma LiteralHitIffContains(pat: string, repl: string, s: string)
    requires pat != []
    ensures !NoHit(Literal(pat, repl), s) <==> Contains(s, pat)
  {
    var m := Literal(pat, repl);
    forall i | 0 <= i < |s| ensures HitAt(m, s[i..]) <==> OccursAt(s, pat, i) {
      if i + |pat| <= |s| {
        assert s[i..][..|pat|] == s[i..i + |pat|];
      }
    }
    if Contains(s, pat) {
      var i: nat :| i <= |s| && OccursAt(s, pat, i);
      assert HitAt(m, s[i..]);
    }
  }
}
