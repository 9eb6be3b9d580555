/**
 * The replacer passes at the top of `getTag`: every match of a literal
 * pattern is overwritten with a fill character repeated to the match's
 * length, so that columns in the masked line are columns in the original.
 *
 * `String.prototype.replace` with a global pattern tries the pattern at
 * column 0, 1, 2, ... and, after a match, resumes at the end of that match;
 * `MatchesFrom` is that scan and `MaskFrom` is the replacement it drives.
 */
module Masking {
  import opened JsText

  /** The two literal patterns the scanner hides. */
  datatype Literal =
    | Interpolation  // `\{\{[^\}]*?\}\}`, hidden with `^`
    | Quoted         // `("[^"]*"|'[^']*')`, hidden with `%`

  /** A match of a pattern: the columns `start <= k < end`. */
  datatype Span = Span(start: nat, end: nat)

  /**
   * The declarative reading of the two patterns: `s[i..e]` is a match of
   * `pat`. The lazy `[^\}]*?` and the negated classes leave no choice for
   * the end of a match that starts at `i`.
   */
  ghost predicate IsLiteral(pat: Literal, s: string, i: nat, e: nat) {
    match pat
    case Interpolation =>
      && i + 4 <= e <= |s|
      && s[i] == '{' && s[i + 1] == '{'
      && s[e - 2] == '}' && s[e - 1] == '}'
      && forall k :: i + 2 <= k < e - 2 ==> s[k] != '}'
    case Quoted =>
      && i + 2 <= e <= |s|
      && (s[i] == '"' || s[i] == '\'')
      && s[e - 1] == s[i]
      && forall k :: i < k < e - 1 ==> s[k] != s[i]
  }

  /** The end of the match of `pat` that starts at column `i`, if there is one. */
  function LiteralEnd(pat: Literal, s: string, i: nat): (r: Option<nat>)
    ensures r.Some? ==> i < r.value <= |s|
  {
    match pat
    case Interpolation => InterpolationEnd(s, i)
    case Quoted => QuotedEnd(s, i)
  }
  function InterpolationEnd(s: string, i: nat): (r: Option<nat>)
    ensures r.Some? ==> i < r.value <= |s|
  {
      if i + 1 < |s| && s[i] == '{' && s[i + 1] == '{' then
        var q := FirstIndexOfChar(s, '}', i + 2);
        if q + 1 < |s| && s[q + 1] == '}' then Some(q + 2) else None
      else None
  }
  function QuotedEnd(s: string, i: nat): (r: Option<nat>)
    ensures r.Some? ==> i < r.value <= |s|
  {
      if i < |s| && (s[i] == '"' || s[i] == '\'') then
        var q := FirstIndexOfChar(s, s[i], i + 1);
        if q < |s| then Some(q + 1) else None
      else None
  }

  /** `LiteralEnd` finds exactly the matches the pattern describes. */
  lemma LiteralEndMeans(pat: Literal, s: string, i: nat, e: nat)
    ensures LiteralEnd(pat, s, i) == Some(e) <==> IsLiteral(pat, s, i, e)
  {
    if pat.Interpolation? && IsLiteral(pat, s, i, e) {
      assert FirstIndexOfChar(s, '}', i + 2) == e - 2;
    }
    if pat.Quoted? && IsLiteral(pat, s, i, e) {
      assert FirstIndexOfChar(s, s[i], i + 1) == e - 1;
    }
  }

  /** Column `k` lies inside one of the spans `ms`. */
  predicate Covers(ms: seq<Span>, k: nat) {
    |ms| > 0 && (ms[0].start <= k < ms[0].end || Covers(ms[1..], k))
  }

  /** The spans lie between columns `from` and `n`, are not empty and come in order without overlapping. */
  predicate Ordered(ms: seq<Span>, from: nat, n: nat) {
    && (forall j :: 0 <= j < |ms| ==> from <= ms[j].start < ms[j].end <= n)
    && (forall j1, j2 :: 0 <= j1 < j2 < |ms| ==> ms[j1].end <= ms[j2].start)
  }

  /**
   * The matches the global scan finds from column `i` on: each is a match
   * and they come in order without overlapping.
   */
  function MatchesFrom(pat: Literal, s: string, i: nat): (r: seq<Span>)
    requires i <= |s|
    ensures Ordered(r, i, |s|)
    ensures forall j :: 0 <= j < |r| ==> LiteralEnd(pat, s, r[j].start) == Some(r[j].end)
    decreases |s| - i
  {
    if i == |s| then []
    else match LiteralEnd(pat, s, i)
      case Some(e) =>
        var rest := MatchesFrom(pat, s, e);
        assert ([Span(i, e)] + rest)[1..] == rest;
        [Span(i, e)] + rest
      case None => MatchesFrom(pat, s, i + 1)
  }

  /** All matches of `pat` in `s`. */
  function Matches(pat: Literal, s: string): (r: seq<Span>)
    ensures Ordered(r, 0, |s|)
  {
    MatchesFrom(pat, s, 0)
  }

  /**
   * The scan is leftmost: every column the matches leave uncovered is one
   * where the pattern does not match.
   */
  lemma {:induction false} MatchesLeftmost(pat: Literal, s: string, i: nat, k: nat)
    requires i <= k < |s| && !Covers(MatchesFrom(pat, s, i), k)
    ensures LiteralEnd(pat, s, k).None?
    decreases |s| - i
  {
    match LiteralEnd(pat, s, i)
    case Some(e) =>
      var rest := MatchesFrom(pat, s, e);
      assert MatchesFrom(pat, s, i) == [Span(i, e)] + rest;
      assert ([Span(i, e)] + rest)[1..] == rest;
      assert e <= k;
      MatchesLeftmost(pat, s, e, k);
    case None =>
      if i < k {
        MatchesLeftmost(pat, s, i + 1, k);
      }
  }

  /**
   * The replacement string built from the matches, from column `pos` on:
   * the unmatched text before each match, then `fill` repeated to the
   * match's length.
   */
  function Splice(s: string, ms: seq<Span>, fill: char, pos: nat): (r: string)
    requires pos <= |s| && Ordered(ms, pos, |s|)
    ensures |r| == |s| - pos
    decreases |ms|
  {
    if ms == [] then s[pos..]
    else s[pos..ms[0].start] + Repeat(fill, ms[0].end - ms[0].start) + Splice(s, ms[1..], fill, ms[0].end)
  }

  /** `s.replace(pattern, replacer(fill))` (src/magic/utils.ts:7-9). */
  function Mask(pat: Literal, fill: char, s: string): (r: string)
    ensures |r| == |s|
  {
    Splice(s, Matches(pat, s), fill, 0)
  }

  /** `pureLine`: the line with every interpolation hidden. */
  function PureLine(line: string): (r: string)
    ensures |r| == |line|
  {
    Mask(Interpolation, '^', line)
  }

  /** `attrFlagLine`: `pureLine` with every quoted literal hidden as well. */
  function AttrFlagLine(line: string): (r: string)
    ensures |r| == |line|
  {
    Mask(Quoted, '%', PureLine(line))
  }

  lemma {:induction false} SpliceAt(s: string, ms: seq<Span>, fill: char, pos: nat, k: nat)
    requires pos <= k < |s| && Ordered(ms, pos, |s|)
    ensures Splice(s, ms, fill, pos)[k - pos] == if Covers(ms, k) then fill else s[k]
    decreases |ms|
  {
    if ms == [] {
    } else {
      var r := Splice(s, ms, fill, pos);
      var a, b, c := s[pos..ms[0].start], Repeat(fill, ms[0].end - ms[0].start), Splice(s, ms[1..], fill, ms[0].end);
      assert r == a + b + c;
      if k < ms[0].start {
        assert r[k - pos] == a[k - pos] == s[k];
        NotCoveredBefore(ms, k);
      } else if k < ms[0].end {
        assert r[k - pos] == b[k - ms[0].start] == fill;
      } else {
        assert r[k - pos] == c[k - ms[0].end];
        SpliceAt(s, ms[1..], fill, ms[0].end, k);
      }
    }
  }

  /** Spans that all start after `k` do not cover `k`. */
  lemma {:induction false} NotCoveredBefore(ms: seq<Span>, k: nat)
    requires forall j :: 0 <= j < |ms| ==> k < ms[j].start
    ensures !Covers(ms, k)
    decreases |ms|
  {
    if |ms| > 0 {
      NotCoveredBefore(ms[1..], k);
    }
  }

  /**
   * The masking promise: the masked line has the original's length, holds
   * `fill` at every column inside a match and the original character at
   * every other column.
   */
  lemma MaskAt(pat: Literal, fill: char, s: string, k: nat)
    requires k < |s|
    ensures |Mask(pat, fill, s)| == |s|
    ensures Mask(pat, fill, s)[k] == if Covers(Matches(pat, s), k) then fill else s[k]
  {
    SpliceAt(s, Matches(pat, s), fill, 0, k);
  }
}
