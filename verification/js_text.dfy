/**
 * The JavaScript string primitives the scanner relies on: the character
 * classes of its regular expressions (non-unicode mode), `indexOf`,
 * `substr` and `repeat`, written out so that their edge cases (a missing
 * occurrence gives -1, a negative `substr` start counts from the end) are
 * explicit. Strings are sequences of `char`.
 */
module JsText {

  datatype Option<T> = None | Some(value: T)

  /** `\w` without the unicode flag: ASCII letters, digits and `_`. */
  predicate IsWordChar(ch: char) {
    ('a' <= ch <= 'z') || ('A' <= ch <= 'Z') || ('0' <= ch <= '9') || ch == '_'
  }

  /** `[\-\w]`: the characters of a tag name or an attribute name. */
  predicate IsNameChar(ch: char) {
    IsWordChar(ch) || ch == '-'
  }

  /** `[\w-:.]`: the characters of an attribute name as `getAttrName` reads it. */
  predicate IsTokenChar(ch: char) {
    IsWordChar(ch) || ch == '-' || ch == ':' || ch == '.'
  }

  /** `\s`: the ECMAScript WhiteSpace and LineTerminator code points. */
  predicate IsJsSpace(ch: char) {
    ch == '\t' || ch == '\n' || ch == '\U{000B}' || ch == '\U{000C}' || ch == '\r' || ch == ' '
    || ch == '\U{00A0}' || ch == '\U{1680}' || ('\U{2000}' <= ch <= '\U{200A}')
    || ch == '\U{2028}' || ch == '\U{2029}' || ch == '\U{202F}' || ch == '\U{205F}'
    || ch == '\U{3000}' || ch == '\U{FEFF}'
  }

  /** `t` occurs in `s` starting at index `j`. */
  predicate OccursAt(s: string, t: string, j: int) {
    0 <= j && j + |t| <= |s| && s[j..j + |t|] == t
  }

  /** `s.indexOf(t, from)`: the first occurrence at or after `from`, or -1. */
  function IndexOfFrom(s: string, t: string, from: nat): (r: int)
    ensures r == -1 || (from <= r && OccursAt(s, t, r))
    ensures r == -1 ==> forall j :: from <= j ==> !OccursAt(s, t, j)
    ensures r != -1 ==> forall j :: from <= j < r ==> !OccursAt(s, t, j)
    decreases |s| - from
  {
    if from + |t| > |s| then -1
    else if s[from..from + |t|] == t then from
    else IndexOfFrom(s, t, from + 1)
  }

  /** `s.indexOf(t)`. */
  function IndexOf(s: string, t: string): (r: int)
    ensures r == -1 <==> forall j :: !OccursAt(s, t, j)
    ensures r != -1 ==> OccursAt(s, t, r) && forall j :: j < r ==> !OccursAt(s, t, j)
  {
    IndexOfFrom(s, t, 0)
  }

  /** An occurrence with none before it is the one `indexOf` finds. */
  lemma IndexOfIs(s: string, t: string, r: nat)
    requires OccursAt(s, t, r) && forall j :: 0 <= j < r ==> !OccursAt(s, t, j)
    ensures IndexOf(s, t) == r
  {
  }

  /** Text whose first character does not occur in `pre` is found right after `pre`. */
  lemma IndexOfAfter(pre: string, t: string)
    requires |t| > 0 && t[0] !in pre
    ensures IndexOf(pre + t, t) == |pre|
  {
    var s := pre + t;
    assert s[|pre|..] == t;
    forall j | 0 <= j < |pre| ensures !OccursAt(s, t, j) {
      assert s[j] == pre[j] != t[0];
    }
    IndexOfIs(s, t, |pre|);
  }

  /** `~s.indexOf(t)` used as a condition: `t` occurs somewhere in `s`. */
  predicate Includes(s: string, t: string) {
    IndexOf(s, t) != -1
  }

  lemma IncludesChar(s: string, ch: char)
    ensures Includes(s, [ch]) <==> ch in s
  {
    if ch in s {
      var j :| 0 <= j < |s| && s[j] == ch;
      assert OccursAt(s, [ch], j);
    } else {
      assert forall j :: OccursAt(s, [ch], j) ==> s[j..j + 1][0] == ch;
    }
  }

  /** Index of the first `ch` at or after `from`, or `|s|` when there is none. */
  function FirstIndexOfChar(s: string, ch: char, from: nat): (q: nat)
    ensures from <= |s| ==> from <= q <= |s|
    ensures from > |s| ==> q == from
    ensures forall k :: from <= k < q && k < |s| ==> s[k] != ch
    ensures q < |s| ==> s[q] == ch
    decreases |s| - from
  {
    if from >= |s| then from
    else if s[from] == ch then from
    else FirstIndexOfChar(s, ch, from + 1)
  }

  /** End of the run of `[\-\w]` characters that starts at `from` (greedy `[\-\w]+`). */
  function NameRunEnd(s: string, from: nat): (e: nat)
    requires from <= |s|
    ensures from <= e <= |s|
    ensures forall k :: from <= k < e ==> IsNameChar(s[k])
    ensures e < |s| ==> !IsNameChar(s[e])
    decreases |s| - from
  {
    if from == |s| || !IsNameChar(s[from]) then from else NameRunEnd(s, from + 1)
  }

  /** A run of name characters stopped by a non-name character (or the end) ends exactly there. */
  lemma NameRunEndAt(s: string, from: nat, e: nat)
    requires from <= e <= |s|
    requires forall k :: from <= k < e ==> IsNameChar(s[k])
    requires e < |s| ==> !IsNameChar(s[e])
    ensures NameRunEnd(s, from) == e
  {
  }

  /** The search for `ch` from `from` stops at the first column holding it. */
  lemma FirstIndexOfCharAt(s: string, ch: char, from: nat, q: nat)
    requires from <= q < |s| && s[q] == ch
    requires forall k :: from <= k < q ==> s[k] != ch
    ensures FirstIndexOfChar(s, ch, from) == q
  {
  }

  /** `ToIntegerOrInfinity` then clamping of a `substr` start, as in section B.2.2.1 of ECMA-262. */
  function SubstrStart(size: nat, start: int): (a: nat)
    ensures a <= size
    ensures 0 <= start <= size ==> a == start
    ensures start < 0 && size + start >= 0 ==> a == size + start
  {
    if start < 0 then (if size + start < 0 then 0 else size + start)
    else if start > size then size
    else start
  }

  /** `s.substr(start, length)`. */
  function Substr(s: string, start: int, length: int): (r: string)
    ensures 0 <= start && 0 <= length && start + length <= |s| ==> r == s[start..start + length]
    ensures length <= 0 ==> r == []
    ensures exists a :: OccursAt(s, r, a)
  {
    var a := SubstrStart(|s|, start);
    var n := if length < 0 then 0 else if length > |s| then |s| else length;
    var b := if a + n > |s| then |s| else a + n;
    assert OccursAt(s, s[a..b], a);
    s[a..b]
  }

  /** `s.substr(start)`: from the clamped start to the end. */
  function SubstrToEnd(s: string, start: int): (r: string)
    ensures 0 <= start <= |s| ==> r == s[start..]
    ensures start < 0 && |s| + start >= 0 ==> r == s[|s| + start..]
  {
    s[SubstrStart(|s|, start)..]
  }

  /** `ch.repeat(n)`. */
  function Repeat(ch: char, n: nat): (r: string)
    ensures |r| == n
    ensures forall k :: 0 <= k < n ==> r[k] == ch
  {
    if n == 0 then [] else [ch] + Repeat(ch, n - 1)
  }
}
