/**
 * The attribute side of the scanner: `pureAttr` (binding syntax and value
 * type of one attribute), `getAttrName` (the attribute whose quoted value
 * ends a masked prefix) and `getAttrs` (every attribute of a tag's
 * attribute text, keyed by its stripped name).
 */
module Attributes {
  import opened JsText

  /** How an attribute binds: `[x]` and plain `x` are inputs, `(x)` outputs, `[(x)]` both, `#x` a template reference. */
  datatype InputAttrType = Input | Output | InputOutput | Template

  /** What the literal text of an attribute's value looks like. */
  datatype TagAttrValueType = String | Boolean | Number | PropertyBinding

  /** One attribute of a tag, its binding markers stripped from the name. */
  datatype TagAttr = TagAttr(attrType: InputAttrType, name: string, value: string, valueType: TagAttrValueType)

  // ---------------------------------------------------------------------
  // pureAttr (src/magic/utils.ts:70-95)
  // ---------------------------------------------------------------------

  /** `/^[.0-9]+$/`: one or more digits and dots, nothing else. */
  predicate IsNumeric(value: string) {
    |value| > 0 && forall k :: 0 <= k < |value| ==> ('0' <= value[k] <= '9' || value[k] == '.')
  }

  /**
   * `pureAttr(name, value)`. The value type is decided first, from the
   * value and the raw name; then the binding type, by the first marker the
   * raw name contains, which also says how many characters are cut from
   * each end of the name. The value is passed through.
   */
  function PureAttr(name: string, value: string): (r: TagAttr)
    ensures r.value == value
    ensures r.valueType == PropertyBinding <==> '\'' in value && '[' in name
    ensures r.valueType == Boolean <==> !('\'' in value && '[' in name) && (value == "true" || value == "false")
    ensures r.valueType == Number <==>
      !('\'' in value && '[' in name) && value != "true" && value != "false" && IsNumeric(value)
    ensures Includes(name, "[(") ==>
      r.attrType == InputOutput && r.name == if |name| >= 4 then name[2..|name| - 2] else ""
    ensures !Includes(name, "[(") && '[' in name ==>
      r.attrType == Input && r.name == if |name| >= 2 then name[1..|name| - 1] else ""
    ensures '[' !in name && '(' in name ==>
      r.attrType == Output && r.name == if |name| >= 2 then name[1..|name| - 1] else ""
    ensures '[' !in name && '(' !in name && '#' in name ==> r.attrType == Template && r.name == name[1..]
    ensures '[' !in name && '(' !in name && '#' !in name ==> r.attrType == Input && r.name == name
  {
    IncludesChar(value, '\'');
    IncludesChar(name, '[');
    IncludesChar(name, '(');
    IncludesChar(name, '#');
    PairAt(name, '[', '(');
    var valueType :=
      if Includes(value, "'") && Includes(name, "[") then PropertyBinding
      else if value == "true" || value == "false" then Boolean
      else if IsNumeric(value) then Number
      else String;
    var (attrType, stripped) :=
      if Includes(name, "[(") then (InputOutput, Substr(name, 2, |name| - 4))
      else if Includes(name, "[") then (Input, Substr(name, 1, |name| - 2))
      else if Includes(name, "(") then (Output, Substr(name, 1, |name| - 2))
      else if Includes(name, "#") then (Template, SubstrToEnd(name, 1))
      else (Input, name);
    TagAttr(attrType, stripped, value, valueType)
  }

  /** Where a two-character pattern occurs, its two characters stand side by side. */
  lemma PairAt(s: string, a: char, b: char)
    ensures Includes(s, [a, b]) ==> var j := IndexOf(s, [a, b]); s[j] == a && s[j + 1] == b
  {
    if Includes(s, [a, b]) {
      var j := IndexOf(s, [a, b]);
      assert s[j..j + 2][0] == s[j] && s[j..j + 2][1] == s[j + 1];
    }
  }

  /** The five ways a template writes an attribute name. */
  datatype Binding = Plain | Property | Event | TwoWay | Reference

  /** The attribute name `t` written with the markers of binding `b`. */
  function Render(b: Binding, t: string): string {
    match b
    case Plain => t
    case Property => "[" + t + "]"
    case Event => "(" + t + ")"
    case TwoWay => "[(" + t + ")]"
    case Reference => "#" + t
  }

  /** The binding type each syntax stands for. */
  function TypeOf(b: Binding): InputAttrType {
    match b
    case Plain => Input
    case Property => Input
    case Event => Output
    case TwoWay => InputOutput
    case Reference => Template
  }

  predicate IsName(t: string) {
    forall k :: 0 <= k < |t| ==> IsNameChar(t[k])
  }

  /**
   * `pureAttr` undoes the binding syntax: for a name made of `[\-\w]`
   * characters written in any of the five syntaxes, it recovers the name
   * and the binding type the syntax stands for.
   */
  lemma PureAttrRoundTrip(b: Binding, t: string, v: string)
    requires IsName(t)
    ensures PureAttr(Render(b, t), v).attrType == TypeOf(b)
    ensures PureAttr(Render(b, t), v).name == t
  {
    var s := Render(b, t);
    assert '[' !in t && '(' !in t && '#' !in t && ')' !in t && ']' !in t;
    match b
    case Plain =>
    case Property =>
      assert forall j :: 0 <= j < |s| - 1 && s[j] == '[' ==> j == 0 && s[1] != '(';
      PairAt(s, '[', '(');
      assert OccursAt(s, "[", 0);
    case Event =>
      IncludesChar(s, '[');
      PairAt(s, '[', '(');
      assert OccursAt(s, "(", 0);
    case TwoWay =>
      assert OccursAt(s, "[(", 0);
    case Reference =>
      IncludesChar(s, '[');
      IncludesChar(s, '(');
      PairAt(s, '[', '(');
      assert OccursAt(s, "#", 0);
  }

  // ---------------------------------------------------------------------
  // getAttrName (src/magic/utils.ts:63-68)
  // ---------------------------------------------------------------------

  /** Start of the run of `ch` that ends `s`. */
  function TrailingRunStart(s: string, ch: char): (b: nat)
    ensures b <= |s|
    ensures forall k :: b <= k < |s| ==> s[k] == ch
    ensures b > 0 ==> s[b - 1] != ch
    decreases |s|
  {
    if |s| == 0 || s[|s| - 1] != ch then |s| else TrailingRunStart(s[..|s| - 1], ch)
  }

  /** Start of the run of `[\w-:.]` characters that ends just before `e`. */
  function TokenRunStart(s: string, e: nat): (b: nat)
    requires e <= |s|
    ensures b <= e
    ensures forall k :: b <= k < e ==> IsTokenChar(s[k])
    ensures b > 0 ==> !IsTokenChar(s[b - 1])
  {
    if e == 0 || !IsTokenChar(s[e - 1]) then e else TokenRunStart(s, e - 1)
  }

  /**
   * The pattern `/\s([\w-:.]+)=%*$/` matches `str` at column `p` with
   * `tok` as its group: white space, the token, `=`, then only `%` to
   * the end.
   */
  ghost predicate AttrNameMatch(str: string, p: nat, tok: string) {
    && p + |tok| + 2 <= |str|
    && IsJsSpace(str[p])
    && |tok| > 0
    && str[p + 1..p + 1 + |tok|] == tok
    && (forall k :: 0 <= k < |tok| ==> IsTokenChar(tok[k]))
    && str[p + 1 + |tok|] == '='
    && (forall k :: p + 2 + |tok| <= k < |str| ==> str[k] == '%')
  }

  /**
   * `getAttrName(str)`: the `=` must sit just before the `%` run that ends
   * the string, the token run before it must be non-empty and white space
   * must precede it; the token is the captured name, otherwise `""`.
   */
  function GetAttrName(str: string): (r: string)
    ensures forall k :: 0 <= k < |r| ==> IsTokenChar(r[k])
    ensures r != "" ==> |r| + 2 <= |str|
  {
    var e := TrailingRunStart(str, '%');
    if e == 0 || str[e - 1] != '=' then ""
    else
      var b := TokenRunStart(str, e - 1);
      if 0 < b < e - 1 && IsJsSpace(str[b - 1]) then str[b..e - 1] else ""
  }

  lemma SpaceIsNotToken(ch: char)
    requires IsJsSpace(ch)
    ensures !IsTokenChar(ch)
  {
  }

  /** Whatever `getAttrName` returns, other than `""`, is the group of a match of the pattern. */
  lemma GetAttrNameSound(str: string)
    ensures GetAttrName(str) != "" ==> exists p: nat :: AttrNameMatch(str, p, GetAttrName(str))
  {
    var r := GetAttrName(str);
    if r != "" {
      var e := TrailingRunStart(str, '%');
      var b := TokenRunStart(str, e - 1);
      assert r == str[b..e - 1];
      assert forall k :: 0 <= k < |r| ==> r[k] == str[b + k];
      assert AttrNameMatch(str, b - 1, r);
    }
  }

  /** When the pattern matches, `getAttrName` returns its group: the match and its group are unique. */
  lemma GetAttrNameComplete(str: string, p: nat, tok: string)
    requires AttrNameMatch(str, p, tok)
    ensures GetAttrName(str) == tok
  {
    var eq := p + 1 + |tok|;
    var e := TrailingRunStart(str, '%');
    assert str[eq] == '=';
    assert e == eq + 1;
    var b := TokenRunStart(str, eq);
    SpaceIsNotToken(str[p]);
    assert forall k :: p + 1 <= k < eq ==> str[k] == tok[k - p - 1];
    assert b == p + 1;
  }

  // ---------------------------------------------------------------------
  // getAttrs (src/magic/utils.ts:52-61)
  // ---------------------------------------------------------------------

  /**
   * One match of `((?:\[|\(|\[\(|#)?[\-\w]+(?:\)\]|\]|\))?)(?:="([^"]+)")?`:
   * where it starts, its first group (the raw name), its second group (the
   * value, when present) and where it ends.
   */
  datatype AttrMatch = AttrMatch(index: nat, rawName: string, value: Option<string>, end: nat)

  /**
   * The length of the prefix `(?:\[|\(|\[\(|#)?` that the pattern takes at
   * `p`: an alternative is kept only when a name character follows it, and
   * when none is kept the name must start at `p`; `None` when the pattern
   * cannot match at `p`.
   */
  function PrefixLen(s: string, p: nat): (r: Option<nat>)
    ensures r.Some? ==> r.value <= 2 && p + r.value < |s| && IsNameChar(s[p + r.value])
  {
    if p + 1 < |s| && s[p] == '[' && IsNameChar(s[p + 1]) then Some(1)
    else if p + 1 < |s| && s[p] == '(' && IsNameChar(s[p + 1]) then Some(1)
    else if p + 2 < |s| && s[p] == '[' && s[p + 1] == '(' && IsNameChar(s[p + 2]) then Some(2)
    else if p + 1 < |s| && s[p] == '#' && IsNameChar(s[p + 1]) then Some(1)
    else if p < |s| && IsNameChar(s[p]) then Some(0)
    else None
  }

  /** The length of the suffix `(?:\)\]|\]|\))?` taken at `q`, alternatives tried in order. */
  function SuffixLen(s: string, q: nat): (n: nat)
    ensures q + n <= |s| || n == 0
  {
    if q + 1 < |s| && s[q] == ')' && s[q + 1] == ']' then 2
    else if q < |s| && (s[q] == ']' || s[q] == ')') then 1
    else 0
  }

  /** The end of `="([^"]+)"` tried at `q`, if it matches there. */
  function ValueEnd(s: string, q: nat): (r: Option<nat>)
    ensures r.Some? ==> q + 4 <= r.value <= |s|
  {
    if q + 1 < |s| && s[q] == '=' && s[q + 1] == '"' then
      var c := FirstIndexOfChar(s, '"', q + 2);
      if q + 2 < c < |s| then Some(c + 1) else None
    else None
  }

  /** The match of the attribute pattern that starts at `p`, if there is one. */
  function AttrMatchAt(s: string, p: nat): (r: Option<AttrMatch>)
    ensures r.Some? ==> r.value.index == p && p < r.value.end <= |s|
    ensures r.Some? ==> p + |r.value.rawName| <= r.value.end && r.value.rawName == s[p..p + |r.value.rawName|]
  {
    match PrefixLen(s, p)
    case None => None
    case Some(pre) =>
      var ne := NameRunEnd(s, p + pre);
      var se := ne + SuffixLen(s, ne);
      match ValueEnd(s, se)
      case Some(ve) => Some(AttrMatch(p, s[p..se], Some(s[se + 2..ve - 1]), ve))
      case None => Some(AttrMatch(p, s[p..se], None, se))
  }

  /**
   * The value group: when present it is the non-empty, quote-free text
   * between `="` and the closing `"` that ends the match; when absent the
   * match ends with its name, and the entry's value is `""`. An empty
   * `=""` gives no value group.
   */
  lemma AttrMatchValue(s: string, p: nat)
    requires AttrMatchAt(s, p).Some?
    ensures var m := AttrMatchAt(s, p).value;
      && (m.value.Some? ==>
            var v := m.value.value;
            && |v| > 0 && '"' !in v
            && p + |m.rawName| + |v| + 3 == m.end
            && s[p + |m.rawName|..m.end] == "=\"" + v + "\"")
      && (m.value.None? ==> m.end == p + |m.rawName| && EntryOf(m).value == "")
      && (p + |m.rawName| + 3 <= |s| && s[p + |m.rawName|..p + |m.rawName| + 3] == "=\"\"" ==> m.value.None?)
  {
    var m := AttrMatchAt(s, p).value;
    var q := p + |m.rawName|;
    if m.value.Some? {
      var c := FirstIndexOfChar(s, '"', q + 2);
      assert s[q..m.end] == "=\"" + s[q + 2..c] + "\"";
    }
  }

  /** The length of the opening marker of each syntax, which the prefix group takes. */
  function MarkerLen(b: Binding): nat {
    match b
    case Plain => 0
    case Property => 1
    case Event => 1
    case TwoWay => 2
    case Reference => 1
  }

  /**
   * The groups before the value read back a written name: the prefix group
   * takes the opening marker, the name run the name itself, and the suffix
   * group the closing marker, when a `=` follows.
   */
  lemma NameGroupsRoundTrip(b: Binding, t: string, s: string)
    requires |t| > 0 && IsName(t)
    requires |Render(b, t)| < |s| && s[..|Render(b, t)|] == Render(b, t) && s[|Render(b, t)|] == '='
    ensures PrefixLen(s, 0) == Some(MarkerLen(b))
    ensures NameRunEnd(s, MarkerLen(b)) == MarkerLen(b) + |t|
    ensures MarkerLen(b) + |t| + SuffixLen(s, MarkerLen(b) + |t|) == |Render(b, t)|
  {
    var r := Render(b, t);
    var pre := MarkerLen(b);
    assert forall k :: 0 <= k < |r| ==> s[k] == r[k];
    assert forall k :: 0 <= k < |t| ==> s[pre + k] == t[k];
    match b
    case Plain =>
      NameRunEndAt(s, 0, |t|);
    case Property =>
      NameRunEndAt(s, 1, 1 + |t|);
    case Event =>
      NameRunEndAt(s, 1, 1 + |t|);
    case TwoWay =>
      assert s[1] == '(' && s[2 + |t|] == ')';
      NameRunEndAt(s, 2, 2 + |t|);
    case Reference =>
      NameRunEndAt(s, 1, 1 + |t|);
  }

  /** The value group reads back a non-empty, quote-free value written in double quotes. */
  lemma ValueGroupRoundTrip(s: string, q: nat, v: string)
    requires |v| > 0 && '"' !in v
    requires q + |v| + 3 <= |s| && s[q..q + |v| + 3] == "=\"" + v + "\""
    ensures ValueEnd(s, q) == Some(q + |v| + 3)
    ensures s[q + 2..q + 2 + |v|] == v
  {
    assert forall k :: 0 <= k < |v| + 3 ==> s[q + k] == ("=\"" + v + "\"")[k];
    assert forall k :: 0 <= k < |v| ==> s[q + 2 + k] == v[k];
    FirstIndexOfCharAt(s, '"', q + 2, q + 2 + |v|);
  }

  /** A match assembled from its groups: prefix length, end of the suffix group and end of the value. */
  lemma AttrMatchOfGroups(s: string, pre: nat, se: nat, ve: nat)
    requires PrefixLen(s, 0) == Some(pre)
    requires NameRunEnd(s, pre) + SuffixLen(s, NameRunEnd(s, pre)) == se
    requires ValueEnd(s, se) == Some(ve)
    ensures AttrMatchAt(s, 0) == Some(AttrMatch(0, s[..se], Some(s[se + 2..ve - 1]), ve))
  {
  }

  /**
   * The attribute pattern reads back what a template writes: for a name of
   * `[\-\w]` characters in any of the five syntaxes, followed by a
   * non-empty, quote-free value in double quotes, the match starting there
   * has the written name as its first group and the value as its second,
   * and ends after the closing quote, whatever text follows.
   */
  lemma AttrMatchRoundTrip(b: Binding, t: string, v: string, rest: string)
    requires |t| > 0 && IsName(t) && |v| > 0 && '"' !in v
    ensures var r := Render(b, t);
      AttrMatchAt(r + "=\"" + v + "\"" + rest, 0) == Some(AttrMatch(0, r, Some(v), |r| + |v| + 3))
  {
    var r := Render(b, t);
    var w := "=\"" + v + "\"";
    var s := r + "=\"" + v + "\"" + rest;
    var q := |r|;
    assert s[..q] == r;
    assert s[q..q + |w|] == w;
    NameGroupsRoundTrip(b, t, s);
    ValueGroupRoundTrip(s, q, v);
    AttrMatchOfGroups(s, MarkerLen(b), q, q + |v| + 3);
  }

  /**
   * Together with `PureAttrRoundTrip`: the entry `getAttrs` files for such
   * an attribute carries the bare name, the binding type of the syntax and
   * the value exactly as written.
   */
  lemma AttrEntryRoundTrip(b: Binding, t: string, v: string, rest: string)
    requires |t| > 0 && IsName(t) && |v| > 0 && '"' !in v
    ensures var m := AttrMatchAt(Render(b, t) + "=\"" + v + "\"" + rest, 0);
      && m.Some?
      && EntryOf(m.value).name == t
      && EntryOf(m.value).attrType == TypeOf(b)
      && EntryOf(m.value).value == v
  {
    AttrMatchRoundTrip(b, t, v, rest);
    PureAttrRoundTrip(b, t, v);
  }

  /** Wherever a name character stands, the pattern matches. */
  lemma AttrMatchAtNameChar(s: string, p: nat)
    requires p < |s| && IsNameChar(s[p])
    ensures AttrMatchAt(s, p).Some?
  {
  }

  /** Every match of the pattern holds a name character, at most two columns after its start. */
  lemma AttrMatchNeedsNameChar(s: string, p: nat)
    requires AttrMatchAt(s, p).Some?
    ensures exists k :: p <= k <= p + 2 && k < AttrMatchAt(s, p).value.end && IsNameChar(s[k])
  {
    var pre := PrefixLen(s, p).value;
    assert IsNameChar(s[p + pre]);
  }

  /** `re.exec(text)` with `re.lastIndex == i`: the first match at or after column `i`. */
  function ExecFrom(s: string, i: nat): (r: Option<AttrMatch>)
    ensures r.Some? ==> i <= r.value.index < r.value.end <= |s|
    decreases |s| - i
  {
    if i >= |s| then None
    else match AttrMatchAt(s, i)
      case Some(m) => Some(m)
      case None => ExecFrom(s, i + 1)
  }

  /**
   * `exec` returns the leftmost match: a match that starts at its result,
   * and no match at any column it skipped; `null` only when no column from
   * `i` on starts a match.
   */
  lemma {:induction false} ExecFromLeftmost(s: string, i: nat)
    ensures ExecFrom(s, i).Some? ==> AttrMatchAt(s, ExecFrom(s, i).value.index) == ExecFrom(s, i)
    ensures ExecFrom(s, i).Some? ==> forall q :: i <= q < ExecFrom(s, i).value.index ==> AttrMatchAt(s, q).None?
    ensures ExecFrom(s, i).None? ==> forall q :: i <= q < |s| ==> AttrMatchAt(s, q).None?
    decreases |s| - i
  {
    if i < |s| {
      var m := AttrMatchAt(s, i);
      if m.Some? {
        assert ExecFrom(s, i) == m;
      } else {
        var r := ExecFrom(s, i + 1);
        assert ExecFrom(s, i) == r;
        ExecFromLeftmost(s, i + 1);
        if r.Some? {
          forall q | i <= q < r.value.index ensures AttrMatchAt(s, q).None? {
            if q > i { assert i + 1 <= q; }
          }
        } else {
          forall q | i <= q < |s| ensures AttrMatchAt(s, q).None? {
            if q > i { assert i + 1 <= q; }
          }
        }
      }
    }
  }

  /** Every match the `while (re.exec(text))` loop sees, from `lastIndex == i` on. */
  function AttrMatches(s: string, i: nat): (r: seq<AttrMatch>)
    ensures forall j :: 0 <= j < |r| ==> i <= r[j].index < r[j].end <= |s|
    ensures forall j :: 0 <= j < |r| - 1 ==> r[j].end <= r[j + 1].index
    decreases |s| - i
  {
    match ExecFrom(s, i)
    case None => []
    case Some(m) =>
      var rest := AttrMatches(s, m.end);
      assert forall j :: 1 <= j < |rest| + 1 ==> ([m] + rest)[j] == rest[j - 1];
      [m] + rest
  }

  /**
   * `pureAttr(match[1], match[2] || '')`: a match without a value group
   * gives the value `""`, typed as a string.
   */
  function EntryOf(m: AttrMatch): (r: TagAttr)
    ensures m.value.Some? ==> r.value == m.value.value
    ensures m.value.None? ==> r.value == "" && r.valueType == String
  {
    PureAttr(m.rawName, match m.value case Some(v) => v case None => "")
  }

  /** The entries of the matches, in order. */
  function Entries(ms: seq<AttrMatch>): (r: seq<TagAttr>)
    ensures |r| == |ms|
    ensures forall j :: 0 <= j < |ms| ==> r[j] == EntryOf(ms[j])
  {
    if ms == [] then []
    else
      var init := ms[..|ms| - 1];
      assert forall j :: 0 <= j < |init| ==> init[j] == ms[j];
      Entries(init) + [EntryOf(ms[|ms| - 1])]
  }

  /**
   * `res[item.name] = item` for each entry in turn: every entry is filed
   * under its own name.
   */
  function Collect(es: seq<TagAttr>): (res: map<string, TagAttr>)
    ensures forall k :: k in res ==> res[k].name == k
  {
    if es == [] then map[]
    else Collect(es[..|es| - 1])[es[|es| - 1].name := es[|es| - 1]]
  }

  /** The keys are exactly the entries' names. */
  lemma {:induction false} CollectKeys(es: seq<TagAttr>)
    ensures forall k :: k in Collect(es) <==> exists j :: 0 <= j < |es| && es[j].name == k
  {
    if es != [] {
      var init := es[..|es| - 1];
      CollectKeys(init);
      assert forall j :: 0 <= j < |init| ==> init[j] == es[j];
    }
  }

  /** The entry kept under a name is the last entry with that name: later matches overwrite earlier ones. */
  lemma {:induction false} CollectLastWins(es: seq<TagAttr>)
    ensures forall k :: k in Collect(es) ==>
      exists j :: 0 <= j < |es| && es[j] == Collect(es)[k] && forall j' :: j < j' < |es| ==> es[j'].name != k
  {
    if es != [] {
      var init := es[..|es| - 1];
      var last := es[|es| - 1];
      CollectLastWins(init);
      var prev := Collect(init);
      var res := Collect(es);
      assert res == prev[last.name := last];
      assert forall j :: 0 <= j < |init| ==> init[j] == es[j];
      forall k | k in res
        ensures exists j :: 0 <= j < |es| && es[j] == res[k] && forall j' :: j < j' < |es| ==> es[j'].name != k
      {
        if k == last.name {
          assert es[|es| - 1] == res[k];
        } else {
          var j :| 0 <= j < |init| && init[j] == prev[k] && forall j' :: j < j' < |init| ==> init[j'].name != k;
          assert es[j] == res[k];
        }
      }
    }
  }

  /** The attribute map `getAttrs(text)` returns. */
  function AttrsOf(text: string): (r: map<string, TagAttr>)
    ensures forall k :: k in r ==> r[k].name == k
  {
    Collect(Entries(AttrMatches(text, 0)))
  }

  /** Filing one more match extends the map by that match's entry. */
  lemma {:induction false} CollectSnoc(ms: seq<AttrMatch>, m: AttrMatch)
    ensures Collect(Entries(ms + [m])) == Collect(Entries(ms))[EntryOf(m).name := EntryOf(m)]
  {
    assert (ms + [m])[..|ms|] == ms;
    var es := Entries(ms + [m]);
    assert es[..|es| - 1] == Entries(ms);
  }

  /** The matches from `lastIndex == i` on, once `exec` has returned `next`. */
  function Onward(s: string, next: Option<AttrMatch>): seq<AttrMatch> {
    match next
    case None => []
    case Some(m) => if m.end <= |s| then [m] + AttrMatches(s, m.end) else []
  }

  /** The matches from column `i` on are `exec`'s result at `i` followed by the matches after it. */
  lemma AttrMatchesOnward(s: string, i: nat)
    ensures AttrMatches(s, i) == Onward(s, ExecFrom(s, i))
  {
  }

  /** One turn of the `exec` loop: the match found, then the matches after its end. */
  lemma OnwardStep(s: string, m: AttrMatch)
    requires m.end <= |s|
    ensures Onward(s, Some(m)) == [m] + Onward(s, ExecFrom(s, m.end))
  {
    AttrMatchesOnward(s, m.end);
  }

  /** Proof helper: regrouping a concatenation around one element, for the two scan loops. */
  lemma Regroup<T>(a: seq<T>, x: T, b: seq<T>)
    ensures a + ([x] + b) == (a + [x]) + b
  {
  }

  /**
   * `getAttrs(text)`: run the attribute pattern over `text` with `exec`
   * and file each match's `pureAttr` under its stripped name.
   */
  method GetAttrs(text: string) returns (res: map<string, TagAttr>)
    ensures res == AttrsOf(text)
    ensures forall k :: k in res ==> res[k].name == k
  {
    res := map[];
    ghost var seen: seq<AttrMatch> := [];
    var next := ExecFrom(text, 0);
    AttrMatchesOnward(text, 0);
    while next.Some?
      invariant next.Some? ==> next.value.index < next.value.end <= |text|
      invariant AttrMatches(text, 0) == seen + Onward(text, next)
      invariant res == Collect(Entries(seen))
      decreases if next.Some? then |text| - next.value.index else 0
    {
      var m := next.value;
      var item := EntryOf(m);
      res := res[item.name := item];
      CollectSnoc(seen, m);
      next := ExecFrom(text, m.end);
      OnwardStep(text, m);
      Regroup(seen, m, Onward(text, next));
      seen := seen + [m];
    }
    assert seen + Onward(text, next) == seen;
  }

  /**
   * Attribute text yields no attribute exactly when it has no `[\-\w]`
   * character.
   */
  lemma AttrsEmpty(text: string)
    ensures AttrsOf(text) == map[] <==> forall k :: 0 <= k < |text| ==> !IsNameChar(text[k])
  {
    var ms := AttrMatches(text, 0);
    if exists k :: 0 <= k < |text| && IsNameChar(text[k]) {
      var k :| 0 <= k < |text| && IsNameChar(text[k]);
      AttrMatchAtNameChar(text, k);
      ExecFromLeftmost(text, 0);
      assert ExecFrom(text, 0).Some?;
      var es := Entries(ms);
      CollectKeys(es);
      assert es[0].name in AttrsOf(text);
    } else {
      forall p | 0 <= p < |text| ensures AttrMatchAt(text, p).None? {
        if AttrMatchAt(text, p).Some? {
          AttrMatchNeedsNameChar(text, p);
        }
      }
      ExecFromLeftmost(text, 0);
      assert ms == [];
    }
  }
}
