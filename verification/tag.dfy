/**
 * `getTag` (src/magic/utils.ts:5-50): find the tag that encloses the cursor
 * on one line and classify the cursor as standing on the tag name, on an
 * attribute name or inside an attribute value.
 *
 * The editor lookups are inputs: the line text, the cursor column, the word
 * under the cursor (`""` when the editor finds none) and the component-name
 * predicate.
 */
module TagLocator {
  import opened JsText
  import opened Masking
  import opened Attributes

  /** What `getTag` returns when a tag encloses the cursor. */
  datatype Tag = Tag(
    name: string,
    word: string,
    isOnTagName: bool,
    isOnAttrName: bool,
    isOnAttrValue: bool,
    attrName: string,
    attributes: Option<map<string, TagAttr>>)

  /**
   * One match of `<([\-\w]+)(\s+[^>]*)?` as the `replace` callback receives
   * it: the matched text, the tag name, the attribute group (`None` for
   * `undefined`) and the column where the match starts.
   */
  datatype TagMatch = TagMatch(index: nat, raw: string, name: string, attr: Option<string>)

  /** The column just after the match. */
  function EndOf(m: TagMatch): nat {
    m.index + |m.raw|
  }

  /** `index <= pos.character && index + raw.length >= pos.character`: both bounds inclusive. */
  predicate Contains(m: TagMatch, c: nat) {
    m.index <= c <= EndOf(m)
  }

  /**
   * The match of the tag pattern that starts at `p`, if there is one: `<`,
   * the greedy name run, then, when white space follows the name, the
   * attribute group up to the next `>` or the end of the line.
   */
  function TagMatchAt(s: string, p: nat): (r: Option<TagMatch>)
    ensures r.Some? <==> p + 1 < |s| && s[p] == '<' && IsNameChar(s[p + 1])
    ensures r.Some? ==> r.value.index == p && EndOf(r.value) <= |s| && r.value.raw == s[p..EndOf(r.value)]
  {
    if p + 1 < |s| && s[p] == '<' && IsNameChar(s[p + 1]) then
      var ne := NameRunEnd(s, p + 1);
      if ne < |s| && IsJsSpace(s[ne]) then
        var e := FirstIndexOfChar(s, '>', ne);
        Some(TagMatch(p, s[p..e], s[p + 1..ne], Some(s[ne..e])))
      else
        Some(TagMatch(p, s[p..ne], s[p + 1..ne], None))
    else None
  }

  /**
   * The parts of a match: the raw text is `<`, the name and the attribute
   * group; the name is a maximal non-empty run of name characters; the
   * group is there exactly when white space follows the name, and then it
   * starts with that white space, holds no `>` and ends the match at a `>`
   * or at the end of the line.
   */
  lemma TagMatchParts(s: string, p: nat)
    requires TagMatchAt(s, p).Some?
    ensures var m := TagMatchAt(s, p).value;
      && m.raw == ['<'] + m.name + (match m.attr case Some(a) => a case None => "")
      && |m.name| > 0 && (forall k :: 0 <= k < |m.name| ==> IsNameChar(m.name[k]))
      && (p + 1 + |m.name| < |s| ==> !IsNameChar(s[p + 1 + |m.name|]))
      && (m.attr.Some? <==> p + 1 + |m.name| < |s| && IsJsSpace(s[p + 1 + |m.name|]))
      && (m.attr.Some? ==> |m.attr.value| > 0 && IsJsSpace(m.attr.value[0]) && '>' !in m.attr.value
                           && (EndOf(m) == |s| || s[EndOf(m)] == '>'))
  {
    var m := TagMatchAt(s, p).value;
    var ne := NameRunEnd(s, p + 1);
    assert m.name == s[p + 1..ne];
    if ne < |s| && IsJsSpace(s[ne]) {
      var e := FirstIndexOfChar(s, '>', ne);
      assert s[p..e] == ['<'] + s[p + 1..ne] + s[ne..e];
    } else {
      assert s[p..ne] == ['<'] + s[p + 1..ne];
    }
  }

  /** The callback's next match from scan column `i` on. */
  function TagExecFrom(s: string, i: nat): (r: Option<TagMatch>)
    ensures r.Some? ==> i <= r.value.index < EndOf(r.value) <= |s|
    decreases |s| - i
  {
    if i >= |s| then None
    else match TagMatchAt(s, i)
      case Some(m) => Some(m)
      case None => TagExecFrom(s, i + 1)
  }

  /** The scan is leftmost: it returns the match at its result's column and skips only columns where none starts. */
  lemma {:induction false} TagExecLeftmost(s: string, i: nat)
    ensures TagExecFrom(s, i).Some? ==> TagMatchAt(s, TagExecFrom(s, i).value.index) == TagExecFrom(s, i)
    ensures TagExecFrom(s, i).Some? ==> forall q :: i <= q < TagExecFrom(s, i).value.index ==> TagMatchAt(s, q).None?
    ensures TagExecFrom(s, i).None? ==> forall q :: i <= q < |s| ==> TagMatchAt(s, q).None?
    decreases |s| - i
  {
    if i < |s| {
      var m := TagMatchAt(s, i);
      if m.Some? {
        assert TagExecFrom(s, i) == m;
      } else {
        var r := TagExecFrom(s, i + 1);
        assert TagExecFrom(s, i) == r;
        TagExecLeftmost(s, i + 1);
        if r.Some? {
          forall q | i <= q < r.value.index ensures TagMatchAt(s, q).None? {
            if q > i { assert i + 1 <= q; }
          }
        } else {
          forall q | i <= q < |s| ensures TagMatchAt(s, q).None? {
            if q > i { assert i + 1 <= q; }
          }
        }
      }
    }
  }

  /** Every match `pureLine.replace` hands to its callback, from scan column `i` on. */
  function TagMatchesFrom(s: string, i: nat): (r: seq<TagMatch>)
    ensures forall j :: 0 <= j < |r| ==> i <= r[j].index < EndOf(r[j]) <= |s|
    ensures forall j :: 0 <= j < |r| - 1 ==> EndOf(r[j]) <= r[j + 1].index
    decreases |s| - i
  {
    match TagExecFrom(s, i)
    case None => []
    case Some(m) =>
      var rest := TagMatchesFrom(s, EndOf(m));
      assert forall j :: 1 <= j < |rest| + 1 ==> ([m] + rest)[j] == rest[j - 1];
      [m] + rest
  }

  /** The matches from the scan column once the scan has returned `next`. */
  function TagOnward(s: string, next: Option<TagMatch>): seq<TagMatch> {
    match next
    case None => []
    case Some(m) => if EndOf(m) <= |s| then [m] + TagMatchesFrom(s, EndOf(m)) else []
  }

  lemma TagMatchesOnward(s: string, i: nat)
    ensures TagMatchesFrom(s, i) == TagOnward(s, TagExecFrom(s, i))
  {
  }

  lemma TagOnwardStep(s: string, m: TagMatch)
    requires EndOf(m) <= |s|
    ensures TagOnward(s, Some(m)) == [m] + TagOnward(s, TagExecFrom(s, EndOf(m)))
  {
    TagMatchesOnward(s, EndOf(m));
  }

  /**
   * The position of the first match that contains column `c`: the `!tag`
   * guard keeps the first one the callback sees.
   */
  function FirstContaining(ms: seq<TagMatch>, c: nat): (r: Option<nat>)
    ensures r.Some? ==> r.value < |ms| && Contains(ms[r.value], c)
    ensures r.Some? ==> forall j :: 0 <= j < r.value ==> !Contains(ms[j], c)
    ensures r.None? ==> forall j :: 0 <= j < |ms| ==> !Contains(ms[j], c)
  {
    if ms == [] then None
    else
      var init := ms[..|ms| - 1];
      assert forall j :: 0 <= j < |init| ==> init[j] == ms[j];
      match FirstContaining(init, c)
      case Some(j) => Some(j)
      case None => if Contains(ms[|ms| - 1], c) then Some(|ms| - 1) else None
  }

  lemma {:induction false} FirstContainingSnoc(ms: seq<TagMatch>, m: TagMatch, c: nat)
    ensures FirstContaining(ms + [m], c) ==
      if FirstContaining(ms, c).Some? then FirstContaining(ms, c)
      else if Contains(m, c) then Some(|ms|) else None
  {
    assert (ms + [m])[..|ms|] == ms;
  }

  /**
   * The cursor classification for the selected match (src/magic/utils.ts:17-40),
   * `flags` being `attrFlagLine`.
   */
  function Classify(m: TagMatch, c: nat, word: string, isComponent: string -> bool, flags: string): (t: Tag)
    ensures t.name == m.name && t.word == word && t.attributes.None?
    ensures t.isOnAttrName ==> !t.isOnTagName && !t.isOnAttrValue && word != ""
    ensures !t.isOnAttrValue ==> t.attrName == ""
  {
    var onName := c <= m.index + |m.name| + 1 || isComponent(word);
    var onValue := c < |flags| && flags[c] == '%';
    var attrName := if onValue then GetAttrName(flags[..c]) else "";
    Tag(m.name, word, onName, !onName && !onValue && word != "", onValue, attrName, None)
  }

  /**
   * `attrstr = line.substr(index + raw.indexOf(attr))`: the original line
   * from where the attribute group starts; an absent group is `undefined`,
   * which `indexOf` looks for as the text "undefined".
   */
  function AttrText(line: string, m: TagMatch): (r: string)
    ensures |r| <= |line| && r == line[|line| - |r|..]
  {
    SubstrToEnd(line, m.index + IndexOf(m.raw, match m.attr case Some(a) => a case None => "undefined"))
  }

  /** `attrstr` after the callback has seen `ms`: set by every match, so the last one decides. */
  function LastAttrText(line: string, ms: seq<TagMatch>): (r: string)
    ensures ms == [] ==> r == ""
    ensures |r| <= |line| && r == line[|line| - |r|..]
  {
    if ms == [] then "" else AttrText(line, ms[|ms| - 1])
  }

  /** The tag chosen among the matches `ms`, before its attributes are attached. */
  function Selected(ms: seq<TagMatch>, c: nat, word: string, isComponent: string -> bool, flags: string): Option<Tag> {
    match FirstContaining(ms, c)
    case None => None
    case Some(j) => Some(Classify(ms[j], c, word, isComponent, flags))
  }

  /** Every match of the tag pattern in `pureLine`. */
  function TagMatches(line: string): seq<TagMatch> {
    TagMatchesFrom(PureLine(line), 0)
  }

  /** What `getTag` returns for the line, the cursor column and the editor's answers. */
  function TagSpec(line: string, c: nat, word: string, isComponent: string -> bool, includeAttr: bool): (r: Option<Tag>)
    ensures r.Some? ==> r.value.word == word
    ensures r.Some? && !includeAttr ==> r.value.attributes.None?
    ensures r.Some? && includeAttr ==>
      (r.value.attributes.Some? && forall k :: k in r.value.attributes.value ==> r.value.attributes.value[k].name == k)
  {
    var ms := TagMatches(line);
    match Selected(ms, c, word, isComponent, AttrFlagLine(line))
    case None => None
    case Some(t) =>
      if includeAttr then Some(t.(attributes := Some(AttrsOf(LastAttrText(line, ms))))) else Some(t)
  }

  /**
   * `getTag`: scan `pureLine` match by match, keep the first match that
   * contains the cursor, record `attrstr` at every match, then attach the
   * attributes parsed from the last `attrstr`.
   */
  method GetTag(line: string, c: nat, word: string, isComponent: string -> bool, includeAttr: bool := true)
    returns (tag: Option<Tag>)
    ensures tag == TagSpec(line, c, word, isComponent, includeAttr)
  {
    var pureLine := PureLine(line);
    var attrFlagLine := AttrFlagLine(line);
    tag := None;
    var attrstr := "";
    ghost var seen: seq<TagMatch> := [];
    var next := TagExecFrom(pureLine, 0);
    TagMatchesOnward(pureLine, 0);
    while next.Some?
      invariant next.Some? ==> next.value.index < EndOf(next.value) <= |pureLine|
      invariant TagMatchesFrom(pureLine, 0) == seen + TagOnward(pureLine, next)
      invariant tag == Selected(seen, c, word, isComponent, attrFlagLine)
      invariant attrstr == LastAttrText(line, seen)
      decreases if next.Some? then |pureLine| - next.value.index else 0
    {
      var m := next.value;
      attrstr := AttrText(line, m);
      if tag.None? && Contains(m, c) {
        tag := Some(Classify(m, c, word, isComponent, attrFlagLine));
      }
      FirstContainingSnoc(seen, m, c);
      next := TagExecFrom(pureLine, EndOf(m));
      TagOnwardStep(pureLine, m);
      Regroup(seen, m, TagOnward(pureLine, next));
      seen := seen + [m];
    }
    assert seen + TagOnward(pureLine, next) == seen;
    if tag.Some? && includeAttr {
      var attributes := GetAttrs(attrstr);
      tag := Some(tag.value.(attributes := Some(attributes)));
    }
  }

  // ---------------------------------------------------------------------
  // What getTag promises
  // ---------------------------------------------------------------------

  /** A column of `pureLine` holds either the interpolation fill or the line's own character. */
  lemma PureLineAt(line: string, k: nat)
    requires k < |line|
    ensures PureLine(line)[k] == '^' || PureLine(line)[k] == line[k]
  {
    MaskAt(Interpolation, '^', line, k);
  }

  /** A line without `<` has no tag, wherever the cursor is. */
  lemma NoAngleNoTag(line: string, c: nat, word: string, isComponent: string -> bool, includeAttr: bool)
    requires '<' !in line
    ensures TagSpec(line, c, word, isComponent, includeAttr).None?
  {
    var pure := PureLine(line);
    forall q | 0 <= q < |pure| ensures TagMatchAt(pure, q).None? {
      PureLineAt(line, q);
    }
    TagExecLeftmost(pure, 0);
    assert TagMatches(line) == [];
  }

  /**
   * A tag is returned exactly when some match contains the cursor; it is
   * the first such match, and with the attributes attached exactly when
   * they were asked for.
   */
  lemma TagSelection(line: string, c: nat, word: string, isComponent: string -> bool, includeAttr: bool)
    ensures var ms := TagMatches(line);
      TagSpec(line, c, word, isComponent, includeAttr).Some? <==> exists j :: 0 <= j < |ms| && Contains(ms[j], c)
    ensures var ms := TagMatches(line);
      var r := TagSpec(line, c, word, isComponent, includeAttr);
      r.Some? ==> exists j :: (0 <= j < |ms| && Contains(ms[j], c) && r.value.name == ms[j].name
        && (forall j' :: 0 <= j' < j ==> !Contains(ms[j'], c)))
    ensures var r := TagSpec(line, c, word, isComponent, includeAttr);
      r.Some? ==> (r.value.attributes.Some? <==> includeAttr)
  {
  }

  /**
   * The returned name is written in the line itself: a `<` at or before
   * the cursor followed by the name, a non-empty run of name characters.
   */
  lemma TagNameInLine(line: string, c: nat, word: string, isComponent: string -> bool, includeAttr: bool)
    requires TagSpec(line, c, word, isComponent, includeAttr).Some?
    ensures var name := TagSpec(line, c, word, isComponent, includeAttr).value.name;
      && |name| > 0 && (forall k :: 0 <= k < |name| ==> IsNameChar(name[k]))
      && exists p: nat :: p <= c && OccursAt(line, ['<'] + name, p)
  {
    var ms := TagMatches(line);
    var m := ms[FirstContaining(ms, c).value];
    TagMatchAtListed(PureLine(line), 0, FirstContaining(ms, c).value);
    MatchInLine(line, m);
  }

  /** A match found in `pureLine` has its `<` and its name unmasked in the line. */
  lemma MatchInLine(line: string, m: TagMatch)
    requires TagMatchAt(PureLine(line), m.index) == Some(m)
    ensures |m.name| > 0 && (forall k :: 0 <= k < |m.name| ==> IsNameChar(m.name[k]))
    ensures OccursAt(line, ['<'] + m.name, m.index)
  {
    var pure := PureLine(line);
    TagMatchParts(pure, m.index);
    var w := ['<'] + m.name;
    assert m.raw[..|w|] == w;
    assert OccursAt(pure, w, m.index);
    forall k | 0 <= k < |w| ensures w[k] != '^' {
      if k > 0 { assert w[k] == m.name[k - 1]; }
    }
    PureLineChars(line);
    Unmasked(line, pure, m.index, w);
  }

  /** Every column of `pureLine` holds the interpolation fill or the line's own character. */
  lemma PureLineChars(line: string)
    ensures |PureLine(line)| == |line|
    ensures forall k :: 0 <= k < |line| ==> PureLine(line)[k] == '^' || PureLine(line)[k] == line[k]
  {
    forall k | 0 <= k < |line| ensures PureLine(line)[k] == '^' || PureLine(line)[k] == line[k] {
      PureLineAt(line, k);
    }
  }

  /** Text without the fill character that occurs in the masked line occurs in the line at the same column. */
  lemma Unmasked(line: string, pure: string, a: nat, w: string)
    requires |pure| == |line| && OccursAt(pure, w, a) && forall k :: 0 <= k < |w| ==> w[k] != '^'
    requires forall k :: 0 <= k < |line| ==> pure[k] == '^' || pure[k] == line[k]
    ensures OccursAt(line, w, a)
  {
    forall k | 0 <= k < |w| ensures line[a + k] == w[k] {
      assert pure[a + k] == w[k];
    }
  }

  /** Every listed match is the pattern's match at its own column. */
  lemma {:induction false} TagMatchAtListed(s: string, i: nat, j: nat)
    requires j < |TagMatchesFrom(s, i)|
    ensures TagMatchAt(s, TagMatchesFrom(s, i)[j].index) == Some(TagMatchesFrom(s, i)[j])
    decreases |s| - i
  {
    var m := TagExecFrom(s, i).value;
    TagExecLeftmost(s, i);
    assert TagMatchesFrom(s, i) == [m] + TagMatchesFrom(s, EndOf(m));
    if j > 0 {
      TagMatchAtListed(s, EndOf(m), j - 1);
    }
  }

  /**
   * The cursor flags: on the tag name when the cursor is within `<name`
   * or the word is a component; inside a value exactly when the cursor is
   * inside a quoted literal of `pureLine` or the line itself has an
   * unmasked `%` there; on an attribute name only when on neither and
   * there is a word.
   */
  lemma TagFlags(line: string, c: nat, word: string, isComponent: string -> bool, includeAttr: bool)
    requires TagSpec(line, c, word, isComponent, includeAttr).Some?
    ensures var t := TagSpec(line, c, word, isComponent, includeAttr).value;
      var ms := TagMatches(line);
      var m := ms[FirstContaining(ms, c).value];
      && (t.isOnTagName <==> c <= m.index + |m.name| + 1 || isComponent(word))
      && (t.isOnAttrValue <==>
           (c < |line| &&
            (Covers(Matches(Quoted, PureLine(line)), c)
             || (!Covers(Matches(Interpolation, line), c) && line[c] == '%'))))
      && (t.isOnAttrName <==> !t.isOnTagName && !t.isOnAttrValue && word != "")
  {
    if c < |line| {
      MaskAt(Quoted, '%', PureLine(line), c);
      MaskAt(Interpolation, '^', line, c);
    }
  }

  /**
   * The attribute name reported inside a value is the token the
   * `\s([\w-:.]+)=%*$` pattern finds in `attrFlagLine` up to the cursor,
   * and `""` outside a value.
   */
  lemma TagAttrName(line: string, c: nat, word: string, isComponent: string -> bool, includeAttr: bool)
    requires TagSpec(line, c, word, isComponent, includeAttr).Some?
    ensures var t := TagSpec(line, c, word, isComponent, includeAttr).value;
      && (t.attrName != "" ==> t.isOnAttrValue && exists p: nat :: AttrNameMatch(AttrFlagLine(line)[..c], p, t.attrName))
      && (t.isOnAttrValue ==> forall p: nat, tok :: AttrNameMatch(AttrFlagLine(line)[..c], p, tok) ==> t.attrName == tok)
  {
    var t := TagSpec(line, c, word, isComponent, includeAttr).value;
    if t.isOnAttrValue {
      var str := AttrFlagLine(line)[..c];
      assert t.attrName == GetAttrName(str);
      GetAttrNameSound(str);
      forall p: nat, tok | AttrNameMatch(str, p, tok) ensures t.attrName == tok {
        GetAttrNameComplete(str, p, tok);
      }
    }
  }

  /**
   * With an attribute group, `attrstr` is the original line from the
   * column where the group starts.
   */
  lemma AttrTextAfterName(line: string, m: TagMatch)
    requires TagMatchAt(PureLine(line), m.index) == Some(m) && m.attr.Some?
    ensures m.index + 1 + |m.name| <= |line|
    ensures AttrText(line, m) == line[m.index + 1 + |m.name|..]
  {
    TagMatchParts(PureLine(line), m.index);
    AttrGroupIndex(m);
  }

  /**
   * `raw.indexOf(attr)` finds the group right after the name: the group
   * begins with white space, and neither `<` nor the name holds any.
   */
  lemma AttrGroupIndex(m: TagMatch)
    requires m.attr.Some? && |m.attr.value| > 0 && IsJsSpace(m.attr.value[0])
    requires m.raw == ['<'] + m.name + m.attr.value
    requires forall k :: 0 <= k < |m.name| ==> IsNameChar(m.name[k])
    ensures IndexOf(m.raw, m.attr.value) == 1 + |m.name|
  {
    var a := m.attr.value;
    var pre := ['<'] + m.name;
    forall k | 0 <= k < |pre| ensures pre[k] != a[0] {
      assert pre[k] == '<' || IsNameChar(pre[k]);
    }
    IndexOfAfter(pre, a);
  }

  /**
   * Without an attribute group, `raw.indexOf(undefined)` looks for the text
   * "undefined"; when the match does not hold it, `attrstr` starts one
   * column before the `<`, or is the line's last character when the tag
   * starts the line.
   */
  lemma AttrTextUndefined(line: string, m: TagMatch)
    requires TagMatchAt(PureLine(line), m.index) == Some(m) && m.attr.None?
    requires !Includes(m.raw, "undefined")
    ensures m.index > 0 ==> AttrText(line, m) == line[m.index - 1..]
    ensures m.index == 0 ==> AttrText(line, m) == [line[|line| - 1]]
  {
  }
}
