/**
 * Short lines worked through the model, showing the two quirks of the
 * cursor selection in `getTag` (matches that share a boundary column, and a
 * cursor flagged as on the tag name and inside a value at once) and the
 * reading of one bound attribute.
 */
module Cases {
  import opened JsText
  import opened Masking
  import opened Attributes
  import opened TagLocator

  /** No word under the cursor names a component. */
  function NoComponent(w: string): bool { false }

  /** Columns without a quote are skipped by the quoted-literal scan. */
  lemma {:induction false} SkipUnquoted(s: string, i: nat, j: nat)
    requires i <= j <= |s|
    requires forall k :: i <= k < j ==> s[k] != '"' && s[k] != '\''
    ensures MatchesFrom(Quoted, s, i) == MatchesFrom(Quoted, s, j)
    decreases j - i
  {
    if i < j {
      assert QuotedEnd(s, i).None?;
      SkipUnquoted(s, i + 1, j);
    }
  }

  /** Columns without `{` are skipped by the interpolation scan. */
  lemma {:induction false} SkipUnbraced(s: string, i: nat)
    requires i <= |s|
    requires forall k :: i <= k < |s| ==> s[k] != '{'
    ensures MatchesFrom(Interpolation, s, i) == []
    decreases |s| - i
  {
    if i < |s| {
      assert InterpolationEnd(s, i).None?;
      SkipUnbraced(s, i + 1);
    }
  }

  /** A line without `{` has nothing to hide from the tag scan. */
  lemma NoBracePure(s: string)
    requires forall k :: 0 <= k < |s| ==> s[k] != '{'
    ensures PureLine(s) == s
  {
    SkipUnbraced(s, 0);
  }

  /** Columns where no `<name` starts are skipped by the tag scan. */
  lemma {:induction false} SkipTags(s: string, i: nat, j: nat)
    requires i <= j <= |s|
    requires forall k :: i <= k < j ==> s[k] != '<'
    ensures TagMatchesFrom(s, i) == TagMatchesFrom(s, j)
    decreases j - i
  {
    if i < j {
      SkipTags(s, i + 1, j);
      assert TagExecFrom(s, i) == TagExecFrom(s, i + 1);
    }
  }

  /** `<a<b` holds two tag matches, `<a` and `<b`, the first ending where the second starts. */
  lemma TwoTagsMatches(line: string)
    requires line == "<a<b"
    ensures TagMatches(line) == [TagMatch(0, "<a", "a", None), TagMatch(2, "<b", "b", None)]
  {
    NoBracePure(line);
    assert NameRunEnd(line, 1) == 2;
    assert NameRunEnd(line, 3) == 4;
    assert line[..2] == "<a" && line[1..2] == "a";
    assert line[2..4] == "<b" && line[3..4] == "b";
    assert TagExecFrom(line, 0) == Some(TagMatch(0, "<a", "a", None));
    assert TagExecFrom(line, 2) == Some(TagMatch(2, "<b", "b", None));
    assert TagMatchesFrom(line, 4) == [];
    assert TagMatchesFrom(line, 2) == [TagMatch(2, "<b", "b", None)];
  }

  /** `<a<b` has no quote, so nothing is flagged as an attribute value. */
  lemma TwoTagsFlags(line: string)
    requires line == "<a<b"
    ensures AttrFlagLine(line) == line
  {
    NoBracePure(line);
    SkipUnquoted(line, 0, 4);
  }

  /**
   * In `<a<b` the match `<a` ends at column 2, where `<b` starts, so both
   * contain a cursor at column 2; the first one is reported.
   */
  lemma FirstMatchWins(line: string)
    requires line == "<a<b"
    ensures TagSpec(line, 2, "", NoComponent, false) == Some(Tag("a", "", true, false, false, "", None))
  {
    TwoTagsMatches(line);
    TwoTagsFlags(line);
    var ms := TagMatches(line);
    assert ms[..1] == [ms[0]] && [ms[0]][..0] == [];
    assert FirstContaining(ms, 2) == Some(0);
    assert AttrFlagLine(line)[2] == '<';
  }

  /** `<a"x">` holds one tag match, `<a`: the quote ends the name and is no white space. */
  lemma GluedQuoteMatches(line: string)
    requires line == "<a\"x\">"
    ensures TagMatches(line) == [TagMatch(0, "<a", "a", None)]
  {
    NoBracePure(line);
    assert NameRunEnd(line, 1) == 2;
    assert line[..2] == "<a" && line[1..2] == "a";
    assert TagMatchAt(line, 0) == Some(TagMatch(0, "<a", "a", None));
    SkipTags(line, 2, 6);
  }

  /** In `<a"x">` the quoted `"x"` covers columns 2 to 4, so column 2 is flagged. */
  lemma GluedQuoteFlag(line: string)
    requires line == "<a\"x\">"
    ensures AttrFlagLine(line)[..3] == "<a%"
  {
    NoBracePure(line);
    assert FirstIndexOfChar(line, '"', 4) == 4;
    assert FirstIndexOfChar(line, '"', 3) == 4;
    assert QuotedEnd(line, 2) == Some(5);
    SkipUnquoted(line, 0, 2);
    assert Matches(Quoted, line)[0] == Span(2, 5);
    MaskAt(Quoted, '%', line, 0);
    MaskAt(Quoted, '%', line, 1);
    MaskAt(Quoted, '%', line, 2);
  }

  /**
   * In `<a"x">` the quote follows the name directly, so with the cursor at
   * column 2 the cursor is both on the tag name and inside an attribute
   * value, although the word names no component.
   */
  lemma NameAndValueTogether(line: string)
    requires line == "<a\"x\">"
    ensures TagSpec(line, 2, "", NoComponent, false) == Some(Tag("a", "", true, false, true, "", None))
  {
    GluedQuoteMatches(line);
    GluedQuoteFlag(line);
    GluedQuoteSelected(TagMatches(line), AttrFlagLine(line));
  }

  /** The selection step of `NameAndValueTogether`: the one match, classified at column 2. */
  lemma GluedQuoteSelected(ms: seq<TagMatch>, flags: string)
    requires ms == [TagMatch(0, "<a", "a", None)]
    requires |flags| >= 3 && flags[..3] == "<a%"
    ensures Selected(ms, 2, "", NoComponent, flags) == Some(Tag("a", "", true, false, true, "", None))
  {
    assert flags[2] == '%';
    assert flags[..2] == "<a";
    assert FirstContaining(ms, 2) == Some(0);
  }

  /**
   * `[foo]="'bar'"`: a property binding whose value is a quoted literal is
   * read back as input `foo`, with its value kept and typed as a property
   * binding.
   */
  lemma PropertyBindingEntry(text: string)
    requires text == "[foo]=\"'bar'\""
    ensures AttrMatchAt(text, 0).Some?
    ensures EntryOf(AttrMatchAt(text, 0).value) == TagAttr(Input, "foo", "'bar'", PropertyBinding)
  {
    assert text == Render(Property, "foo") + "=\"" + "'bar'" + "\"" + "";
    AttrEntryRoundTrip(Property, "foo", "'bar'", "");
  }
}
