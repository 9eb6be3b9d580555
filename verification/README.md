# A verified model of the Angular template scanner in `src/magic/utils.ts`

The editor extension answers completion requests with a small, line-based
scanner. It does not parse the template. Given one line of text and a cursor
column, `getTag` works in three steps:

- It hides every `{{…}}` interpolation behind `^` characters. The result is
  `pureLine`.
- It also hides every quoted literal behind `%` characters. The result is
  `attrFlagLine`. Both steps keep the line's length, so columns still line up.
- It looks for `<name` matches in `pureLine`, keeps the first match that
  contains the cursor, and classifies the cursor:
  - on the tag name;
  - on an attribute name;
  - inside an attribute value, in which case it also recovers that
    attribute's name with `getAttrName`.

On request, `getTag` also parses the tag's attribute text with `getAttrs`.
`getAttrs` runs a regular expression over the text. It files each match under
its stripped name, using the classifier `pureAttr`. The classifier knows the
binding syntaxes `[x]`, `(x)`, `[(x)]` and `#x`, and it guesses a type for
the value.

The project is organised in five modules:

- `JsText` (`js_text.dfy`): the JavaScript primitives the code relies on. They
  are written out with their edge cases:
  - the regular-expression character classes `\w`, `[\-\w]`, `[\w-:.]` and
    `\s`;
  - `indexOf`, which gives -1 when nothing is found;
  - `substr`, including the clamping of negative starts from section B.2.2.1
    of ECMA-262;
  - `repeat`.
- `Masking` (`masking.dfy`): the two `replace` passes with the `replacer`
  closure. A global replace is a leftmost, non-overlapping scan. This module
  states which columns are overwritten.
- `Attributes` (`attributes.dfy`):
  - `pureAttr` and `getAttrName` are functions.
  - The attribute regular expression is written out by hand.
  - `getAttrs` is a method with the source's `while (re.exec(text))` loop,
    proved against the function `AttrsOf`.
- `TagLocator` (`tag.dfy`): the tag regular expression, and `getTag` as a
  method that walks the matches of `pureLine` one at a time. It updates `tag`
  and `attrstr` as the callback does, and is proved against the function
  `TagSpec`. The lemmas state what a caller may rely on.
- `Cases` (`cases.dfy`): short lines worked through the model. They show the
  two behaviours of the cursor selection described under "Behaviour worth
  knowing", and the reading of one property binding.

## Model

| member | source | states |
|---|---|---|
| JsText.IndexOf | src/magic/utils.ts:72 | `indexOf` gives the first column where the text occurs, or -1 exactly when it occurs nowhere |
| JsText.IncludesChar | src/magic/utils.ts:72 | `~s.indexOf(ch)` holds exactly when the character occurs in the string |
| JsText.IndexOfAfter | src/magic/utils.ts:14 | text whose first character is absent from a prefix is found right after that prefix |
| JsText.Substr | src/magic/utils.ts:83 | `substr(start, length)` is the slice when it is in range, empty for a non-positive length, and always a piece of the string |
| JsText.SubstrToEnd | src/magic/utils.ts:91 | `substr(start)` is the suffix from `start`, and from `length + start` when the start is negative |
| Masking.LiteralEndMeans | src/magic/utils.ts:8-9 | the hand-written matcher finds exactly the `{{…}}` and quoted spans the two patterns describe |
| Masking.MatchesFrom | src/magic/utils.ts:8-9 | a global replace's matches are in order, do not overlap, and each is a match of the pattern |
| Masking.MatchesLeftmost | src/magic/utils.ts:8-9 | the scan misses nothing: no match of the pattern starts at any column the matches leave uncovered |
| Masking.Mask | src/magic/utils.ts:7-9 | masking keeps the length of the line |
| Masking.PureLine | src/magic/utils.ts:8 | `pureLine` is as long as the line, so its columns are the line's columns |
| Masking.AttrFlagLine | src/magic/utils.ts:9 | `attrFlagLine` is as long as the line, so its columns are the line's columns |
| Masking.MaskAt | src/magic/utils.ts:7-9 | a masked column holds the fill character inside a match and the original character everywhere else |
| Attributes.PureAttr | src/magic/utils.ts:70-94 | value unchanged. Value type, by priority: PropertyBinding iff the value has `'` and the raw name has `[`; else Boolean iff `true`/`false`; else Number iff non-empty digits and dots; else String. Binding type and name by the first marker found: `[(` InputOutput with 2 characters cut from each end; `[` Input with 1 cut from each end; `(` Output with 1 cut from each end; `#` Template with the first cut; none: Input with the name unchanged |
| Attributes.PureAttrRoundTrip | src/magic/utils.ts:80-92 | for a name written in any of the five syntaxes, `pureAttr` recovers the bare name and the binding type of that syntax |
| Attributes.GetAttrName | src/magic/utils.ts:63-68 | the result is a run of `[\w-:.]` characters, and a non-empty one leaves room for white space before it and `=` after it |
| Attributes.GetAttrNameSound | src/magic/utils.ts:63-68 | a non-empty `getAttrName` result is the group of a match of `\s([\w-:.]+)=%*$` |
| Attributes.GetAttrNameComplete | src/magic/utils.ts:63-68 | whenever that pattern matches, `getAttrName` returns its group, so the group is unique |
| Attributes.AttrMatchAt | src/magic/utils.ts:53 | a match of the attribute pattern starts where it was tried, is not empty, and its first group is the text it starts with |
| Attributes.AttrMatchValue | src/magic/utils.ts:53-57 | the value group is the non-empty, quote-free text between `="` and `"`; without it the value is `""`, and `=""` never forms one |
| Attributes.AttrMatchAtNameChar | src/magic/utils.ts:53 | the attribute pattern matches at every `[\-\w]` character |
| Attributes.AttrMatchNeedsNameChar | src/magic/utils.ts:53 | every match of the attribute pattern holds a `[\-\w]` character within its first three columns: right at its start, or after a one- or two-character opening marker |
| Attributes.AttrMatchRoundTrip | src/magic/utils.ts:53 | a name written in any of the five syntaxes, followed by `="value"` with a non-empty, quote-free value, is matched with the written name as the first group, the value as the second, and the match ends after the closing quote, whatever follows |
| Attributes.AttrEntryRoundTrip | src/magic/utils.ts:53-57 | the entry built from that match carries the bare name, the binding type of the syntax and the value as written |
| Attributes.ExecFromLeftmost | src/magic/utils.ts:56 | `re.exec` returns the leftmost match from `lastIndex`, and `null` only when no column from there starts one |
| Attributes.AttrMatches | src/magic/utils.ts:56 | the matches the `while (re.exec(text))` loop sees lie inside the text, each non-empty, in order and without overlap |
| Attributes.EntryOf | src/magic/utils.ts:57 | the entry keeps the value group as its value; without a value group (`match[2] \|\| ''`) the value is `""`, typed as a string |
| Attributes.Entries | src/magic/utils.ts:57 | one `pureAttr` entry per match, in match order |
| Attributes.Collect | src/magic/utils.ts:58 | every entry is filed under its own stripped name |
| Attributes.CollectKeys | src/magic/utils.ts:58 | the keys are exactly the stripped names of the matches |
| Attributes.CollectLastWins | src/magic/utils.ts:58 | the entry under a name is the last one with that name: later matches overwrite earlier ones |
| Attributes.CollectSnoc | src/magic/utils.ts:58 | filing one more entry is the map update `res[item.name] = item` |
| Attributes.AttrsOf | src/magic/utils.ts:52-61 | the map `getAttrs` returns files every entry under its own name |
| Attributes.GetAttrs | src/magic/utils.ts:52-61 | the loop over `re.exec` builds `AttrsOf(text)`, and every entry sits under its own name |
| Attributes.AttrsEmpty | src/magic/utils.ts:52-61 | the attribute map is empty exactly when the text has no `[\-\w]` character |
| TagLocator.TagMatchAt | src/magic/utils.ts:13 | the tag pattern matches at a column exactly when `<` and a name character stand there; the match is the text it starts with |
| TagLocator.TagMatchParts | src/magic/utils.ts:13 | a match is `<`, a maximal non-empty name, and an attribute group. The group is present exactly when white space follows the name; it then starts with that white space, holds no `>`, and runs to the next `>` or the end of the line |
| TagLocator.TagExecLeftmost | src/magic/utils.ts:13 | the callback's matches are leftmost: no match starts at a skipped column |
| TagLocator.TagMatchesFrom | src/magic/utils.ts:13 | the callback's matches lie inside the line, each non-empty, in order and without overlap |
| TagLocator.FirstContaining | src/magic/utils.ts:16 | the `!tag` guard selects the first match whose inclusive span contains the cursor; none is selected only when no match contains it |
| TagLocator.FirstContainingSnoc | src/magic/utils.ts:16 | one more match changes the selection only when nothing was selected before and the new match contains the cursor |
| TagLocator.Classify | src/magic/utils.ts:23-40 | the tag carries the match's name and the word; on an attribute name excludes the other two flags and needs a word; outside a value the attribute name is `""` |
| TagLocator.AttrText | src/magic/utils.ts:14 | `attrstr` for one match is always a suffix of the original line |
| TagLocator.LastAttrText | src/magic/utils.ts:12-14 | `attrstr` after the callback is `''` when there was no match, and otherwise a suffix of the original line |
| TagLocator.TagSpec | src/magic/utils.ts:5-50 | a returned tag carries the word under the cursor; its attributes are present exactly when `includeAttr` holds, and then every entry sits under its own name |
| TagLocator.GetTag | src/magic/utils.ts:5-50 | the callback loop and the attachment of attributes compute exactly `TagSpec`; `includeAttr` defaults to `true` |
| TagLocator.NoAngleNoTag | src/magic/utils.ts:13-16 | a line without `<` yields no tag, for every cursor column |
| TagLocator.TagSelection | src/magic/utils.ts:13-49 | a tag is returned iff some match contains the cursor; it is the first such match; attributes are attached iff they were asked for |
| TagLocator.TagNameInLine | src/magic/utils.ts:13 | the returned name is a non-empty run of name characters that the line itself writes after a `<` at or before the cursor |
| TagLocator.MatchInLine | src/magic/utils.ts:8-13 | a match found in `pureLine` has its `<` and its name unmasked in the original line |
| TagLocator.PureLineAt | src/magic/utils.ts:8 | each column of `pureLine` is `^` or the line's own character |
| TagLocator.TagFlags | src/magic/utils.ts:23-32 | on the tag name iff `cursor <= index + name.length + 1` or the word is a component. Inside a value iff the cursor is in a quoted literal of `pureLine` or on an unmasked `%` of the line. On an attribute name iff neither flag holds and there is a word |
| TagLocator.TagAttrName | src/magic/utils.ts:28-31 | the reported attribute name is non-empty only inside a value. Inside a value it is the token the `getAttrName` pattern finds in `attrFlagLine` up to the cursor |
| TagLocator.AttrGroupIndex | src/magic/utils.ts:14 | `raw.indexOf(attr)` finds the attribute group right after `<` and the name |
| TagLocator.AttrTextAfterName | src/magic/utils.ts:14 | with an attribute group, `attrstr` is the original line from the column where the group starts |
| TagLocator.AttrTextUndefined | src/magic/utils.ts:14 | without a group, `indexOf(undefined)` looks for the text "undefined". When that text is absent, `attrstr` starts one column before the `<`, or is the line's last character when the tag opens the line |
| Cases.FirstMatchWins | src/magic/utils.ts:16 | in `<a<b`, both matches contain column 2, and the first one, `a`, is reported |
| Cases.NameAndValueTogether | src/magic/utils.ts:23-28 | in `<a"x">` with the cursor at column 2, the cursor is on the tag name and inside a value at once, with no component word |
| Cases.PropertyBindingEntry | src/magic/utils.ts:53-57 | `[foo]="'bar'"` is read as the input `foo` with value `'bar'`, typed as a property binding |

## Behaviour worth knowing

- When several matches contain the cursor, the first one is reported. The
  `!tag` guard at src/magic/utils.ts:16 keeps it. A match's span includes its
  end column, so two tags that touch, as in `<a<b`, can both contain the
  cursor (`Cases.FirstMatchWins`).
- `attrstr` is assigned at every match (src/magic/utils.ts:14). The attributes
  attached to the tag are therefore parsed from the text of the last match on
  the line, whichever tag the cursor is in (`TagLocator.TagSpec`).
- `isOnAttrName` never holds together with either other flag. `isOnTagName`
  and `isOnAttrValue` can both hold, and not only through a component word: a
  quote or a `%` right after the tag name is enough
  (`Cases.NameAndValueTogether`).
- Text without any word character yields no attribute, but a lone `-` does
  yield one, because the name class is `[\-\w]`. `Attributes.AttrsEmpty`
  states the exact condition.
- `pureAttr` tests whether the name *contains* a marker, not whether it starts
  with one, and the tests follow the source's order.

## Left out

- The editor document and position become plain inputs: the line text, the
  cursor column, and the word under the cursor (`""` when the editor finds
  none). `doc.lineAt`, `getWordRangeAtPosition` with its `\b[\w-:.]+\b`
  pattern, and `getText` are not modelled (src/magic/utils.ts:6, 17-22).
- `isComponent` lives in `./resources`, which is not part of this model. It
  is a predicate parameter of `GetTag`.
- `typingPreChart` only reads text from the editor, so it is not modelled.
- The legacy global `RegExp.$1` is not modelled. The group `getAttrName` reads
  from it is returned directly.
- Strings are sequences of Dafny characters, not UTF-16 code units. A
  character outside the Basic Multilingual Plane counts as one column here but
  two in the source.
- `tag.attributes = …` mutates a freshly built object. Here it is a record
  update of the `Tag` value.
- `GetAttrName`: its own `ensures` state only the shape of the result. The
  full contract, that the result is exactly the group of the pattern's match,
  is stated by `Attributes.GetAttrNameSound` and
  `Attributes.GetAttrNameComplete`.
- `Attributes.Collect`: `res` is a plain JavaScript object, and the model
  treats it as a map. The two differ for the name `__proto__`, since
  `res["__proto__"] = item` calls the prototype setter. It makes `item` the
  prototype of `res` and adds no own key. The model instead files an entry
  under `"__proto__"`. For the text ` __proto__`, the source returns an object
  with no own keys, while `Attributes.AttrsEmpty` calls the model's map
  non-empty. Every other name becomes an own key in both.
