# TextExtraction, modelled in Dafny

`TextExtraction` turns a text into the ordered list of parts a renderer
styles: each part is `{children, ...props}`. It works in three stages.

1. **Pre-highlighter (`checkAndApplyEditing`).** It sorts the caller's
   `"start|end"` ranges numerically by start. It then cuts the text into a
   plain slice before each range, the range itself and the rest of the
   text after the last range. Each range becomes a segment claimed with
   `_matched: true` and carrying `style: tagStyle`.
2. **Rule passes (`parse`).** Each rule in order scans every segment no
   earlier stage has claimed. A scan splits the segment around the rule's
   successive matches and turns each match into a claimed part. A rule's
   `nonExhaustiveModeMaxMatchCount` caps the matches it accepts across the
   whole pass. At the end `_matched` is deleted and parts with empty text
   are dropped.
3. **Match projection (`getMatchedPart`).** The props of a matched part
   are every rule key except `pattern`, `renderText` and
   `nonExhaustiveModeMaxMatchCount`:
   - a function-valued key becomes a callback bound to the matched text
     and the match index;
   - any other value is copied.

   `children` is the `renderText` of the matched text when the rule has
   one. `children` and `_matched` win over rule keys of the same name.

The project has five modules:
- `Wrappers` holds `Option`.
- `Segments` holds the records and sequence helpers.
- `PreHighlighter` holds the sort and the pre-highlighter's specification.
- `Matcher` holds the specification of scans, passes, all rules, the cleanup and `getMatchedPart`.
- `Extraction` holds the class `TextExtraction`.

The class keeps the constructor's four values as constant fields. Its
methods follow the source's loops, and each method is proved to return
exactly its specification function. The properties are lemmas about those
functions.

Things the model makes explicit:
- **The regular expression** is an oracle `find` from a remainder to an
  optional `Match(start, len)`. `exec` with `lastIndex` reset to 0 is such
  an oracle. `WellBehaved(find)` asks that, on every non-empty string, a
  match lies inside it and does not end at offset 0. An empty match at
  offset 0 leaves `textLeft` unchanged. Without a limit the `while` loop
  can then run forever; with a limit, the counter check at lines 115-118
  ends it.
- **Rule keys.** `Rule.fields` lists every key of the rule object with its
  value, in enumeration order. A key listed twice takes its last value.
  Caller values are an opaque type `V`.
- **The index bound into callbacks** is the match's offset in the
  remainder `textLeft` that was searched. That offset is in general not
  the match's position in the segment or in the text. It is the position in
  the segment only for a segment's first match, because `textLeft` starts
  as the whole segment (line 103). Line 113 overwrites
  `indexOfMatchedString` before any read, so the update at line 132 is
  dead. The model keeps both assignments.
- **The pre-highlighter always pushes a plain slice before each range.**
  Line 42 tests `startIndex === 0 && indexes[0] !== 0`, and line 50 tests
  `startIndex !== indexes[0]`. In both, `indexes[0]` is a string from
  `split('|')` compared strictly with a number, so `indexes[0] !== 0` and
  `startIndex !== indexes[0]` are always true. Whichever branch runs
  therefore pushes `slice(startIndex, indexes[0])`. The slice is pushed even
  when it is empty, for instance when two ranges touch or when the first
  range starts at 0. Empty parts disappear in the final filter.
- **`slice` clamps its offsets** to the text (`Slice`). The pre-highlighter
  therefore has no precondition, and its coverage of the text is proved
  for well-formed ranges: non-empty, inside the text, and pairwise
  disjoint, in any order.

## Model

| member | source | states |
|---|---|---|
| Extraction.TextExtraction.constructor | src/lib/TextExtraction.js:22-27 | keeps the text and style; a missing rule list or range object becomes empty |
| Extraction.TextExtraction.CheckAndApplyEditing | src/lib/TextExtraction.js:30-74 | the segments pushed are exactly `Editing(text, ranges, tagStyle)` (loop invariant: pushed so far + segments still owed for the remaining sorted ranges) |
| Extraction.TextExtraction.Parse | src/lib/TextExtraction.js:81-149 | returns exactly `ParseSpec`: the pre-highlighted segments, every rule's pass in order, `_matched` removed, empty parts filtered out |
| Extraction.TextExtraction.RuleParse | src/lib/TextExtraction.js:83-143 | one rule's `forEach` over the segments, with one counter for the whole pass, builds exactly `RulePass(rule, segments)` |
| Extraction.TextExtraction.ScanSegment | src/lib/TextExtraction.js:102-139 | the `while` loop on one unclaimed segment returns exactly the parts and final counter of `Scan` |
| Extraction.TextExtraction.GetMatchedPart | src/lib/TextExtraction.js:161-195 | the `forEach` over the rule's keys and the `renderText` branch build exactly `MatchedPart(rule, text, index)` |
| Segments.Slice | src/lib/TextExtraction.js:44-67 | `slice` on in-range offsets is the substring; a reversed pair gives ""; never longer than the text |
| PreHighlighter.SortByStartSorts | src/lib/TextExtraction.js:34-36 | the sorted ranges are ascending by start and a permutation of the input |
| PreHighlighter.InsertSorted | src/lib/TextExtraction.js:34-36 | inserting a range into a start-sorted list keeps it sorted |
| PreHighlighter.InsertPermutes | src/lib/TextExtraction.js:34-36 | inserting adds exactly that range to the multiset |
| PreHighlighter.SortKeepsDisjoint | src/lib/TextExtraction.js:34-36 | sorting does not make non-overlapping ranges overlap |
| PreHighlighter.SortedRangesChain | src/lib/TextExtraction.js:34-36 | well-formed ranges, once sorted, follow one another inside the text |
| PreHighlighter.EditingShape | src/lib/TextExtraction.js:31-73 | n ranges give 2n+1 segments alternating plain / claimed / plain; the claimed ones are the ranges' styled slices in ascending start order; no ranges give one segment |
| PreHighlighter.EditingTidy | src/lib/TextExtraction.js:40-69 | every plain segment is a bare `{children}`, and exactly n segments are claimed |
| PreHighlighter.EditingCovers | src/lib/TextExtraction.js:31-73 | for well-formed ranges the segments joined give back the text |
| Matcher.Permitted | src/lib/TextExtraction.js:86-91 | the pass has a limit iff `nonExhaustiveModeMaxMatchCount` is a positive integer, and the limit is that integer |
| Matcher.PropsLookup | src/lib/TextExtraction.js:164-180 | a key is a prop iff the rule has it and it is not reserved; its value is the last value given for the key, data copied or function bound |
| Matcher.MatchedPartProps | src/lib/TextExtraction.js:161-195 | a matched part is claimed; its text is rendered; its props are the rule's keys minus reserved and overridden ones, data copied, functions bound to (text, index) |
| Matcher.SplitShape | src/lib/TextExtraction.js:111-137 | a scan yields gap, (match, gap)*, each match bound at the length of the gap before it (its offset in the remainder); the counter never goes down |
| Matcher.SplitCovers | src/lib/TextExtraction.js:111-137 | the gaps and matched texts (before `renderText`) joined are the segment's text |
| Matcher.SplitLimit | src/lib/TextExtraction.js:115-118 | matches accepted in a scan = capped counter after it minus capped counter before it |
| Matcher.SplitExhausted | src/lib/TextExtraction.js:115-118 | with the counter at the limit, a scan accepts nothing and keeps the whole text as one gap |
| Matcher.BuildShape | src/lib/TextExtraction.js:120-129 | one part per piece; gaps become bare unclaimed parts, matches claimed ones; claimed count = match count |
| Matcher.BuildAt | src/lib/TextExtraction.js:120-129 | each gap becomes `{children: gap}` and each match `getMatchedPart` of its text and index |
| Matcher.ScanShape | src/lib/TextExtraction.js:102-137 | the parts of one segment: plain, then (matched part for match i, plain gap) pairs |
| Matcher.ScanCovers | src/lib/TextExtraction.js:102-137 | without `renderText`, a scan's parts joined are the segment's text |
| Matcher.ScanExhausted | src/lib/TextExtraction.js:115-118 | past the limit, an unclaimed segment is re-emitted as one bare part holding its whole text |
| Matcher.PassGroups | src/lib/TextExtraction.js:95-140 | a pass keeps the order: claimed segments are copied unchanged and never scanned; the i-th unclaimed segment becomes its scan with the counter left by the segments before it |
| Matcher.PassCovers | src/lib/TextExtraction.js:95-140 | without `renderText`, a pass does not change the text the segments spell |
| Matcher.PassLimit | src/lib/TextExtraction.js:95-140 | a pass adds exactly as many claimed segments as the counter accepted within the limit |
| Matcher.PassExhausted | src/lib/TextExtraction.js:115-118 | once the counter has reached the limit, every later segment is emitted as it was |
| Matcher.PassTidy | src/lib/TextExtraction.js:95-140 | a pass keeps every unclaimed segment a bare `{children}` |
| Matcher.PassClaimed | src/lib/TextExtraction.js:96-100 | every claimed segment survives a pass unchanged and in order |
| Matcher.RuleLimit | src/lib/TextExtraction.js:83-143 | with a positive integer limit k a pass adds at most k claimed segments; without one it adds one per match found. Against the same pass without a limit, which finds m matches, the limited pass adds exactly min(m, k), is that very pass when m < k, and emits only claimed segments the unlimited pass emits, in the same order |
| Matcher.SplitUnderLimit | src/lib/TextExtraction.js:111-137 | a limited scan accepts min(m, k - counter) of the m matches the unlimited scan accepts, and they are its first matches at the same offsets: up to its final gap, the limited scan's pieces are the unlimited scan's first pieces; below the limit the two scans are the same, and reaching it leaves the counter at or past k |
| Matcher.PassUnderLimit | src/lib/TextExtraction.js:93-140 | the same comparison for a whole pass from any counter c <= k: min(m, k - c) claimed segments added, the unlimited pass itself below the limit, and its claimed segments a subsequence of the unlimited pass's |
| Matcher.ApplyRulesCovers | src/lib/TextExtraction.js:83-143 | without `renderText`, the rules only cut the text into more segments |
| Matcher.ApplyRulesClaimed | src/lib/TextExtraction.js:83-143 | a segment claimed by a range or an earlier rule is never split or changed by a later rule |
| Matcher.ApplyRulesTidy | src/lib/TextExtraction.js:83-143 | unclaimed segments stay bare through all the rules |
| Matcher.StripKeeps | src/lib/TextExtraction.js:146 | deleting `_matched` keeps every segment's text and props, in order |
| Matcher.NonEmptyKeeps | src/lib/TextExtraction.js:148 | the filter keeps exactly the non-empty parts, in order, and the joined text |
| Matcher.ParseCovers | src/lib/TextExtraction.js:81-149 | with well-formed ranges and no `renderText`, the returned parts spell the text and none is empty |
| Matcher.ParseKeepsClaimed | src/lib/TextExtraction.js:81-143 | every styled range reaches the end of the rule passes unchanged and in ascending order, whatever the rules; unclaimed segments stay bare |

## Left out

- Regular-expression semantics and the mutable `lastIndex` (lines 110, 134) are replaced by the `find` oracle. The regex engine is a library outside this code.
- Extraction.TextExtraction.Parse, ScanSegment and RuleParse: they require every rule's regex to be `WellBehaved` on every non-empty string, not only on the remainders a scan actually reaches. A regex that can match empty at offset 0 of some non-empty string is therefore excluded, together with every run of it. Without a limit, such a rule can make the source loop forever, but many of its runs end: `/x*/` on the segment `"xxx"` matches `"xxx"` at 0, leaves `textLeft` empty and stops. With a positive integer `nonExhaustiveModeMaxMatchCount` k, every run ends: an empty match at offset 0 gives k − c pairs of an empty plain part and a matched part of the empty text at index 0, then the unchanged remainder; c is the pass's counter when the empty match is first met. The model covers neither these terminating unlimited runs nor the limited case.
- The `matches` array handed to `renderText` (line 187) is not modelled: `renderText` is a function of the matched text only.
- Calling the bound callbacks is not modelled: the renderer calls them later. A `Bound(fn, text, index)` prop records what is bound, with `fn` the rule's value during `parse`; the source's closure (line 175) reads `matchedPattern[key]` only when it is called, so the two differ if the caller changes the rule object after `parse`.
- JavaScript coercions are not modelled. These are the parsing of `"start|end"` keys, string-to-number conversion in `slice`, and `!!children` on non-string children. Ranges are given as numbers and `children` as strings.
- `Object.keys` order is not computed: the rule's keys arrive as a list in that order.
- `nonExhaustiveModeMaxMatchCount` is taken as an optional number. Lines 86-88 coerce nothing: `Number.isInteger` is false for every non-number (the string `"3"`, for instance), so the source treats any non-numeric value as no limit, like a missing one. The model's `None` stands for both.
- Ranges that overlap or end past the text: the pre-highlighter is modelled for them, with `slice` clamping. Its coverage of the text is proved only for well-formed ranges.
- Negative offsets are not represented: `Range` holds naturals, while `slice` counts a negative offset (a key such as `"-2|5"`) from the end of the text.
- `Array.prototype.sort` is modelled as a stable insertion sort on a sequence. It is a library call, not a loop of this code.
- The in-place `delete parsedText._matched` (line 146) builds new parts without the flag. Sharing the same objects between the intermediate and final lists is not modelled.
- Offsets are counted in the model's characters, one per element of a Dafny `string`. JavaScript counts `"start|end"` keys, `slice`/`substr`, `matches.index` and the index bound into callbacks in UTF-16 code units. For text outside the Basic Multilingual Plane (emoji, for instance) the two counts differ, and a range or match boundary inside a surrogate pair has no counterpart in the model.
- The renderer and the React Native component that use these parts are not part of this model.
