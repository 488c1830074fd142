/**
 * The `TextExtraction` class: it keeps the text, the rules, the pre-highlight
 * ranges and their style, and turns them into the parts handed to the
 * renderer. Every method is proved to compute the specification function of
 * its stage.
 */
module Extraction {
  import opened Wrappers
  import opened Segments
  import opened PreHighlighter
  import opened Matcher

  class TextExtraction<V> {
    const text: string
    const patterns: seq<Rule<V>>
    /** The keys of `tagIndexArray`, already read as `start|end` pairs. */
    const ranges: seq<Range>
    const tagStyle: V

    /** A missing rule list or range object stands for an empty one (`patterns || []`, `tagIndexArray || {}`). */
    constructor(text: string, patterns: Option<seq<Rule<V>>>, tagIndexArray: Option<seq<Range>>, tagStyle: V)
      ensures this.text == text && this.tagStyle == tagStyle
      ensures this.patterns == if patterns.Some? then patterns.value else []
      ensures this.ranges == if tagIndexArray.Some? then tagIndexArray.value else []
    {
      this.text := text;
      this.patterns := if patterns.Some? then patterns.value else [];
      this.ranges := if tagIndexArray.Some? then tagIndexArray.value else [];
      this.tagStyle := tagStyle;
    }

    /**
     * `checkAndApplyEditing`: the text cut into plain slices and styled
     * ranges, the ranges taken in ascending order of start.
     */
    method CheckAndApplyEditing() returns (newParts: seq<Segment<V>>)
      ensures newParts == Editing(text, ranges, tagStyle)
    {
      var tagArray := ranges;
      if |tagArray| > 0 {
        tagArray := SortByStart(tagArray);
        newParts := [];
        var startIndex: nat := 0;
        var i := 0;
        assert tagArray[0..] == tagArray;
        while i < |tagArray|
          invariant 0 <= i <= |tagArray|
          invariant newParts + EditingRest(text, tagArray[i..], startIndex, tagStyle) == Editing(text, ranges, tagStyle)
        {
          var indexes := tagArray[i];
          ghost var done, from := newParts, startIndex;
          // `indexes[0]` is a string, so `indexes[0] !== 0` (line 42) and
          // `startIndex !== indexes[0]` (line 50) are always true: whichever
          // branch runs pushes the (possibly empty) text since the previous range.
          newParts := newParts + [Plain(Slice(text, startIndex, indexes.start))];
          newParts := newParts + [Styled(text, indexes, tagStyle)];
          startIndex := indexes.end;
          if i == |tagArray| - 1 {
            newParts := newParts + [Plain(Slice(text, indexes.end, |text|))];
          }
          EditingPushed(text, tagArray, i, from, tagStyle, done, newParts);
          i := i + 1;
        }
        assert tagArray[i..] == [];
      } else {
        newParts := [Plain(text)];
      }
    }

    /**
     * `getMatchedPart`: every rule key but the reserved ones becomes a prop
     * (a function bound to the match's text and index, any other value
     * copied), then `children` and `_matched` are written over them.
     */
    method GetMatchedPart(matchedPattern: Rule<V>, text: string, index: nat) returns (part: Segment<V>)
      ensures part == MatchedPart(matchedPattern, text, index)
    {
      var props: map<string, Prop<V>> := map[];
      for i := 0 to |matchedPattern.fields|
        invariant props == Props(matchedPattern.fields[..i], text, index)
      {
        var (key, value) := matchedPattern.fields[i];
        assert matchedPattern.fields[..i + 1][..i] == matchedPattern.fields[..i];
        if key == "pattern" || key == "renderText" || key == "nonExhaustiveModeMaxMatchCount" {
          continue;
        }
        match value
        case Function(fn) =>
          props := props[key := Bound(fn, text, index)];
        case Data(v) =>
          props := props[key := Static(v)];
      }
      assert matchedPattern.fields[..|matchedPattern.fields|] == matchedPattern.fields;
      var children := text;
      if matchedPattern.renderText.Some? {
        children := matchedPattern.renderText.value(text);
      }
      part := Segment(children, true, props - Overridden);
    }

    /**
     * `parse`: the pre-highlighted segments, split by each rule in turn, then
     * stripped of the `_matched` flag and of empty parts.
     */
    method Parse() returns (result: seq<Part<V>>)
      requires AllWellBehaved(patterns)
      ensures result == ParseSpec(text, patterns, ranges, tagStyle)
    {
      var parsedTexts := CheckAndApplyEditing();
      var p := 0;
      assert patterns[0..] == patterns;
      while p < |patterns|
        invariant 0 <= p <= |patterns|
        invariant AllWellBehaved(patterns[p..])
        invariant ApplyRules(patterns[p..], parsedTexts) == ApplyRules(patterns, Editing(text, ranges, tagStyle))
      {
        ApplyRulesStep(patterns[p..], parsedTexts);
        assert patterns[p..][1..] == patterns[p + 1..];
        parsedTexts := RuleParse(patterns[p], parsedTexts);
        p := p + 1;
      }
      assert patterns[p..] == [];
      assert parsedTexts == ApplyRules(patterns, Editing(text, ranges, tagStyle));
      // `parsedTexts.forEach((parsedText) => delete parsedText._matched)`
      var stripped := [];
      var i := 0;
      assert parsedTexts[0..] == parsedTexts;
      while i < |parsedTexts|
        invariant 0 <= i <= |parsedTexts|
        invariant stripped + Strip(parsedTexts[i..]) == Strip(parsedTexts)
      {
        StripPushed(parsedTexts[i..], stripped);
        assert parsedTexts[i..][1..] == parsedTexts[i + 1..];
        stripped := stripped + [Part(parsedTexts[i].children, parsedTexts[i].props)];
        i := i + 1;
      }
      assert parsedTexts[i..] == [];
      assert stripped == Strip(parsedTexts);
      // `parsedTexts.filter((t) => !!t.children)`
      result := [];
      i := 0;
      assert stripped[0..] == stripped;
      while i < |stripped|
        invariant 0 <= i <= |stripped|
        invariant result + NonEmpty(stripped[i..]) == NonEmpty(stripped)
      {
        NonEmptyPushed(stripped[i..], result);
        assert stripped[i..][1..] == stripped[i + 1..];
        if stripped[i].children != [] {
          result := result + [stripped[i]];
        }
        i := i + 1;
      }
      assert stripped[i..] == [];
    }

    /** The body of `this.patterns.forEach` for one rule: its pass over every segment, with one match counter. */
    method RuleParse(pattern: Rule<V>, parsedTexts: seq<Segment<V>>) returns (newParts: seq<Segment<V>>)
      requires WellBehaved(pattern.find)
      ensures newParts == RulePass(pattern, parsedTexts)
    {
      newParts := [];
      var numberOfMatchesPermitted := Permitted(pattern.maxMatchCount);
      var currentMatches: nat := 0;
      var j := 0;
      assert parsedTexts[0..] == parsedTexts;
      while j < |parsedTexts|
        invariant 0 <= j <= |parsedTexts|
        invariant newParts + Flatten(Pass(pattern, numberOfMatchesPermitted, parsedTexts[j..], currentMatches).1) == RulePass(pattern, parsedTexts)
      {
        var parsedText := parsedTexts[j];
        ghost var done, before := newParts, currentMatches;
        if parsedText.matched {
          // Only one rule may claim a segment.
          newParts := newParts + [parsedText];
        } else {
          var parts;
          parts, currentMatches := ScanSegment(pattern, numberOfMatchesPermitted, parsedText.children, currentMatches);
          newParts := newParts + parts;
        }
        PassPushed(pattern, numberOfMatchesPermitted, parsedTexts[j..], before, currentMatches, done, newParts);
        assert parsedTexts[j..][1..] == parsedTexts[j + 1..];
        j := j + 1;
      }
      assert parsedTexts[j..] == [];
    }

    /**
     * The `while` loop of `parse` on one unclaimed segment: the parts pushed
     * for it and the pass's match counter afterwards.
     */
    method ScanSegment(pattern: Rule<V>, numberOfMatchesPermitted: Limit, children: string, count: nat)
      returns (parts: seq<Segment<V>>, currentMatches: nat)
      requires WellBehaved(pattern.find)
      ensures (currentMatches, parts) == Scan(pattern, numberOfMatchesPermitted, children, count)
    {
      parts := [];
      currentMatches := count;
      var textLeft := children;
      var indexOfMatchedString: int := 0;
      ghost var goal := Scan(pattern, numberOfMatchesPermitted, children, count);
      BuildGap(pattern);
      while textLeft != []
        invariant parts + Build(pattern, Split(pattern.find, numberOfMatchesPermitted, textLeft, currentMatches).1) == goal.1
        invariant Split(pattern.find, numberOfMatchesPermitted, textLeft, currentMatches).0 == goal.0
        decreases |textLeft|
      {
        var matches := pattern.find(textLeft);
        if matches.None? {
          break;
        }
        var m := matches.value;
        var previousText := textLeft[..m.start];
        indexOfMatchedString := m.start;
        ghost var done, before := parts, currentMatches;
        currentMatches := currentMatches + 1;
        if Exceeds(currentMatches, numberOfMatchesPermitted) {
          // The match is counted but not consumed: the rest stays plain.
          assert Split(pattern.find, numberOfMatchesPermitted, textLeft, before) == (currentMatches, [Gap(textLeft)]);
          break;
        }
        parts := parts + [Plain(previousText)];
        var part := GetMatchedPart(pattern, textLeft[m.start..m.start + m.len], indexOfMatchedString);
        parts := parts + [part];
        ScanPushed(pattern, numberOfMatchesPermitted, textLeft, before, m, done, parts);
        textLeft := textLeft[m.start + m.len..];
        // Dead: the next iteration overwrites it before it is read, so the
        // index bound to a match is its offset in the remainder.
        indexOfMatchedString := indexOfMatchedString + m.len - 1;
      }
      parts := parts + [Plain(textLeft)];
    }
  }
}
