/**
 * The multi-rule matcher (`parse` and `getMatchedPart`) as specification
 * functions: one rule's scan of one segment, one rule's pass over the segment
 * list, all rules in order, and the final cleanup, with the properties each
 * of them keeps.
 */
module Matcher {
  import opened Wrappers
  import opened Segments
  import opened PreHighlighter

  predicate IsInteger(x: real)
  {
    x.Floor as real == x
  }

  /**
   * `numberOfMatchesPermitted`: a positive integer count is a limit; a missing,
   * zero, negative or fractional count means no limit at all.
   */
  function Permitted(maxMatchCount: Option<real>): (limit: Limit)
    ensures limit.AtMost? <==> maxMatchCount.Some? && IsInteger(maxMatchCount.value) && maxMatchCount.value > 0.0
    ensures limit.AtMost? ==> limit.k > 0 && limit.k as real == maxMatchCount.value
  {
    // `nonExhaustiveModeMaxMatchCount || 0`
    var tmp := if maxMatchCount.Some? then maxMatchCount.value else 0.0;
    // `Math.max(Number.isInteger(tmp) ? tmp : 0, 0)`
    var whole := if IsInteger(tmp) then tmp else 0.0;
    var clamped := if whole > 0.0 then whole else 0.0;
    // `... || Number.POSITIVE_INFINITY`; the outer `Math.min(x, Infinity)` is x
    if clamped == 0.0 then Unlimited else AtMost(clamped.Floor)
  }

  /** `++currentMatches > numberOfMatchesPermitted`, once the counter has been bumped. */
  predicate Exceeds(count: nat, limit: Limit)
  {
    limit.AtMost? && count > limit.k
  }

  /** How many of the first `count` matches found in a pass are accepted. */
  function Cap(count: nat, limit: Limit): nat
  {
    match limit
    case AtMost(k) => if count < k then count else k
    case Unlimited => count
  }

  /** Rule keys that configure the match and are never copied into the props. */
  const Reserved: set<string> := {"pattern", "renderText", "nonExhaustiveModeMaxMatchCount"}

  /** Keys the returned object literal writes after spreading the props, so that they win. */
  const Overridden: set<string> := {"children", "_matched"}

  /** One rule key as a prop: data is copied, a function is bound to the match's text and index. */
  function Project<V>(field: Field<V>, text: string, index: nat): Prop<V>
  {
    match field
    case Data(v) => Static(v)
    case Function(fn) => Bound(fn, text, index)
  }

  /** `renderText(text, matches)` when the rule has one, the matched text otherwise. */
  function Rendered<V>(rule: Rule<V>, text: string): string
  {
    if rule.renderText.Some? then rule.renderText.value(text) else text
  }

  /** `getMatchedPart`: the segment for a match of `text` at `index`. */
  function MatchedPart<V>(rule: Rule<V>, text: string, index: nat): Segment<V>
  {
    // `{...props, children, _matched: true}`: the two literal keys win over props of the same name.
    Segment(Rendered(rule, text), true, Props(rule.fields, text, index) - Overridden)
  }

  /**
   * The `props` object once `getMatchedPart` has gone through `fields`:
   * reserved keys skipped, every other key assigned its projection, a later
   * entry overwriting an earlier one.
   */
  function Props<V>(fields: seq<(string, Field<V>)>, text: string, index: nat): map<string, Prop<V>>
  {
    if fields == [] then map[]
    else
      var (key, field) := fields[|fields| - 1];
      var before := Props(fields[..|fields| - 1], text, index);
      if key in Reserved then before else before[key := Project(field, text, index)]
  }

  /** `rule[key]`: the value of the last entry for `key`, if any. */
  function Lookup<V>(fields: seq<(string, Field<V>)>, key: string): Option<Field<V>>
  {
    if fields == [] then None
    else if fields[|fields| - 1].0 == key then Some(fields[|fields| - 1].1)
    else Lookup(fields[..|fields| - 1], key)
  }

  /** The props hold exactly the rule's keys that are not reserved, each projected from the rule's value for it. */
  lemma {:induction false} PropsLookup<V>(fields: seq<(string, Field<V>)>, text: string, index: nat)
    ensures forall k :: k in Props(fields, text, index) <==> Lookup(fields, k).Some? && k !in Reserved
    ensures forall k :: k in Props(fields, text, index) ==> Props(fields, text, index)[k] == Project(Lookup(fields, k).value, text, index)
    decreases |fields|
  {
    if fields != [] {
      PropsLookup(fields[..|fields| - 1], text, index);
    }
  }

  /**
   * A matched part is claimed; its children are the rendered text; it has a
   * prop for every rule key except the reserved ones and `children`/`_matched`
   * (which the object literal overrides): the key's data copied, or its
   * function bound to this match's text and index.
   */
  lemma MatchedPartProps<V>(rule: Rule<V>, text: string, index: nat)
    ensures var part := MatchedPart(rule, text, index);
      part.matched &&
      part.children == (if rule.renderText.Some? then rule.renderText.value(text) else text) &&
      (forall k :: k in part.props <==> Lookup(rule.fields, k).Some? && k !in Reserved && k !in Overridden) &&
      (forall k :: k in part.props && Lookup(rule.fields, k).value.Data? ==>
        part.props[k] == Static(Lookup(rule.fields, k).value.value)) &&
      (forall k :: k in part.props && Lookup(rule.fields, k).value.Function? ==>
        part.props[k] == Bound(Lookup(rule.fields, k).value.fn, text, index))
  {
    PropsLookup(rule.fields, text, index);
  }

  /** What the scan loop does with a segment's text: passes over a gap, or accepts a match at an offset of the remainder. */
  datatype Piece = Gap(text: string) | Hit(text: string, index: nat)

  /**
   * The `while` loop of `parse` on an unclaimed segment's `textLeft`, with the
   * pass's match counter at `count`: the counter afterwards, and for each
   * accepted match the text before it and the match (bound at its offset in
   * the current remainder), then the unconsumed remainder. A match that
   * exceeds the limit is counted but not consumed.
   */
  function Split(find: string -> Option<Match>, limit: Limit, textLeft: string, count: nat): (nat, seq<Piece>)
    requires WellBehaved(find)
    decreases |textLeft|
  {
    if textLeft == [] then (count, [Gap(textLeft)])
    else match find(textLeft)
      case None => (count, [Gap(textLeft)])
      case Some(m) =>
        if Exceeds(count + 1, limit) then (count + 1, [Gap(textLeft)])
        else
          var rest := Split(find, limit, textLeft[m.start + m.len..], count + 1);
          (rest.0, [Gap(textLeft[..m.start]), Hit(textLeft[m.start..m.start + m.len], m.start)] + rest.1)
  }

  /** The parts pushed for the pieces: `{children}` for a gap, `getMatchedPart` for a match. */
  function Build<V>(rule: Rule<V>, pieces: seq<Piece>): seq<Segment<V>>
  {
    if pieces == [] then []
    else
      var part := match pieces[0]
        case Gap(t) => Plain(t)
        case Hit(t, i) => MatchedPart(rule, t, i);
      [part] + Build(rule, pieces[1..])
  }

  /** The scan of one unclaimed segment under `rule`: the counter afterwards and the parts pushed. */
  function Scan<V>(rule: Rule<V>, limit: Limit, textLeft: string, count: nat): (nat, seq<Segment<V>>)
    requires WellBehaved(rule.find)
  {
    var r := Split(rule.find, limit, textLeft, count);
    (r.0, Build(rule, r.1))
  }

  function PiecesText(pieces: seq<Piece>): string
  {
    if pieces == [] then [] else pieces[0].text + PiecesText(pieces[1..])
  }

  function Hits(pieces: seq<Piece>): nat
  {
    if pieces == [] then 0 else (if pieces[0].Hit? then 1 else 0) + Hits(pieces[1..])
  }

  /**
   * Gap, then any number of (match, gap) pairs, where each match is bound at
   * the length of the gap just before it: its offset in the remainder
   * `textLeft` that was searched, not in the segment or the whole text.
   */
  ghost predicate Alternates(pieces: seq<Piece>)
    decreases |pieces|
  {
    |pieces| >= 1 && pieces[0].Gap? &&
    (|pieces| == 1 ||
     (|pieces| >= 3 && pieces[1].Hit? && pieces[1].index == |pieces[0].text| && Alternates(pieces[2..])))
  }

  /** One accepted match: the loop pushes the text before it and the match, then goes on with the rest. */
  lemma SplitStep(find: string -> Option<Match>, limit: Limit, t: string, c: nat)
    requires WellBehaved(find)
    requires t != [] && find(t).Some? && !Exceeds(c + 1, limit)
    ensures var m := find(t).value;
      0 < m.start + m.len <= |t| &&
      Split(find, limit, t, c) ==
        var rest := Split(find, limit, t[m.start + m.len..], c + 1);
        (rest.0, [Gap(t[..m.start]), Hit(t[m.start..m.start + m.len], m.start)] + rest.1)
  {
  }

  /**
   * A scan splits the text into gap, (match, gap)*, each match bound at its
   * offset in the remainder; the counter never goes down.
   */
  lemma {:induction false} SplitShape(find: string -> Option<Match>, limit: Limit, t: string, c: nat)
    requires WellBehaved(find)
    ensures c <= Split(find, limit, t, c).0
    ensures Alternates(Split(find, limit, t, c).1)
    decreases |t|
  {
    if t != [] && find(t).Some? && !Exceeds(c + 1, limit) {
      var m := find(t).value;
      var s, e := m.start, m.start + m.len;
      SplitStep(find, limit, t, c);
      SplitShape(find, limit, t[e..], c + 1);
      AlternatesPair(t[..s], t[s..e], s, Split(find, limit, t[e..], c + 1).1);
    } else {
      SplitStop(find, limit, t, c);
    }
  }

  lemma AlternatesPair(g: string, h: string, i: nat, rest: seq<Piece>)
    requires i == |g| && Alternates(rest)
    ensures Alternates([Gap(g), Hit(h, i)] + rest)
  {
    assert ([Gap(g), Hit(h, i)] + rest)[2..] == rest;
  }

  /** The gaps and the matched texts, joined in order, are the scanned text: nothing is lost or repeated. */
  lemma {:induction false} SplitCovers(find: string -> Option<Match>, limit: Limit, t: string, c: nat)
    requires WellBehaved(find)
    ensures PiecesText(Split(find, limit, t, c).1) == t
    decreases |t|
  {
    if t != [] && find(t).Some? && !Exceeds(c + 1, limit) {
      var m := find(t).value;
      var s, e := m.start, m.start + m.len;
      SplitStep(find, limit, t, c);
      SplitCovers(find, limit, t[e..], c + 1);
      PiecesTextPair(t[..s], t[s..e], s, Split(find, limit, t[e..], c + 1).1);
      SplitThree(t, s, e);
    } else {
      SplitStop(find, limit, t, c);
      assert PiecesText([Gap(t)]) == t + PiecesText([]);
    }
  }

  /**
   * Of the matches found in a pass, exactly those up to the limit are
   * accepted: the accepted ones so far plus this scan's are the capped count
   * after the scan.
   */
  lemma {:induction false} SplitLimit(find: string -> Option<Match>, limit: Limit, t: string, c: nat)
    requires WellBehaved(find)
    ensures Hits(Split(find, limit, t, c).1) + Cap(c, limit) == Cap(Split(find, limit, t, c).0, limit)
    decreases |t|
  {
    if t != [] && find(t).Some? && !Exceeds(c + 1, limit) {
      var m := find(t).value;
      var s, e := m.start, m.start + m.len;
      SplitStep(find, limit, t, c);
      SplitLimit(find, limit, t[e..], c + 1);
      HitsPair(t[..s], t[s..e], s, Split(find, limit, t[e..], c + 1).1);
      assert Cap(c + 1, limit) == Cap(c, limit) + 1;
    } else {
      SplitStop(find, limit, t, c);
      assert Hits([Gap(t)]) == 0 + Hits([Gap(t)][1..]);
    }
  }

  /** No accepted match: the whole remainder is one gap, and the counter moves only for a match over the limit. */
  lemma SplitStop(find: string -> Option<Match>, limit: Limit, t: string, c: nat)
    requires WellBehaved(find)
    requires !(t != [] && find(t).Some? && !Exceeds(c + 1, limit))
    ensures Split(find, limit, t, c).1 == [Gap(t)]
    ensures Split(find, limit, t, c).0 == c || (Split(find, limit, t, c).0 == c + 1 && Exceeds(c + 1, limit))
  {
  }

  lemma PiecesTextPair(g: string, h: string, i: nat, rest: seq<Piece>)
    ensures PiecesText([Gap(g), Hit(h, i)] + rest) == g + h + PiecesText(rest)
  {
    assert ([Gap(g), Hit(h, i)] + rest)[1..] == [Hit(h, i)] + rest;
    assert ([Hit(h, i)] + rest)[1..] == rest;
  }

  lemma HitsPair(g: string, h: string, i: nat, rest: seq<Piece>)
    ensures Hits([Gap(g), Hit(h, i)] + rest) == 1 + Hits(rest)
  {
    assert ([Gap(g), Hit(h, i)] + rest)[1..] == [Hit(h, i)] + rest;
    assert ([Hit(h, i)] + rest)[1..] == rest;
  }

  /**
   * Once the counter has reached the limit, the scan accepts nothing more: the
   * whole text is pushed as one plain part.
   */
  lemma SplitExhausted(find: string -> Option<Match>, k: nat, t: string, c: nat)
    requires WellBehaved(find) && k <= c
    ensures Split(find, AtMost(k), t, c).1 == [Gap(t)]
    ensures c <= Split(find, AtMost(k), t, c).0
  {
  }

  /**
   * A limit changes nothing but where the scan stops: of the matches the scan
   * would accept without a limit, it accepts the first ones while the counter
   * allows, unchanged and at the same offsets, and leaves the rest of the text
   * as its final gap. When the limit is not reached the two scans agree.
   */
  lemma SplitUnderLimit(find: string -> Option<Match>, k: nat, t: string, c: nat, u: nat)
    requires WellBehaved(find) && c <= k
    ensures var lim := Split(find, AtMost(k), t, c);
      var all := Split(find, Unlimited, t, u);
      Hits(lim.1) == (if Hits(all.1) < k - c then Hits(all.1) else k - c) &&
      (Hits(all.1) < k - c ==> lim.1 == all.1 && lim.0 == c + Hits(all.1)) &&
      (k - c <= Hits(all.1) ==> k <= lim.0) &&
      Cut(lim.1, all.1)
  {
    SplitCut(find, k, t, c, u);
    if Hits(Split(find, Unlimited, t, u).1) < k - c {
      SplitBelowLimit(find, k, t, c, u);
    } else {
      SplitReachesLimit(find, k, t, c, u);
    }
  }

  /** One accepted match, piece by piece: the counter, the pieces and the number of matches of the scan of the rest. */
  lemma SplitAccepts(find: string -> Option<Match>, limit: Limit, t: string, c: nat, m: Match)
    requires WellBehaved(find) && t != [] && find(t) == Some(m) && !Exceeds(c + 1, limit)
    ensures 0 < m.start + m.len <= |t|
    ensures var rest := Split(find, limit, t[m.start + m.len..], c + 1);
      Split(find, limit, t, c).0 == rest.0 &&
      Split(find, limit, t, c).1 == [Gap(t[..m.start]), Hit(t[m.start..m.start + m.len], m.start)] + rest.1 &&
      Hits(Split(find, limit, t, c).1) == 1 + Hits(rest.1)
  {
    SplitStep(find, limit, t, c);
    HitsPair(t[..m.start], t[m.start..m.start + m.len], m.start, Split(find, limit, t[m.start + m.len..], c + 1).1);
  }

  /** No match: the scan is one gap with no match, its counter unchanged. */
  lemma SplitNone(find: string -> Option<Match>, limit: Limit, t: string, c: nat)
    requires WellBehaved(find) && (t == [] || find(t).None?)
    ensures Split(find, limit, t, c) == (c, [Gap(t)]) && Hits(Split(find, limit, t, c).1) == 0
  {
    assert Hits([Gap(t)]) == 0 + Hits([Gap(t)][1..]);
  }

  /** A match over the limit: it is counted, and the whole remainder is one gap with no match. */
  lemma SplitOver(find: string -> Option<Match>, limit: Limit, t: string, c: nat)
    requires WellBehaved(find) && t != [] && find(t).Some? && Exceeds(c + 1, limit)
    ensures Split(find, limit, t, c) == (c + 1, [Gap(t)]) && Hits(Split(find, limit, t, c).1) == 0
  {
    assert Hits([Gap(t)]) == 0 + Hits([Gap(t)][1..]);
  }

  /** Below the limit, a limited scan is the unlimited one, its counter moved by the matches found. */
  lemma {:induction false} SplitBelowLimit(find: string -> Option<Match>, k: nat, t: string, c: nat, u: nat)
    requires WellBehaved(find) && c + Hits(Split(find, Unlimited, t, u).1) < k
    ensures Split(find, AtMost(k), t, c).1 == Split(find, Unlimited, t, u).1
    ensures Split(find, AtMost(k), t, c).0 == c + Hits(Split(find, Unlimited, t, u).1)
    decreases |t|
  {
    if t != [] && find(t).Some? {
      var m := find(t).value;
      var t' := t[m.start + m.len..];
      SplitAccepts(find, Unlimited, t, u, m);
      SplitAccepts(find, AtMost(k), t, c, m);
      SplitBelowLimit(find, k, t', c + 1, u + 1);
      var h := Hits(Split(find, Unlimited, t', u + 1).1);
      assert Split(find, AtMost(k), t, c).0 == Split(find, AtMost(k), t', c + 1).0 == c + 1 + h;
    } else {
      SplitNone(find, Unlimited, t, u);
      SplitNone(find, AtMost(k), t, c);
    }
  }

  /** When the scan finds enough matches, a limited scan accepts exactly as many as the counter allows and ends at the limit. */
  lemma SplitReachesLimit(find: string -> Option<Match>, k: nat, t: string, c: nat, u: nat)
    requires WellBehaved(find) && c <= k <= c + Hits(Split(find, Unlimited, t, u).1)
    ensures Hits(Split(find, AtMost(k), t, c).1) == k - c
    ensures k <= Split(find, AtMost(k), t, c).0
  {
    SplitAgreesOrExceeds(find, k, t, c, u);
    SplitLimit(find, AtMost(k), t, c);
  }

  /** A limited scan either is the unlimited one, piece for piece, or has counted a match over the limit. */
  lemma {:induction false} SplitAgreesOrExceeds(find: string -> Option<Match>, k: nat, t: string, c: nat, u: nat)
    requires WellBehaved(find)
    ensures Split(find, AtMost(k), t, c).1 == Split(find, Unlimited, t, u).1 || k < Split(find, AtMost(k), t, c).0
    decreases |t|
  {
    if t != [] && find(t).Some? {
      var m := find(t).value;
      if c < k {
        SplitAccepts(find, Unlimited, t, u, m);
        SplitAccepts(find, AtMost(k), t, c, m);
        SplitAgreesOrExceeds(find, k, t[m.start + m.len..], c + 1, u + 1);
      } else {
        SplitOver(find, AtMost(k), t, c);
      }
    } else {
      SplitNone(find, Unlimited, t, u);
      SplitNone(find, AtMost(k), t, c);
    }
  }

  /** Up to its final gap, a limited scan's pieces are the first pieces of the unlimited scan. */
  ghost predicate Cut(lim: seq<Piece>, all: seq<Piece>)
  {
    1 <= |lim| <= |all| && lim[|lim| - 1].Gap? && lim[..|lim| - 1] == all[..|lim| - 1]
  }

  /** Where a limited scan stops, the unlimited one goes on from the same pieces. */
  lemma {:induction false} SplitCut(find: string -> Option<Match>, k: nat, t: string, c: nat, u: nat)
    requires WellBehaved(find)
    ensures Cut(Split(find, AtMost(k), t, c).1, Split(find, Unlimited, t, u).1)
    decreases |t|
  {
    if t != [] && find(t).Some? && c < k {
      var m := find(t).value;
      SplitAccepts(find, Unlimited, t, u, m);
      SplitAccepts(find, AtMost(k), t, c, m);
      SplitCut(find, k, t[m.start + m.len..], c + 1, u + 1);
      PrefixPair([Gap(t[..m.start]), Hit(t[m.start..m.start + m.len], m.start)],
        Split(find, AtMost(k), t[m.start + m.len..], c + 1).1, Split(find, Unlimited, t[m.start + m.len..], u + 1).1);
    } else {
      SplitStop(find, AtMost(k), t, c);
      SplitShape(find, Unlimited, t, u);
    }
  }

  lemma PrefixPair(h: seq<Piece>, a: seq<Piece>, b: seq<Piece>)
    requires Cut(a, b)
    ensures Cut(h + a, h + b)
  {
    assert (h + a)[..|h + a| - 1] == h + a[..|a| - 1];
    assert (h + b)[..|h + a| - 1] == h + b[..|a| - 1];
  }

  lemma {:induction false} PiecesTextAppend(a: seq<Piece>, b: seq<Piece>)
    ensures PiecesText(a + b) == PiecesText(a) + PiecesText(b)
    decreases |a|
  {
    if a == [] {
      assert a + b == b;
    } else {
      assert (a + b)[1..] == a[1..] + b;
      PiecesTextAppend(a[1..], b);
    }
  }

  lemma {:induction false} BuildAppend<V>(rule: Rule<V>, a: seq<Piece>, b: seq<Piece>)
    ensures Build(rule, a + b) == Build(rule, a) + Build(rule, b)
    decreases |a|
  {
    if a == [] {
      assert a + b == b;
    } else {
      assert (a + b)[1..] == a[1..] + b;
      BuildAppend(rule, a[1..], b);
    }
  }

  /** Gaps become bare `{children}` parts, matches claimed parts, one for one and in order. */
  lemma {:induction false} BuildShape<V>(rule: Rule<V>, pieces: seq<Piece>)
    ensures |Build(rule, pieces)| == |pieces|
    ensures Tidy(Build(rule, pieces))
    ensures MatchCount(Build(rule, pieces)) == Hits(pieces)
    ensures forall i :: 0 <= i < |pieces| ==> Build(rule, pieces)[i].matched == pieces[i].Hit?
    decreases |pieces|
  {
    if pieces != [] {
      BuildShape(rule, pieces[1..]);
      var out := Build(rule, pieces);
      assert out[1..] == Build(rule, pieces[1..]);
      forall i | 1 <= i < |pieces| ensures out[i] == Build(rule, pieces[1..])[i - 1] && pieces[i] == pieces[1..][i - 1] {
      }
    }
  }

  /** Without `renderText` every part keeps the text of its piece. */
  lemma {:induction false} BuildText<V>(rule: Rule<V>, pieces: seq<Piece>)
    requires rule.renderText.None?
    ensures Text(Build(rule, pieces)) == PiecesText(pieces)
    decreases |pieces|
  {
    if pieces != [] {
      BuildText(rule, pieces[1..]);
      var out := Build(rule, pieces);
      assert out[1..] == Build(rule, pieces[1..]);
    }
  }

  /**
   * Scanning one unclaimed segment yields plain, (matched, plain)*: the plain
   * parts are the gaps as bare `{children}` records and every matched part is
   * `getMatchedPart` of a match and its offset in the remainder.
   */
  lemma ScanShape<V>(rule: Rule<V>, limit: Limit, t: string, c: nat)
    requires WellBehaved(rule.find)
    ensures var ps := Split(rule.find, limit, t, c).1;
      var parts := Scan(rule, limit, t, c).1;
      Alternates(ps) && |parts| == |ps| &&
      (forall i :: 0 <= i < |ps| && ps[i].Gap? ==> parts[i] == Plain(ps[i].text)) &&
      (forall i :: 0 <= i < |ps| && ps[i].Hit? ==> parts[i] == MatchedPart(rule, ps[i].text, ps[i].index))
  {
    var ps := Split(rule.find, limit, t, c).1;
    SplitShape(rule.find, limit, t, c);
    BuildShape(rule, ps);
    BuildAt(rule, ps);
  }

  lemma {:induction false} BuildAt<V>(rule: Rule<V>, pieces: seq<Piece>)
    ensures |Build(rule, pieces)| == |pieces|
    ensures forall i :: 0 <= i < |pieces| && pieces[i].Gap? ==> Build(rule, pieces)[i] == Plain(pieces[i].text)
    ensures forall i :: 0 <= i < |pieces| && pieces[i].Hit? ==>
      Build(rule, pieces)[i] == MatchedPart(rule, pieces[i].text, pieces[i].index)
    decreases |pieces|
  {
    if pieces != [] {
      BuildAt(rule, pieces[1..]);
      var out := Build(rule, pieces);
      assert out[1..] == Build(rule, pieces[1..]);
      forall i | 1 <= i < |pieces| ensures out[i] == Build(rule, pieces[1..])[i - 1] && pieces[i] == pieces[1..][i - 1] {
      }
    }
  }

  /** Without `renderText`, the parts of a scan joined together are the scanned text. */
  lemma ScanCovers<V>(rule: Rule<V>, limit: Limit, t: string, c: nat)
    requires WellBehaved(rule.find) && rule.renderText.None?
    ensures Text(Scan(rule, limit, t, c).1) == t
  {
    SplitCovers(rule.find, limit, t, c);
    BuildText(rule, Split(rule.find, limit, t, c).1);
  }

  /** What one segment becomes in a pass: itself when already claimed, its scan otherwise; and the counter afterwards. */
  function Group<V>(rule: Rule<V>, limit: Limit, seg: Segment<V>, count: nat): (nat, seq<Segment<V>>)
    requires WellBehaved(rule.find)
  {
    if seg.matched then (count, [seg]) else Scan(rule, limit, seg.children, count)
  }

  /**
   * One rule's pass over `parsedTexts`, the counter starting at `count`: the
   * counter afterwards and, for every segment in order, the segments it
   * becomes (itself when already claimed, its scan otherwise).
   */
  function Pass<V>(rule: Rule<V>, limit: Limit, segs: seq<Segment<V>>, count: nat): (nat, seq<seq<Segment<V>>>)
    requires WellBehaved(rule.find)
    decreases |segs|
  {
    if segs == [] then (count, [])
    else
      var head := Group(rule, limit, segs[0], count);
      var rest := Pass(rule, limit, segs[1..], head.0);
      (rest.0, [head.1] + rest.1)
  }

  /** `newParts` at the end of one rule's pass, the counter starting at 0. */
  function RulePass<V>(rule: Rule<V>, segs: seq<Segment<V>>): seq<Segment<V>>
    requires WellBehaved(rule.find)
  {
    Flatten(Pass(rule, Permitted(rule.maxMatchCount), segs, 0).1)
  }

  lemma PassStep<V>(rule: Rule<V>, limit: Limit, segs: seq<Segment<V>>, count: nat)
    requires WellBehaved(rule.find) && segs != []
    ensures var head := Group(rule, limit, segs[0], count);
      var rest := Pass(rule, limit, segs[1..], head.0);
      Pass(rule, limit, segs, count).0 == rest.0 &&
      Flatten(Pass(rule, limit, segs, count).1) == head.1 + Flatten(rest.1)
  {
    var head := Group(rule, limit, segs[0], count);
    var rest := Pass(rule, limit, segs[1..], head.0);
    assert ([head.1] + rest.1)[1..] == rest.1;
  }

  /**
   * A pass keeps the segments in order, one group per segment: a claimed
   * segment is copied unchanged and never scanned; an unclaimed one becomes
   * its scan with the counter left by the segments before it.
   */
  lemma {:induction false} PassGroups<V>(rule: Rule<V>, limit: Limit, segs: seq<Segment<V>>, count: nat)
    requires WellBehaved(rule.find)
    ensures var groups := Pass(rule, limit, segs, count).1;
      |groups| == |segs| &&
      (forall i :: 0 <= i < |segs| && segs[i].matched ==> groups[i] == [segs[i]]) &&
      (forall i :: 0 <= i < |segs| && !segs[i].matched ==>
        groups[i] == Scan(rule, limit, segs[i].children, Pass(rule, limit, segs[..i], count).0).1)
    decreases |segs|
  {
    if segs != [] {
      var head := Group(rule, limit, segs[0], count);
      PassGroups(rule, limit, segs[1..], head.0);
      var groups := Pass(rule, limit, segs, count).1;
      var rest := Pass(rule, limit, segs[1..], head.0).1;
      assert groups == [head.1] + rest;
      assert Pass(rule, limit, segs[..0], count).0 == count by {
        assert segs[..0] == [];
      }
      forall i | 1 <= i < |segs|
        ensures Pass(rule, limit, segs[..i], count).0 == Pass(rule, limit, segs[1..][..i - 1], head.0).0
        ensures groups[i] == rest[i - 1] && segs[i] == segs[1..][i - 1]
      {
        PassPrefixStep(rule, limit, segs, count, i);
      }
    }
  }

  /** The counter after the first i segments is the counter after the first segment, then the next i - 1. */
  lemma PassPrefixStep<V>(rule: Rule<V>, limit: Limit, segs: seq<Segment<V>>, count: nat, i: nat)
    requires WellBehaved(rule.find) && 1 <= i <= |segs|
    ensures Pass(rule, limit, segs[..i], count).0 == Pass(rule, limit, segs[1..][..i - 1], Group(rule, limit, segs[0], count).0).0
  {
    var p := segs[..i];
    assert p[0] == segs[0] && p[1..] == segs[1..][..i - 1];
  }

  /** Without `renderText`, a pass does not change the text the segments spell. */
  lemma {:induction false} PassCovers<V>(rule: Rule<V>, limit: Limit, segs: seq<Segment<V>>, count: nat)
    requires WellBehaved(rule.find) && rule.renderText.None?
    ensures Text(Flatten(Pass(rule, limit, segs, count).1)) == Text(segs)
    decreases |segs|
  {
    if segs != [] {
      var head := Group(rule, limit, segs[0], count);
      PassStep(rule, limit, segs, count);
      PassCovers(rule, limit, segs[1..], head.0);
      TextAppend(head.1, Flatten(Pass(rule, limit, segs[1..], head.0).1));
      if segs[0].matched {
        assert Text(head.1) == segs[0].children + Text(head.1[1..]);
      } else {
        ScanCovers(rule, limit, segs[0].children, count);
      }
    }
  }

  /**
   * A pass adds exactly as many claimed segments as it accepted matches: the
   * counter capped at the limit.
   */
  lemma {:induction false} PassLimit<V>(rule: Rule<V>, limit: Limit, segs: seq<Segment<V>>, count: nat)
    requires WellBehaved(rule.find)
    ensures var r := Pass(rule, limit, segs, count);
      count <= r.0 &&
      MatchCount(Flatten(r.1)) + Cap(count, limit) == MatchCount(segs) + Cap(r.0, limit)
    decreases |segs|
  {
    if segs != [] {
      var head := Group(rule, limit, segs[0], count);
      PassStep(rule, limit, segs, count);
      PassLimit(rule, limit, segs[1..], head.0);
      MatchCountAppend(head.1, Flatten(Pass(rule, limit, segs[1..], head.0).1));
      assert MatchCount(segs) == (if segs[0].matched then 1 else 0) + MatchCount(segs[1..]);
      if segs[0].matched {
        assert MatchCount(head.1) == 1 + MatchCount(head.1[1..]);
      } else {
        var ps := Split(rule.find, limit, segs[0].children, count).1;
        SplitShape(rule.find, limit, segs[0].children, count);
        SplitLimit(rule.find, limit, segs[0].children, count);
        BuildShape(rule, ps);
      }
    }
  }

  /**
   * Once the counter has reached a limit, the rest of the pass accepts
   * nothing: every segment, in a list whose unclaimed segments are bare, is
   * emitted as it was.
   */
  lemma {:induction false} PassExhausted<V>(rule: Rule<V>, k: nat, segs: seq<Segment<V>>, count: nat)
    requires WellBehaved(rule.find) && k <= count && Tidy(segs)
    ensures Flatten(Pass(rule, AtMost(k), segs, count).1) == segs
    decreases |segs|
  {
    if segs != [] {
      var head := Group(rule, AtMost(k), segs[0], count);
      PassStep(rule, AtMost(k), segs, count);
      TidyTail(segs);
      if segs[0].matched {
        assert head == (count, [segs[0]]);
      } else {
        assert head == Scan(rule, AtMost(k), segs[0].children, count);
        ScanExhausted(rule, k, segs[0].children, count);
        assert segs[0] == Plain(segs[0].children);
      }
      PassExhausted(rule, k, segs[1..], head.0);
      assert Flatten(Pass(rule, AtMost(k), segs, count).1) == [segs[0]] + segs[1..];
      HeadTail(segs);
    }
  }

  /** A gap alone becomes one bare part. */
  lemma BuildGap<V>(rule: Rule<V>)
    ensures forall t :: Build(rule, [Gap(t)]) == [Plain(t)]
  {
    forall t ensures Build(rule, [Gap(t)]) == [Plain(t)] {
      assert [Gap(t)][1..] == [];
    }
  }

  lemma BuildPair<V>(rule: Rule<V>, gap: string, hit: string, index: nat)
    ensures Build(rule, [Gap(gap), Hit(hit, index)]) == [Plain(gap), MatchedPart(rule, hit, index)]
  {
    var ps := [Gap(gap), Hit(hit, index)];
    assert ps[1..] == [Hit(hit, index)] && ps[1..][1..] == [];
    assert Build(rule, ps[1..]) == [MatchedPart(rule, hit, index)] + Build(rule, ps[1..][1..]);
    assert Build(rule, ps) == [Plain(gap)] + Build(rule, ps[1..]);
  }

  /**
   * Pushing the text before an accepted match and its matched part moves
   * them from what the scan has still to produce into what it has produced.
   */
  lemma ScanPushed<V>(rule: Rule<V>, limit: Limit, t: string, c: nat, m: Match, done: seq<Segment<V>>, now: seq<Segment<V>>)
    requires WellBehaved(rule.find) && t != [] && rule.find(t) == Some(m) && !Exceeds(c + 1, limit)
    requires m.start + m.len <= |t|
    requires now == done + [Plain(t[..m.start])] + [MatchedPart(rule, t[m.start..m.start + m.len], m.start)]
    ensures var rest := Split(rule.find, limit, t[m.start + m.len..], c + 1);
      now + Build(rule, rest.1) == done + Build(rule, Split(rule.find, limit, t, c).1) &&
      rest.0 == Split(rule.find, limit, t, c).0
  {
    var s, e := m.start, m.start + m.len;
    SplitStep(rule.find, limit, t, c);
    var head := [Gap(t[..s]), Hit(t[s..e], s)];
    BuildPair(rule, t[..s], t[s..e], s);
    PushTwo(done, Plain(t[..s]), MatchedPart(rule, t[s..e], s));
    BuildPushed(rule, done, head, Split(rule.find, limit, t[e..], c + 1).1, now);
  }

  /** Emitting the parts of some pieces moves them from what is still to be produced into what has been produced. */
  lemma BuildPushed<V>(rule: Rule<V>, done: seq<Segment<V>>, head: seq<Piece>, rest: seq<Piece>, now: seq<Segment<V>>)
    requires now == done + Build(rule, head)
    ensures now + Build(rule, rest) == done + Build(rule, head + rest)
  {
    BuildAppend(rule, head, rest);
    AppendAssoc(done, Build(rule, head), Build(rule, rest));
  }

  /**
   * Handling one segment of a pass (copying it when claimed, pushing its scan
   * otherwise) moves its group from what the pass has still to produce into
   * what it has produced.
   */
  lemma PassPushed<V>(rule: Rule<V>, limit: Limit, segs: seq<Segment<V>>, c: nat, c': nat, done: seq<Segment<V>>, now: seq<Segment<V>>)
    requires WellBehaved(rule.find) && segs != []
    requires c' == Group(rule, limit, segs[0], c).0 && now == done + Group(rule, limit, segs[0], c).1
    ensures now + Flatten(Pass(rule, limit, segs[1..], c').1) == done + Flatten(Pass(rule, limit, segs, c).1)
  {
    PassStep(rule, limit, segs, c);
    var head := Group(rule, limit, segs[0], c);
    AppendAssoc(done, head.1, Flatten(Pass(rule, limit, segs[1..], c').1));
  }

  /** With the counter at the limit, a scan pushes the whole text as one bare part. */
  lemma ScanExhausted<V>(rule: Rule<V>, k: nat, t: string, c: nat)
    requires WellBehaved(rule.find) && k <= c
    ensures Scan(rule, AtMost(k), t, c).1 == [Plain(t)]
    ensures c <= Scan(rule, AtMost(k), t, c).0
  {
    SplitExhausted(rule.find, k, t, c);
    assert Build(rule, [Gap(t)]) == [Plain(t)] + Build(rule, []);
  }

  /** A pass keeps every unclaimed segment a bare `{children}` record. */
  lemma {:induction false} PassTidy<V>(rule: Rule<V>, limit: Limit, segs: seq<Segment<V>>, count: nat)
    requires WellBehaved(rule.find) && Tidy(segs)
    ensures Tidy(Flatten(Pass(rule, limit, segs, count).1))
    decreases |segs|
  {
    if segs != [] {
      var head := Group(rule, limit, segs[0], count);
      PassStep(rule, limit, segs, count);
      TidyTail(segs);
      PassTidy(rule, limit, segs[1..], head.0);
      if segs[0].matched {
        assert Tidy(head.1) by {
          assert head.1 == [segs[0]];
        }
      } else {
        BuildShape(rule, Split(rule.find, limit, segs[0].children, count).1);
      }
      TidyAppend(head.1, Flatten(Pass(rule, limit, segs[1..], head.0).1));
    }
  }

  /** Every claimed segment survives a pass unchanged, in the same order. */
  lemma {:induction false} PassClaimed<V>(rule: Rule<V>, limit: Limit, segs: seq<Segment<V>>, count: nat)
    requires WellBehaved(rule.find)
    ensures Embeds(Claimed(segs), Claimed(Flatten(Pass(rule, limit, segs, count).1)))
    decreases |segs|
  {
    if segs != [] {
      var head := Group(rule, limit, segs[0], count);
      var rest := Flatten(Pass(rule, limit, segs[1..], head.0).1);
      PassStep(rule, limit, segs, count);
      PassClaimed(rule, limit, segs[1..], head.0);
      ClaimedAppend(head.1, rest);
      assert Claimed(segs) == (if segs[0].matched then [segs[0]] else []) + Claimed(segs[1..]);
      if segs[0].matched {
        assert Claimed(head.1) == [segs[0]] + Claimed(head.1[1..]);
        var a := [segs[0]] + Claimed(segs[1..]);
        var b := [segs[0]] + Claimed(rest);
        assert a[1..] == Claimed(segs[1..]) && b[1..] == Claimed(rest);
      } else {
        assert Claimed(segs) == Claimed(segs[1..]);
        EmbedsPrefix(Claimed(segs[1..]), Claimed(head.1), Claimed(rest));
      }
    }
  }

  /** Once the counter has reached a limit, what a pass emits holds exactly the claimed segments it was given. */
  lemma {:induction false} PassSpent<V>(rule: Rule<V>, k: nat, segs: seq<Segment<V>>, count: nat)
    requires WellBehaved(rule.find) && k <= count
    ensures Claimed(Flatten(Pass(rule, AtMost(k), segs, count).1)) == Claimed(segs)
    decreases |segs|
  {
    if segs != [] {
      var head := Group(rule, AtMost(k), segs[0], count);
      var rest := Flatten(Pass(rule, AtMost(k), segs[1..], head.0).1);
      PassStep(rule, AtMost(k), segs, count);
      ClaimedAppend(head.1, rest);
      assert Claimed(segs) == (if segs[0].matched then [segs[0]] else []) + Claimed(segs[1..]);
      if segs[0].matched {
        assert head == (count, [segs[0]]);
        assert Claimed(head.1) == [segs[0]] + Claimed(head.1[1..]);
      } else {
        ScanExhausted(rule, k, segs[0].children, count);
        assert Claimed(head.1) == [] + Claimed(head.1[1..]);
      }
      PassSpent(rule, k, segs[1..], head.0);
    }
  }

  /** The claimed parts a scan pushes before the piece where a limited scan stopped. */
  lemma ClaimedCut<V>(rule: Rule<V>, lim: seq<Piece>, all: seq<Piece>)
    requires Cut(lim, all)
    ensures Claimed(Build(rule, all)) == Claimed(Build(rule, lim)) + Claimed(Build(rule, all[|lim| - 1..]))
  {
    var p, x, r := lim[..|lim| - 1], lim[|lim| - 1].text, all[|lim| - 1..];
    CutParts(lim, all);
    ClaimedParts(rule, p, x, r);
  }

  lemma CutParts(lim: seq<Piece>, all: seq<Piece>)
    requires Cut(lim, all)
    ensures lim == lim[..|lim| - 1] + [Gap(lim[|lim| - 1].text)]
    ensures all == lim[..|lim| - 1] + all[|lim| - 1..]
  {
    assert all == all[..|lim| - 1] + all[|lim| - 1..];
  }

  lemma ClaimedParts<V>(rule: Rule<V>, p: seq<Piece>, x: string, r: seq<Piece>)
    ensures Claimed(Build(rule, p + [Gap(x)])) == Claimed(Build(rule, p))
    ensures Claimed(Build(rule, p + r)) == Claimed(Build(rule, p)) + Claimed(Build(rule, r))
  {
    BuildAppend(rule, p, [Gap(x)]);
    BuildGap(rule);
    ClaimedAppend(Build(rule, p), [Plain<V>(x)]);
    assert Claimed([Plain<V>(x)]) == [] + Claimed([Plain<V>(x)][1..]);
    assert Build(rule, p) + [] == Build(rule, p);
    BuildAppend(rule, p, r);
    ClaimedAppend(Build(rule, p), Build(rule, r));
  }

  /**
   * `lim` is what a pass emits for `segs` when it may accept `budget` more
   * matches, and `all` what it emits without a limit: it adds the matches
   * found up to the budget and no more, is `all` itself when fewer are found,
   * and emits only claimed segments `all` emits, in the same order.
   */
  ghost predicate LimitedAs<V>(lim: seq<Segment<V>>, all: seq<Segment<V>>, segs: seq<Segment<V>>, budget: int)
  {
    var found := MatchCount(all) - MatchCount(segs);
    MatchCount(lim) - MatchCount(segs) == (if found < budget then found else budget) &&
    (found < budget ==> lim == all) &&
    Embeds(Claimed(lim), Claimed(all))
  }

  /**
   * A limited pass against the same pass without a limit: it adds the
   * matches found up to the limit and no more; below the limit the two are
   * the same; and every claimed segment it emits, the ones it added
   * included, is one the unlimited pass emits, in the same order.
   */
  lemma {:induction false} PassUnderLimit<V>(rule: Rule<V>, k: nat, segs: seq<Segment<V>>, c: nat, u: nat)
    requires WellBehaved(rule.find) && c <= k
    ensures LimitedAs(Flatten(Pass(rule, AtMost(k), segs, c).1), Flatten(Pass(rule, Unlimited, segs, u).1), segs, k - c)
    decreases |segs|
  {
    if segs == [] {
      assert Flatten(Pass(rule, AtMost(k), segs, c).1) == [] == Flatten(Pass(rule, Unlimited, segs, u).1);
    } else if segs[0].matched || Hits(Split(rule.find, Unlimited, segs[0].children, u).1) < k - c {
      HeadAgreement(rule, k, segs, c, u);
      PassUnderLimit(rule, k, segs[1..], Group(rule, AtMost(k), segs[0], c).0, Group(rule, Unlimited, segs[0], u).0);
      PassAgreeingHead(rule, k, segs, c, u);
    } else {
      PassReachedHead(rule, k, segs, c, u);
    }
  }

  /** The first segment is copied by both passes, or scanned alike because the limit is not reached in it. */
  ghost predicate HeadAgrees<V>(rule: Rule<V>, k: nat, segs: seq<Segment<V>>, c: nat, u: nat)
    requires WellBehaved(rule.find) && segs != []
  {
    var hl := Group(rule, AtMost(k), segs[0], c);
    hl.1 == Group(rule, Unlimited, segs[0], u).1 &&
    c <= hl.0 <= k && hl.0 - c == MatchCount(hl.1) - MatchCount(segs) + MatchCount(segs[1..])
  }

  lemma HeadAgreement<V>(rule: Rule<V>, k: nat, segs: seq<Segment<V>>, c: nat, u: nat)
    requires WellBehaved(rule.find) && c <= k && segs != []
    requires segs[0].matched || Hits(Split(rule.find, Unlimited, segs[0].children, u).1) < k - c
    ensures HeadAgrees(rule, k, segs, c, u)
  {
    if segs[0].matched {
      ClaimedHeadAgrees(rule, k, segs, c, u);
    } else {
      ScanBelowLimit(rule, k, segs[0].children, c, u);
      assert MatchCount(segs) == 0 + MatchCount(segs[1..]);
    }
  }

  lemma ClaimedHeadAgrees<V>(rule: Rule<V>, k: nat, segs: seq<Segment<V>>, c: nat, u: nat)
    requires WellBehaved(rule.find) && c <= k && segs != [] && segs[0].matched
    ensures HeadAgrees(rule, k, segs, c, u)
  {
    assert MatchCount(segs) == 1 + MatchCount(segs[1..]);
    assert Group(rule, AtMost(k), segs[0], c) == (c, [segs[0]]);
    assert Group(rule, Unlimited, segs[0], u).1 == [segs[0]];
    assert MatchCount([segs[0]]) == 1 + MatchCount([segs[0]][1..]);
  }

  /** A scan in which the limit is not reached: the limited scan is the unlimited one. */
  lemma ScanBelowLimit<V>(rule: Rule<V>, k: nat, t: string, c: nat, u: nat)
    requires WellBehaved(rule.find) && c <= k && Hits(Split(rule.find, Unlimited, t, u).1) < k - c
    ensures var lim := Scan(rule, AtMost(k), t, c);
      lim.1 == Scan(rule, Unlimited, t, u).1 && c <= lim.0 <= k && lim.0 - c == MatchCount(lim.1)
  {
    SplitUnderLimit(rule.find, k, t, c, u);
    BuildShape(rule, Split(rule.find, AtMost(k), t, c).1);
  }

  /** The step of `PassUnderLimit` for a first segment that both passes turn into the same parts. */
  lemma PassAgreeingHead<V>(rule: Rule<V>, k: nat, segs: seq<Segment<V>>, c: nat, u: nat)
    requires WellBehaved(rule.find) && segs != [] && HeadAgrees(rule, k, segs, c, u)
    requires LimitedAs(Flatten(Pass(rule, AtMost(k), segs[1..], Group(rule, AtMost(k), segs[0], c).0).1),
      Flatten(Pass(rule, Unlimited, segs[1..], Group(rule, Unlimited, segs[0], u).0).1),
      segs[1..], k - Group(rule, AtMost(k), segs[0], c).0)
    ensures LimitedAs(Flatten(Pass(rule, AtMost(k), segs, c).1), Flatten(Pass(rule, Unlimited, segs, u).1), segs, k - c)
  {
    var hl := Group(rule, AtMost(k), segs[0], c);
    var ha := Group(rule, Unlimited, segs[0], u);
    PassStep(rule, AtMost(k), segs, c);
    PassStep(rule, Unlimited, segs, u);
    JoinAgreeing(hl.1, Flatten(Pass(rule, AtMost(k), segs[1..], hl.0).1),
      Flatten(Pass(rule, Unlimited, segs[1..], ha.0).1), segs, k - c, hl.0 - c);
  }

  lemma JoinAgreeing<V>(h: seq<Segment<V>>, restL: seq<Segment<V>>, restA: seq<Segment<V>>, segs: seq<Segment<V>>, budget: int, x: int)
    requires segs != [] && x == MatchCount(h) - MatchCount(segs) + MatchCount(segs[1..]) && 0 <= x <= budget
    requires LimitedAs(restL, restA, segs[1..], budget - x)
    ensures LimitedAs(h + restL, h + restA, segs, budget)
  {
    MatchCountAppend(h, restL);
    MatchCountAppend(h, restA);
    ClaimedAppend(h, restL);
    ClaimedAppend(h, restA);
    EmbedsSamePrefix(Claimed(h), Claimed(restL), Claimed(restA));
  }

  /** The step of `PassUnderLimit` for an unclaimed first segment in which the limit is reached. */
  lemma PassReachedHead<V>(rule: Rule<V>, k: nat, segs: seq<Segment<V>>, c: nat, u: nat)
    requires WellBehaved(rule.find) && c <= k && segs != [] && !segs[0].matched
    requires k - c <= Hits(Split(rule.find, Unlimited, segs[0].children, u).1)
    ensures LimitedAs(Flatten(Pass(rule, AtMost(k), segs, c).1), Flatten(Pass(rule, Unlimited, segs, u).1), segs, k - c)
  {
    var hl := Group(rule, AtMost(k), segs[0], c);
    var ha := Group(rule, Unlimited, segs[0], u);
    PassStep(rule, AtMost(k), segs, c);
    PassStep(rule, Unlimited, segs, u);
    ScanReachesLimit(rule, k, segs[0].children, c, u);
    PassAfterLimit(rule, k, segs[1..], hl.0);
    PassGrows(rule, segs[1..], ha.0);
    PassAfterLimitClaimed(rule, k, segs[1..], hl.0, ha.0);
    assert MatchCount(segs) == MatchCount(segs[1..]);
    JoinCut(hl.1, ha.1, Flatten(Pass(rule, AtMost(k), segs[1..], hl.0).1),
      Flatten(Pass(rule, Unlimited, segs[1..], ha.0).1), segs, k - c);
  }

  /** A scan in which the limit is reached: it accepts what the budget allows, and its claimed parts begin those of the unlimited scan. */
  lemma ScanReachesLimit<V>(rule: Rule<V>, k: nat, t: string, c: nat, u: nat)
    requires WellBehaved(rule.find) && c <= k && k - c <= Hits(Split(rule.find, Unlimited, t, u).1)
    ensures var lim := Scan(rule, AtMost(k), t, c);
      var all := Scan(rule, Unlimited, t, u).1;
      MatchCount(lim.1) == k - c <= MatchCount(all) && k <= lim.0 &&
      |Claimed(lim.1)| <= |Claimed(all)| && Claimed(lim.1) == Claimed(all)[..|Claimed(lim.1)|]
  {
    var pl := Split(rule.find, AtMost(k), t, c).1;
    var pa := Split(rule.find, Unlimited, t, u).1;
    SplitUnderLimit(rule.find, k, t, c, u);
    BuildShape(rule, pl);
    BuildShape(rule, pa);
    ClaimedCut(rule, pl, pa);
  }

  /** The rest of a pass once the limit has been reached accepts nothing. */
  lemma PassAfterLimit<V>(rule: Rule<V>, k: nat, segs: seq<Segment<V>>, c: nat)
    requires WellBehaved(rule.find) && k <= c
    ensures MatchCount(Flatten(Pass(rule, AtMost(k), segs, c).1)) == MatchCount(segs)
  {
    PassLimit(rule, AtMost(k), segs, c);
  }

  /** Without a limit, a pass never loses a claimed segment from the count. */
  lemma PassGrows<V>(rule: Rule<V>, segs: seq<Segment<V>>, u: nat)
    requires WellBehaved(rule.find)
    ensures MatchCount(segs) <= MatchCount(Flatten(Pass(rule, Unlimited, segs, u).1))
  {
    PassLimit(rule, Unlimited, segs, u);
    assert Cap(u, Unlimited) == u && Cap(Pass(rule, Unlimited, segs, u).0, Unlimited) == Pass(rule, Unlimited, segs, u).0;
  }

  /** The claimed segments of the rest of a pass once the limit has been reached, against the same rest without a limit. */
  lemma PassAfterLimitClaimed<V>(rule: Rule<V>, k: nat, segs: seq<Segment<V>>, c: nat, u: nat)
    requires WellBehaved(rule.find) && k <= c
    ensures Claimed(Flatten(Pass(rule, AtMost(k), segs, c).1)) == Claimed(segs)
    ensures Embeds(Claimed(segs), Claimed(Flatten(Pass(rule, Unlimited, segs, u).1)))
  {
    PassSpent(rule, k, segs, c);
    PassClaimed(rule, Unlimited, segs, u);
  }

  lemma JoinCut<V>(hl: seq<Segment<V>>, ha: seq<Segment<V>>, restL: seq<Segment<V>>, restA: seq<Segment<V>>,
                   segs: seq<Segment<V>>, budget: int)
    requires segs != [] && MatchCount(segs) == MatchCount(segs[1..])
    requires MatchCount(hl) == budget <= MatchCount(ha)
    requires |Claimed(hl)| <= |Claimed(ha)| && Claimed(hl) == Claimed(ha)[..|Claimed(hl)|]
    requires MatchCount(restL) == MatchCount(segs[1..]) && Claimed(restL) == Claimed(segs[1..])
    requires MatchCount(segs[1..]) <= MatchCount(restA) && Embeds(Claimed(segs[1..]), Claimed(restA))
    ensures LimitedAs(hl + restL, ha + restA, segs, budget)
  {
    var x := Claimed(ha)[|Claimed(hl)|..];
    assert Claimed(ha) == Claimed(hl) + x;
    MatchCountAppend(hl, restL);
    MatchCountAppend(ha, restA);
    ClaimedAppend(hl, restL);
    ClaimedAppend(ha, restA);
    EmbedsPrefix(Claimed(segs[1..]), x, Claimed(restA));
    EmbedsSamePrefix(Claimed(hl), Claimed(segs[1..]), x + Claimed(restA));
    AppendAssoc(Claimed(hl), x, Claimed(restA));
  }

  /**
   * The match limit of a rule holds across all the segments of its pass: with
   * a positive integer `nonExhaustiveModeMaxMatchCount` k, the pass adds at
   * most k claimed segments; without one, every match found is accepted.
   * Against the same pass run without a limit, which finds m matches, the
   * limited pass adds min(m, k) claimed segments, is that very pass when
   * m < k, and emits only claimed segments the unlimited pass emits, in the
   * same order.
   */
  lemma RuleLimit<V>(rule: Rule<V>, segs: seq<Segment<V>>)
    requires WellBehaved(rule.find)
    ensures var limit := Permitted(rule.maxMatchCount);
      var found := Pass(rule, limit, segs, 0).0;
      MatchCount(RulePass(rule, segs)) == MatchCount(segs) + Cap(found, limit) &&
      (limit.AtMost? ==> MatchCount(RulePass(rule, segs)) <= MatchCount(segs) + limit.k) &&
      (limit.Unlimited? ==> MatchCount(RulePass(rule, segs)) == MatchCount(segs) + found)
    ensures var limit := Permitted(rule.maxMatchCount);
      var all := Flatten(Pass(rule, Unlimited, segs, 0).1);
      var m := MatchCount(all) - MatchCount(segs);
      limit.AtMost? ==>
        MatchCount(RulePass(rule, segs)) - MatchCount(segs) == (if m < limit.k then m else limit.k) &&
        (m < limit.k ==> RulePass(rule, segs) == all) &&
        Embeds(Claimed(RulePass(rule, segs)), Claimed(all))
  {
    var limit := Permitted(rule.maxMatchCount);
    PassLimit(rule, limit, segs, 0);
    if limit.AtMost? {
      PassUnderLimit(rule, limit.k, segs, 0, 0);
    }
  }

  /** `this.patterns.forEach`: each rule's pass, in order, on what the previous ones left. */
  function ApplyRules<V>(rules: seq<Rule<V>>, segs: seq<Segment<V>>): seq<Segment<V>>
    requires AllWellBehaved(rules)
    decreases |rules|
  {
    if rules == [] then segs
    else
      WellBehavedTail(rules);
      ApplyRules(rules[1..], RulePass(rules[0], segs))
  }

  lemma ApplyRulesStep<V>(rules: seq<Rule<V>>, segs: seq<Segment<V>>)
    requires AllWellBehaved(rules) && rules != []
    ensures WellBehaved(rules[0].find) && AllWellBehaved(rules[1..])
    ensures ApplyRules(rules, segs) == ApplyRules(rules[1..], RulePass(rules[0], segs))
  {
    WellBehavedTail(rules);
  }

  lemma WellBehavedTail<V>(rules: seq<Rule<V>>)
    requires AllWellBehaved(rules) && rules != []
    ensures WellBehaved(rules[0].find) && AllWellBehaved(rules[1..])
  {
    forall i | 0 <= i < |rules[1..]| ensures rules[1..][i] == rules[i + 1] {
    }
  }

  ghost predicate NoRenderText<V>(rules: seq<Rule<V>>)
  {
    forall i :: 0 <= i < |rules| ==> rules[i].renderText.None?
  }

  /** Without `renderText`, the rules only cut the text into more segments. */
  lemma {:induction false} ApplyRulesCovers<V>(rules: seq<Rule<V>>, segs: seq<Segment<V>>)
    requires AllWellBehaved(rules) && NoRenderText(rules)
    ensures Text(ApplyRules(rules, segs)) == Text(segs)
    decreases |rules|
  {
    if rules != [] {
      ApplyRulesStep(rules, segs);
      PassCovers(rules[0], Permitted(rules[0].maxMatchCount), segs, 0);
      assert NoRenderText(rules[1..]) by {
        forall i | 0 <= i < |rules[1..]| ensures rules[1..][i] == rules[i + 1] {
        }
      }
      ApplyRulesCovers(rules[1..], RulePass(rules[0], segs));
    }
  }

  /** A segment claimed by a range or by an earlier rule is never split or changed by a later rule. */
  lemma {:induction false} ApplyRulesClaimed<V>(rules: seq<Rule<V>>, segs: seq<Segment<V>>)
    requires AllWellBehaved(rules)
    ensures Embeds(Claimed(segs), Claimed(ApplyRules(rules, segs)))
    decreases |rules|
  {
    if rules == [] {
      EmbedsRefl(Claimed(segs));
    } else {
      ApplyRulesStep(rules, segs);
      var next := RulePass(rules[0], segs);
      PassClaimed(rules[0], Permitted(rules[0].maxMatchCount), segs, 0);
      ApplyRulesClaimed(rules[1..], next);
      EmbedsTransitive(Claimed(segs), Claimed(next), Claimed(ApplyRules(rules[1..], next)));
    }
  }

  /** Unclaimed segments stay bare `{children}` records through all the rules. */
  lemma {:induction false} ApplyRulesTidy<V>(rules: seq<Rule<V>>, segs: seq<Segment<V>>)
    requires AllWellBehaved(rules) && Tidy(segs)
    ensures Tidy(ApplyRules(rules, segs))
    decreases |rules|
  {
    if rules != [] {
      ApplyRulesStep(rules, segs);
      PassTidy(rules[0], Permitted(rules[0].maxMatchCount), segs, 0);
      ApplyRulesTidy(rules[1..], RulePass(rules[0], segs));
    }
  }

  /** Line 146: `_matched` deleted from every segment; children and props stay. */
  function Strip<V>(segs: seq<Segment<V>>): seq<Part<V>>
  {
    if segs == [] then [] else [Part(segs[0].children, segs[0].props)] + Strip(segs[1..])
  }

  /** Line 148: `filter((t) => !!t.children)`, the parts whose text is not empty. */
  function NonEmpty<V>(parts: seq<Part<V>>): seq<Part<V>>
  {
    if parts == [] then []
    else (if parts[0].children != [] then [parts[0]] else []) + NonEmpty(parts[1..])
  }

  /** `parse()` as a whole: the pre-highlighted segments, every rule's pass, then the cleanup. */
  function ParseSpec<V>(text: string, rules: seq<Rule<V>>, ranges: seq<Range>, style: V): seq<Part<V>>
    requires AllWellBehaved(rules)
  {
    NonEmpty(Strip(ApplyRules(rules, Editing(text, ranges, style))))
  }

  lemma StripPushed<V>(segs: seq<Segment<V>>, done: seq<Part<V>>)
    requires segs != []
    ensures (done + [Part(segs[0].children, segs[0].props)]) + Strip(segs[1..]) == done + Strip(segs)
  {
    AppendAssoc(done, [Part(segs[0].children, segs[0].props)], Strip(segs[1..]));
  }

  lemma NonEmptyPushed<V>(parts: seq<Part<V>>, done: seq<Part<V>>)
    requires parts != []
    ensures (if parts[0].children != [] then done + [parts[0]] else done) + NonEmpty(parts[1..]) == done + NonEmpty(parts)
  {
    var head := if parts[0].children != [] then [parts[0]] else [];
    AppendAssoc(done, head, NonEmpty(parts[1..]));
    assert done + head == (if parts[0].children != [] then done + [parts[0]] else done);
  }

  /** Stripping the flag keeps every segment, its text and its props, in order. */
  lemma {:induction false} StripKeeps<V>(segs: seq<Segment<V>>)
    ensures |Strip(segs)| == |segs|
    ensures forall i :: 0 <= i < |segs| ==> Strip(segs)[i].children == segs[i].children && Strip(segs)[i].props == segs[i].props
    ensures PartsText(Strip(segs)) == Text(segs)
    decreases |segs|
  {
    if segs != [] {
      StripKeeps(segs[1..]);
      var out := Strip(segs);
      assert out[1..] == Strip(segs[1..]);
      forall i | 1 <= i < |segs| ensures out[i] == Strip(segs[1..])[i - 1] && segs[i] == segs[1..][i - 1] {
      }
    }
  }

  /**
   * The filter drops exactly the empty parts: what remains has no empty text,
   * keeps every non-empty part in order, and spells the same text.
   */
  lemma {:induction false} NonEmptyKeeps<V>(parts: seq<Part<V>>)
    ensures forall i :: 0 <= i < |NonEmpty(parts)| ==> NonEmpty(parts)[i].children != []
    ensures forall i :: 0 <= i < |parts| && parts[i].children != [] ==> parts[i] in NonEmpty(parts)
    ensures Embeds(NonEmpty(parts), parts)
    ensures PartsText(NonEmpty(parts)) == PartsText(parts)
    decreases |parts|
  {
    if parts != [] {
      var rest := NonEmpty(parts[1..]);
      NonEmptyKeeps(parts[1..]);
      PartsTextAppend(if parts[0].children != [] then [parts[0]] else [], rest);
      forall i | 1 <= i < |parts| ensures parts[i] == parts[1..][i - 1] {
      }
      if parts[0].children != [] {
        var out := [parts[0]] + rest;
        assert out[1..] == rest;
        assert PartsText([parts[0]]) == parts[0].children + PartsText([parts[0]][1..]);
      } else {
        assert NonEmpty(parts) == rest;
        EmbedsSkip(rest, parts);
      }
    }
  }

  /**
   * With well-formed ranges and no `renderText`, the parts `parse()` returns
   * spell the original text, and none of them is empty.
   */
  lemma ParseCovers<V>(text: string, rules: seq<Rule<V>>, ranges: seq<Range>, style: V)
    requires AllWellBehaved(rules) && NoRenderText(rules) && WellFormed(ranges, |text|)
    ensures PartsText(ParseSpec(text, rules, ranges, style)) == text
    ensures forall i :: 0 <= i < |ParseSpec(text, rules, ranges, style)| ==> ParseSpec(text, rules, ranges, style)[i].children != []
  {
    var segs := ApplyRules(rules, Editing(text, ranges, style));
    EditingCovers(text, ranges, style);
    ApplyRulesCovers(rules, Editing(text, ranges, style));
    StripKeeps(segs);
    NonEmptyKeeps(Strip(segs));
  }

  /**
   * Every styled range survives every rule unchanged, in ascending order of
   * start, whatever the rules: the rules only ever split unclaimed text, and
   * unclaimed segments stay bare.
   */
  lemma ParseKeepsClaimed<V>(text: string, rules: seq<Rule<V>>, ranges: seq<Range>, style: V)
    requires AllWellBehaved(rules)
    ensures var segs := ApplyRules(rules, Editing(text, ranges, style));
      Embeds(StyledAll(text, SortByStart(ranges), style), Claimed(segs)) && Tidy(segs)
  {
    EditingShape(text, ranges, style);
    EditingTidy(text, ranges, style);
    ApplyRulesClaimed(rules, Editing(text, ranges, style));
    ApplyRulesTidy(rules, Editing(text, ranges, style));
  }
}
