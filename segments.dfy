/**
 * The records that flow through the text-extraction pipeline: pre-highlight
 * ranges, rules, segments and the parts handed to the renderer, together with
 * the sequence helpers the specifications are written with.
 *
 * `V` is any value a caller attaches to a rule or a style (a style object, a
 * string, a function); the pipeline never looks inside it.
 */
module Segments {
  import opened Wrappers

  /** A pre-highlight range `[start, end)`, given by callers as the key `"start|end"`. */
  datatype Range = Range(start: nat, end: nat)

  /** What one `exec` of a rule's regular expression reports: the offset and the length of the match. */
  datatype Match = Match(start: nat, len: nat)

  /** The value of one key of a rule object: plain data, or a function such as `onPress`. */
  datatype Field<V> = Data(value: V) | Function(fn: V)

  /** The value of one prop of an emitted segment: copied data, or a rule function bound to a match. */
  datatype Prop<V> = Static(value: V) | Bound(fn: V, text: string, index: nat)

  /**
   * A rule (`CustomParseShape`). `find` stands for running the global regular
   * expression with `lastIndex` reset to 0; `maxMatchCount` is
   * `nonExhaustiveModeMaxMatchCount` when it is a finite number (None when it
   * is absent or anything else); `renderText` is present when it is a function;
   * `fields` lists every key of the rule object with its value, in the order
   * `Object.keys` returns them, reserved keys included.
   */
  datatype Rule<V> = Rule(
    find: string -> Option<Match>,
    maxMatchCount: Option<real>,
    renderText: Option<string -> string>,
    fields: seq<(string, Field<V>)>)

  /** A segment during the pipeline: `{children, ...props, _matched}`. */
  datatype Segment<V> = Segment(children: string, matched: bool, props: map<string, Prop<V>>)

  /** A segment as returned to the renderer, once `_matched` has been deleted. */
  datatype Part<V> = Part(children: string, props: map<string, Prop<V>>)

  /** How many matches a rule may still accept in one pass. */
  datatype Limit = AtMost(k: nat) | Unlimited

  /**
   * The regular expression can be driven by the scan loop: on a non-empty
   * string a match lies inside it and does not end at offset 0 (an empty match
   * at the start would leave the remainder unchanged).
   */
  ghost predicate WellBehaved(find: string -> Option<Match>)
  {
    forall s: string :: s != [] && find(s).Some? ==> 0 < find(s).value.start + find(s).value.len <= |s|
  }

  ghost predicate AllWellBehaved<V>(rules: seq<Rule<V>>)
  {
    forall i :: 0 <= i < |rules| ==> WellBehaved(rules[i].find)
  }

  /** An unclaimed segment carrying no props: `{children: t}`. */
  function Plain<V>(t: string): Segment<V>
  {
    Segment(t, false, map[])
  }

  /** `s.slice(from, to)` for non-negative offsets: both are clamped to the length; a reversed pair gives "". */
  function Slice(s: string, from: nat, to: nat): (r: string)
    ensures from <= to <= |s| ==> r == s[from..to]
    ensures to <= from ==> r == []
    ensures |r| <= |s|
  {
    var a := if from < |s| then from else |s|;
    var b := if to < |s| then to else |s|;
    if a < b then s[a..b] else []
  }

  /** The texts of the segments, joined in order. */
  function Text<V>(segs: seq<Segment<V>>): string
  {
    if segs == [] then [] else segs[0].children + Text(segs[1..])
  }

  function PartsText<V>(parts: seq<Part<V>>): string
  {
    if parts == [] then [] else parts[0].children + PartsText(parts[1..])
  }

  function Flatten<T>(groups: seq<seq<T>>): seq<T>
  {
    if groups == [] then [] else groups[0] + Flatten(groups[1..])
  }

  /** The number of claimed segments. */
  function MatchCount<V>(segs: seq<Segment<V>>): nat
  {
    if segs == [] then 0 else (if segs[0].matched then 1 else 0) + MatchCount(segs[1..])
  }

  /** The claimed segments, in order. */
  function Claimed<V>(segs: seq<Segment<V>>): seq<Segment<V>>
  {
    if segs == [] then [] else (if segs[0].matched then [segs[0]] else []) + Claimed(segs[1..])
  }

  /** Every unclaimed segment is a bare `{children}` record. */
  ghost predicate Tidy<V>(segs: seq<Segment<V>>)
  {
    forall i :: 0 <= i < |segs| && !segs[i].matched ==> segs[i] == Plain(segs[i].children)
  }

  /** A bare plain segment, then any number of (claimed, bare plain) pairs. */
  ghost predicate Alternating<V>(parts: seq<Segment<V>>)
    decreases |parts|
  {
    |parts| >= 1 && parts[0] == Plain(parts[0].children) &&
    (|parts| == 1 || (|parts| >= 3 && parts[1].matched && Alternating(parts[2..])))
  }

  /** `a` is a subsequence of `b`: the elements of `a` occur in `b`, unchanged and in the same order. */
  ghost predicate Embeds<T>(a: seq<T>, b: seq<T>)
    decreases |b|
  {
    a == [] || (b != [] && ((a[0] == b[0] && Embeds(a[1..], b[1..])) || Embeds(a, b[1..])))
  }

  lemma {:induction false} TextAppend<V>(a: seq<Segment<V>>, b: seq<Segment<V>>)
    ensures Text(a + b) == Text(a) + Text(b)
    decreases |a|
  {
    if a == [] {
      assert a + b == b;
    } else {
      assert (a + b)[1..] == a[1..] + b;
      TextAppend(a[1..], b);
    }
  }

  /** A text is its prefix, a middle slice and its suffix. */
  lemma SplitThree(t: string, s: nat, e: nat)
    requires s <= e <= |t|
    ensures t == t[..s] + t[s..e] + t[e..]
  {
  }

  lemma {:induction false} PartsTextAppend<V>(a: seq<Part<V>>, b: seq<Part<V>>)
    ensures PartsText(a + b) == PartsText(a) + PartsText(b)
    decreases |a|
  {
    if a == [] {
      assert a + b == b;
    } else {
      assert (a + b)[1..] == a[1..] + b;
      PartsTextAppend(a[1..], b);
    }
  }

  lemma {:induction false} MatchCountAppend<V>(a: seq<Segment<V>>, b: seq<Segment<V>>)
    ensures MatchCount(a + b) == MatchCount(a) + MatchCount(b)
    decreases |a|
  {
    if a == [] {
      assert a + b == b;
    } else {
      assert (a + b)[1..] == a[1..] + b;
      MatchCountAppend(a[1..], b);
    }
  }

  lemma {:induction false} ClaimedAppend<V>(a: seq<Segment<V>>, b: seq<Segment<V>>)
    ensures Claimed(a + b) == Claimed(a) + Claimed(b)
    decreases |a|
  {
    if a == [] {
      assert a + b == b;
    } else {
      assert (a + b)[0] == a[0] && (a + b)[1..] == a[1..] + b;
      ClaimedAppend(a[1..], b);
    }
  }

  lemma {:induction false} EmbedsPrefix<T>(a: seq<T>, p: seq<T>, b: seq<T>)
    requires Embeds(a, b)
    ensures Embeds(a, p + b)
    decreases |p|
  {
    if p == [] {
      assert p + b == b;
    } else {
      assert (p + b)[1..] == p[1..] + b;
      EmbedsPrefix(a, p[1..], b);
    }
  }

  /** Subsequences compose: a segment that survives two passes survives both. */
  lemma {:induction false} EmbedsTransitive<T>(a: seq<T>, b: seq<T>, c: seq<T>)
    requires Embeds(a, b) && Embeds(b, c)
    ensures Embeds(a, c)
    decreases |c|
  {
    if a == [] {
    } else if b == [] {
      assert false;
    } else if b[0] == c[0] && Embeds(b[1..], c[1..]) {
      if a[0] == b[0] && Embeds(a[1..], b[1..]) {
        EmbedsTransitive(a[1..], b[1..], c[1..]);
      } else {
        EmbedsTransitive(a, b[1..], c[1..]);
      }
    } else {
      EmbedsTransitive(a, b, c[1..]);
    }
  }

  lemma TidyAppend<V>(a: seq<Segment<V>>, b: seq<Segment<V>>)
    requires Tidy(a) && Tidy(b)
    ensures Tidy(a + b)
  {
    forall i | 0 <= i < |a + b| && !(a + b)[i].matched
      ensures (a + b)[i] == Plain((a + b)[i].children)
    {
      if i >= |a| {
        assert (a + b)[i] == b[i - |a|];
      }
    }
  }

  lemma TidyTail<V>(segs: seq<Segment<V>>)
    requires segs != [] && Tidy(segs)
    ensures Tidy(segs[1..])
  {
    forall i | 0 <= i < |segs[1..]| ensures segs[1..][i] == segs[i + 1] {
    }
  }

  lemma {:induction false} EmbedsRefl<T>(a: seq<T>)
    ensures Embeds(a, a)
    decreases |a|
  {
    if a != [] {
      EmbedsRefl(a[1..]);
    }
  }

  /** A common prefix keeps a subsequence a subsequence. */
  lemma {:induction false} EmbedsSamePrefix<T>(p: seq<T>, a: seq<T>, b: seq<T>)
    requires Embeds(a, b)
    ensures Embeds(p + a, p + b)
    decreases |p|
  {
    if p == [] {
      assert p + a == a && p + b == b;
    } else {
      EmbedsSamePrefix(p[1..], a, b);
      assert (p + a)[0] == (p + b)[0];
      assert (p + a)[1..] == p[1..] + a && (p + b)[1..] == p[1..] + b;
    }
  }

  lemma EmbedsSkip<T>(a: seq<T>, b: seq<T>)
    requires b != [] && Embeds(a, b[1..])
    ensures Embeds(a, b)
  {
  }

  lemma AppendAssoc<T>(a: seq<T>, b: seq<T>, c: seq<T>)
    ensures a + b + c == a + (b + c)
  {
  }

  lemma HeadTail<T>(s: seq<T>)
    requires s != []
    ensures s == [s[0]] + s[1..]
  {
  }

  lemma PushTwo<T>(s: seq<T>, x: T, y: T)
    ensures s + [x] + [y] == s + [x, y]
  {
  }

}
