/**
 * The pre-highlighter (`checkAndApplyEditing`): caller-supplied ranges are
 * sorted numerically by start, and the text is cut into plain and styled
 * slices, left to right.
 */
module PreHighlighter {
  import opened Segments

  /** Ascending by start (`a.split('|')[0] - b.split('|')[0]` compares numerically). */
  ghost predicate SortedByStart(rs: seq<Range>)
  {
    forall i, j :: 0 <= i < j < |rs| ==> rs[i].start <= rs[j].start
  }

  /** Puts `r` in front of the first range that does not start before it; elements that compare equal keep their order. */
  function Insert(r: Range, sorted: seq<Range>): (res: seq<Range>)
    ensures |res| == |sorted| + 1
  {
    if sorted == [] || r.start <= sorted[0].start then [r] + sorted
    else [sorted[0]] + Insert(r, sorted[1..])
  }

  lemma {:induction false} InsertPermutes(r: Range, t: seq<Range>)
    ensures multiset(Insert(r, t)) == multiset(t) + multiset{r}
    decreases |t|
  {
    if t != [] && t[0].start < r.start {
      InsertPermutes(r, t[1..]);
      assert t == [t[0]] + t[1..];
    }
  }

  lemma {:induction false} InsertSorted(r: Range, t: seq<Range>)
    requires SortedByStart(t)
    ensures SortedByStart(Insert(r, t))
    decreases |t|
  {
    if t != [] && t[0].start < r.start {
      var rest := Insert(r, t[1..]);
      InsertSorted(r, t[1..]);
      InsertPermutes(r, t[1..]);
      forall j | 0 <= j < |rest| ensures t[0].start <= rest[j].start {
        assert rest[j] in multiset(rest);
        if rest[j] != r {
          var q :| 0 <= q < |t[1..]| && t[1..][q] == rest[j];
          assert t[q + 1] == rest[j];
        }
      }
      assert Insert(r, t) == [t[0]] + rest;
    }
  }

  /** `tagArray.sort(...)`: the array's stable sort, as an insertion sort. */
  function SortByStart(rs: seq<Range>): (res: seq<Range>)
    ensures |res| == |rs|
  {
    if rs == [] then [] else Insert(rs[0], SortByStart(rs[1..]))
  }

  /** The sort's result is in ascending order of start and holds the same ranges, each as often. */
  lemma {:induction false} SortByStartSorts(rs: seq<Range>)
    ensures SortedByStart(SortByStart(rs))
    ensures multiset(SortByStart(rs)) == multiset(rs)
    decreases |rs|
  {
    if rs != [] {
      assert rs == [rs[0]] + rs[1..];
      SortByStartSorts(rs[1..]);
      InsertPermutes(rs[0], SortByStart(rs[1..]));
      InsertSorted(rs[0], SortByStart(rs[1..]));
    }
  }

  /** The two ranges share no position. */
  predicate Disjoint(a: Range, b: Range)
  {
    a.end <= b.start || b.end <= a.start
  }

  ghost predicate PairwiseDisjoint(rs: seq<Range>)
  {
    forall i, j :: 0 <= i < j < |rs| ==> Disjoint(rs[i], rs[j])
  }

  /**
   * Ranges the pre-highlighter gives a meaning to, in any order: non-empty,
   * inside a text of length `n`, and not overlapping one another.
   */
  ghost predicate WellFormed(rs: seq<Range>, n: nat)
  {
    (forall i :: 0 <= i < |rs| ==> rs[i].start < rs[i].end <= n) && PairwiseDisjoint(rs)
  }

  /** Sorted ranges that follow one another inside a text of length `n`. */
  ghost predicate Chained(rs: seq<Range>, n: nat)
  {
    (forall i :: 0 <= i < |rs| ==> rs[i].start <= rs[i].end <= n) &&
    (forall i :: 0 <= i < |rs| - 1 ==> rs[i].end <= rs[i + 1].start)
  }

  lemma {:induction false} InsertDisjoint(r: Range, t: seq<Range>)
    requires PairwiseDisjoint(t)
    requires forall y :: y in t ==> Disjoint(r, y)
    ensures PairwiseDisjoint(Insert(r, t))
    decreases |t|
  {
    if t == [] || r.start <= t[0].start {
    } else {
      var rest := Insert(r, t[1..]);
      InsertDisjoint(r, t[1..]);
      InsertPermutes(r, t[1..]);
      assert Insert(r, t) == [t[0]] + rest;
      assert t[0] in t;
      forall j | 0 <= j < |rest| ensures Disjoint(t[0], rest[j]) {
        assert rest[j] in multiset(rest);
        if rest[j] != r {
          assert rest[j] in t[1..];
          var q :| 0 <= q < |t[1..]| && t[1..][q] == rest[j];
          assert t[q + 1] == rest[j];
        }
      }
    }
  }

  /** Sorting does not make non-overlapping ranges overlap. */
  lemma {:induction false} SortKeepsDisjoint(rs: seq<Range>)
    requires PairwiseDisjoint(rs)
    ensures PairwiseDisjoint(SortByStart(rs))
    decreases |rs|
  {
    if rs != [] {
      var tail := SortByStart(rs[1..]);
      SortKeepsDisjoint(rs[1..]);
      SortByStartSorts(rs[1..]);
      forall y | y in tail ensures Disjoint(rs[0], y) {
        assert y in multiset(tail);
        var q :| 0 <= q < |rs[1..]| && rs[1..][q] == y;
        assert rs[q + 1] == y;
      }
      InsertDisjoint(rs[0], tail);
    }
  }

  /** Well-formed ranges, once sorted, follow one another without overlap. */
  lemma SortedRangesChain(rs: seq<Range>, n: nat)
    requires WellFormed(rs, n)
    ensures Chained(SortByStart(rs), n)
  {
    var t := SortByStart(rs);
    SortKeepsDisjoint(rs);
    SortByStartSorts(rs);
    forall i | 0 <= i < |t| ensures t[i].start < t[i].end <= n {
      assert t[i] in multiset(rs);
    }
  }

  /** The styled segment for a range: `{children: text.slice(start, end), _matched: true, style}`. */
  function Styled<V>(text: string, r: Range, style: V): Segment<V>
  {
    Segment(Slice(text, r.start, r.end), true, map["style" := Static(style)])
  }

  /**
   * The segments emitted for the sorted ranges `rs`, the previous range
   * having ended at `from`: a plain slice up to each range, the range itself,
   * and after the last one the rest of the text.
   */
  function EditingFrom<V>(text: string, rs: seq<Range>, from: nat, style: V): seq<Segment<V>>
    requires rs != []
    decreases |rs|
  {
    [Plain(Slice(text, from, rs[0].start)), Styled(text, rs[0], style)] +
    if |rs| == 1 then [Plain(Slice(text, rs[0].end, |text|))]
    else EditingFrom(text, rs[1..], rs[0].end, style)
  }

  /** What `checkAndApplyEditing` returns for the ranges `rs`, in whatever order they come. */
  function Editing<V>(text: string, rs: seq<Range>, style: V): seq<Segment<V>>
  {
    if rs == [] then [Plain(text)] else EditingFrom(text, SortByStart(rs), 0, style)
  }

  /** The segments still to come once the ranges before `rs` are done, the last of them having ended at `from`. */
  function EditingRest<V>(text: string, rs: seq<Range>, from: nat, style: V): seq<Segment<V>>
  {
    if rs == [] then [] else EditingFrom(text, rs, from, style)
  }

  /** The pre-highlighter's step for one range: the text since `from`, the range, and after the last range the rest of the text. */
  lemma EditingRestStep<V>(text: string, rs: seq<Range>, from: nat, style: V)
    requires rs != []
    ensures EditingRest(text, rs, from, style) ==
      [Plain(Slice(text, from, rs[0].start)), Styled(text, rs[0], style)] +
      (if |rs| == 1 then [Plain(Slice(text, rs[0].end, |text|))] else []) +
      EditingRest(text, rs[1..], rs[0].end, style)
  {
  }

  lemma {:induction false} EditingFromLength<V>(text: string, rs: seq<Range>, from: nat, style: V)
    requires rs != []
    ensures |EditingFrom(text, rs, from, style)| == 2 * |rs| + 1
    decreases |rs|
  {
    if |rs| > 1 {
      EditingFromLength(text, rs[1..], rs[0].end, style);
    }
  }

  /** The styled segments for the ranges, in their order. */
  function StyledAll<V>(text: string, rs: seq<Range>, style: V): (r: seq<Segment<V>>)
    ensures |r| == |rs|
  {
    if rs == [] then [] else [Styled(text, rs[0], style)] + StyledAll(text, rs[1..], style)
  }

  /** The output for ranges `rs` is the text before the first one, the first one styled, then the rest. */
  lemma EditingFromSplit<V>(text: string, rs: seq<Range>, from: nat, style: V)
    requires rs != []
    ensures EditingFrom(text, rs, from, style) ==
      [Plain(Slice(text, from, rs[0].start)), Styled(text, rs[0], style)] +
      (if |rs| == 1 then [Plain(Slice(text, rs[0].end, |text|))] else EditingFrom(text, rs[1..], rs[0].end, style))
  {
  }

  /** The claimed segments of the output are the ranges' styled slices, one per range, in order. */
  lemma {:induction false} EditingFromClaimed<V>(text: string, rs: seq<Range>, from: nat, style: V)
    requires rs != []
    ensures Claimed(EditingFrom(text, rs, from, style)) == StyledAll(text, rs, style)
    decreases |rs|
  {
    var head := [Plain(Slice(text, from, rs[0].start)), Styled(text, rs[0], style)];
    var tail := if |rs| == 1 then [Plain(Slice(text, rs[0].end, |text|))] else EditingFrom(text, rs[1..], rs[0].end, style);
    EditingFromSplit(text, rs, from, style);
    ClaimedAppend(head, tail);
    assert Claimed(head) == [Styled(text, rs[0], style)] by {
      assert head[1..][1..] == [];
    }
    if |rs| == 1 {
      assert Claimed(tail) == [] by {
        assert tail[1..] == [];
      }
      assert rs[1..] == [];
    } else {
      EditingFromClaimed(text, rs[1..], rs[0].end, style);
    }
  }

  lemma TidyPlain<V>(t: string)
    ensures Tidy<V>([Plain(t)])
    ensures MatchCount<V>([Plain(t)]) == 0
  {
    assert [Plain<V>(t)][1..] == [];
  }

  lemma TidyPair<V>(x: Segment<V>, y: Segment<V>)
    requires x == Plain(x.children) && y.matched
    ensures Tidy([x, y])
    ensures MatchCount([x, y]) == 1
  {
    assert [x, y][1..] == [y];
    assert [y][1..] == [];
    assert MatchCount([y]) == 1;
  }

  /** Every unclaimed segment of the output is bare, and there are as many claimed ones as ranges. */
  lemma {:induction false} EditingFromTidy<V>(text: string, rs: seq<Range>, from: nat, style: V)
    requires rs != []
    ensures Tidy(EditingFrom(text, rs, from, style))
    ensures MatchCount(EditingFrom(text, rs, from, style)) == |rs|
    decreases |rs|
  {
    var head := [Plain(Slice(text, from, rs[0].start)), Styled(text, rs[0], style)];
    var tail := if |rs| == 1 then [Plain(Slice(text, rs[0].end, |text|))] else EditingFrom(text, rs[1..], rs[0].end, style);
    EditingFromSplit(text, rs, from, style);
    if |rs| == 1 {
      TidyPlain<V>(Slice(text, rs[0].end, |text|));
    } else {
      EditingFromTidy(text, rs[1..], rs[0].end, style);
    }
    TidyPair(head[0], head[1]);
    TidyAppend(head, tail);
    MatchCountAppend(head, tail);
  }

  /** The output alternates: a plain slice, then for every range its styled slice and a plain one. */
  lemma {:induction false} EditingFromAlternating<V>(text: string, rs: seq<Range>, from: nat, style: V)
    requires rs != []
    ensures Alternating(EditingFrom(text, rs, from, style))
    decreases |rs|
  {
    var segs := EditingFrom(text, rs, from, style);
    var tail := if |rs| == 1 then [Plain(Slice(text, rs[0].end, |text|))] else EditingFrom(text, rs[1..], rs[0].end, style);
    EditingFromSplit(text, rs, from, style);
    EditingFromLength(text, rs, from, style);
    assert segs[2..] == tail;
    if |rs| > 1 {
      EditingFromAlternating(text, rs[1..], rs[0].end, style);
    }
  }

  /**
   * The pre-highlighter's output for n ranges: 2n + 1 segments, whose claimed
   * ones are the ranges' styled slices in ascending order of start; with no
   * ranges it is the whole text as one plain segment.
   */
  lemma EditingShape<V>(text: string, rs: seq<Range>, style: V)
    ensures |Editing(text, rs, style)| == 2 * |rs| + 1
    ensures Alternating(Editing(text, rs, style))
    ensures Claimed(Editing(text, rs, style)) == StyledAll(text, SortByStart(rs), style)
  {
    if rs == [] {
      assert Claimed<V>([Plain(text)]) == [] + Claimed<V>([]);
    } else {
      EditingFromLength(text, SortByStart(rs), 0, style);
      EditingFromAlternating(text, SortByStart(rs), 0, style);
      EditingFromClaimed(text, SortByStart(rs), 0, style);
    }
  }

  /** Only the styled segments are claimed, one per range; the plain ones carry no props. */
  lemma EditingTidy<V>(text: string, rs: seq<Range>, style: V)
    ensures Tidy(Editing(text, rs, style))
    ensures MatchCount(Editing(text, rs, style)) == |rs|
  {
    if rs == [] {
      assert MatchCount<V>([Plain(text)]) == 0 + MatchCount<V>([]);
    } else {
      EditingFromTidy(text, SortByStart(rs), 0, style);
    }
  }

  lemma {:induction false} EditingFromCovers<V>(text: string, rs: seq<Range>, from: nat, style: V)
    requires rs != [] && Chained(rs, |text|) && from <= rs[0].start
    ensures Text(EditingFrom(text, rs, from, style)) == text[from..]
    decreases |rs|
  {
    var head := [Plain(Slice(text, from, rs[0].start)), Styled(text, rs[0], style)];
    var tail := if |rs| == 1 then [Plain(Slice(text, rs[0].end, |text|))]
                else EditingFrom(text, rs[1..], rs[0].end, style);
    TextAppend(head, tail);
    assert Text(head) == text[from..rs[0].start] + text[rs[0].start..rs[0].end] by {
      assert head[1..][1..] == [];
    }
    if |rs| == 1 {
      assert Text(tail) == text[rs[0].end..];
    } else {
      EditingFromCovers(text, rs[1..], rs[0].end, style);
    }
    assert text[from..] == text[from..rs[0].start] + text[rs[0].start..rs[0].end] + text[rs[0].end..];
  }

  /**
   * For well-formed ranges the pre-highlighter loses and repeats nothing: its
   * segments, joined, give back the text.
   */
  lemma EditingCovers<V>(text: string, rs: seq<Range>, style: V)
    requires WellFormed(rs, |text|)
    ensures Text(Editing(text, rs, style)) == text
  {
    if rs == [] {
      assert Text([Plain<V>(text)]) == text + Text<V>([]);
    } else {
      SortedRangesChain(rs, |text|);
      EditingFromCovers(text, SortByStart(rs), 0, style);
    }
  }

  /** Pushing the segments of range `i` moves the rest of the output into what has been emitted. */
  lemma EditingPushed<V>(text: string, rs: seq<Range>, i: nat, from: nat, style: V, done: seq<Segment<V>>, now: seq<Segment<V>>)
    requires i < |rs|
    requires now == done + [Plain(Slice(text, from, rs[i].start))] + [Styled(text, rs[i], style)] +
      (if i == |rs| - 1 then [Plain(Slice(text, rs[i].end, |text|))] else [])
    ensures now + EditingRest(text, rs[i + 1..], rs[i].end, style) == done + EditingRest(text, rs[i..], from, style)
  {
    EditingRestStep(text, rs[i..], from, style);
    assert rs[i..][1..] == rs[i + 1..];
    var head := [Plain(Slice(text, from, rs[i].start)), Styled(text, rs[i], style)];
    var last := if i == |rs| - 1 then [Plain(Slice(text, rs[i].end, |text|))] else [];
    var rest := EditingRest(text, rs[i + 1..], rs[i].end, style);
    PushTwo(done, head[0], head[1]);
    AppendAssoc(done, head, last);
    AppendAssoc(done, head + last, rest);
  }
}
