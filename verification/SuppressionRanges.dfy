/** The NOLINTBEGIN/NOLINTEND ranges of a file are nested or disjoint, and the innermost one is consulted. */
module SuppressionRanges {
  import opened Suppression

  /** A begin comment and the end comment that was matched with it. */
  predicate IsPair(comments: seq<Comment>, p: (nat, nat)) {
    p.0 < p.1 < |comments| && Classify(comments[p.0]).Begin?
    && Classify(comments[p.1]) == End(Classify(comments[p.0]).checks)
  }

  function RangeOf(comments: seq<Comment>, p: (nat, nat)): Range
    requires IsPair(comments, p)
  {
    Range(DisabledRegexes(Classify(comments[p.0]).checks), comments[p.0].line, comments[p.1].line)
  }

  /** `q` was found after `p`: it encloses `p` or begins behind it. */
  predicate Later(p: (nat, nat), q: (nat, nat)) {
    p.1 < q.1 && (q.0 < p.0 || p.1 < q.0)
  }

  /** The comment at `s` is not inside `p`. */
  predicate Outside(s: nat, p: (nat, nat)) {
    s < p.0 || p.1 < s
  }

  /** What holds of the open comments and the pairs after `n` comments. */
  ghost predicate WellNested(comments: seq<Comment>, n: nat, st: ParseState) {
    && n <= |comments|
    && (forall k :: 0 <= k < |st.stack| ==> st.stack[k] < n && Classify(comments[st.stack[k]]).Begin?)
    && (forall i, j :: 0 <= i < j < |st.stack| ==> st.stack[i] < st.stack[j])
    && (forall k :: 0 <= k < |st.pairs| ==> st.pairs[k].1 < n && IsPair(comments, st.pairs[k]))
    && (forall i, j :: 0 <= i < j < |st.pairs| ==> Later(st.pairs[i], st.pairs[j]))
    && (forall i, k :: 0 <= i < |st.stack| && 0 <= k < |st.pairs| ==> Outside(st.stack[i], st.pairs[k]))
    && |st.supp.ranges| == |st.pairs|
    && (forall k :: 0 <= k < |st.pairs| ==> st.supp.ranges[k] == RangeOf(comments, st.pairs[k]))
  }

  /** The stack's top is closed by the end comment `n`. */
  lemma CloseWellNested(comments: seq<Comment>, n: nat, st: ParseState, st': ParseState)
    requires n < |comments| && WellNested(comments, n, st) && st.stack != []
    requires var top := st.stack[|st.stack| - 1];
      IsPair(comments, (top, n))
      && st'.stack == st.stack[..|st.stack| - 1] && st'.pairs == st.pairs + [(top, n)]
      && st'.supp.ranges == st.supp.ranges + [RangeOf(comments, (top, n))]
    ensures WellNested(comments, n + 1, st')
  {
    hide Classify, DisabledRegexes, RangeOf;
    var top := st.stack[|st.stack| - 1];
    var p := (top, n);
    forall i | 0 <= i < |st.pairs| ensures Later(st.pairs[i], p) {
      assert Outside(top, st.pairs[i]);
    }
    forall i | 0 <= i < |st'.stack| ensures Outside(st'.stack[i], p) {
      assert st.stack[i] < top;
    }
  }

  lemma OpenWellNested(comments: seq<Comment>, n: nat, st: ParseState, st': ParseState)
    requires n < |comments| && WellNested(comments, n, st) && Classify(comments[n]).Begin?
    requires st'.stack == st.stack + [n] && st'.pairs == st.pairs && st'.supp.ranges == st.supp.ranges
    ensures WellNested(comments, n + 1, st')
  {
    hide Classify, DisabledRegexes, RangeOf;
  }

  lemma SameWellNested(comments: seq<Comment>, n: nat, st: ParseState, st': ParseState)
    requires n < |comments| && WellNested(comments, n, st)
    requires st'.stack == st.stack && st'.pairs == st.pairs && st'.supp.ranges == st.supp.ranges
    ensures WellNested(comments, n + 1, st')
  {
    hide Classify, DisabledRegexes, RangeOf;
  }

  lemma StepWellNested(comments: seq<Comment>, n: nat, st: ParseState)
    requires n < |comments| && WellNested(comments, n, st)
    ensures WellNested(comments, n + 1, StepNolint(st, comments, n))
  {
    hide Classify, DisabledRegexes, AddWildcards;
    var st' := StepNolint(st, comments, n);
    match Classify(comments[n])
    case Begin(_) => OpenWellNested(comments, n, st, st');
    case End(checks) =>
      if |st.stack| > 0 && Classify(comments[st.stack[|st.stack| - 1]]) == Begin(checks) {
        CloseWellNested(comments, n, st, st');
      } else {
        SameWellNested(comments, n, st, st');
      }
    case _ => SameWellNested(comments, n, st, st');
  }

  /** Every begin comment is in at most one range; ranges are listed inner before outer. */
  lemma {:induction false} RunIsWellNested(comments: seq<Comment>, n: nat)
    requires n <= |comments|
    ensures WellNested(comments, n, Run(comments, n))
    decreases n
  {
    hide Classify, DisabledRegexes, StepNolint, StepClazy, WellNested;
    if n == 0 {
      NothingNested(comments);
    } else {
      RunIsWellNested(comments, n - 1);
      var st := Run(comments, n - 1);
      if st.stopped {
        WellNestedLater(comments, n - 1, st);
      } else {
        StepWellNested(comments, n - 1, st);
        ClazyKeepsNesting(comments, n, StepNolint(st, comments, n - 1), comments[n - 1]);
      }
    }
  }

  lemma NothingNested(comments: seq<Comment>)
    ensures WellNested(comments, 0, Run(comments, 0))
  {
  }

  lemma WellNestedLater(comments: seq<Comment>, n: nat, st: ParseState)
    requires n < |comments| && WellNested(comments, n, st)
    ensures WellNested(comments, n + 1, st)
  {
    hide Classify, DisabledRegexes;
  }

  lemma ClazyKeepsNesting(comments: seq<Comment>, n: nat, st: ParseState, c: Comment)
    requires WellNested(comments, n, st)
    ensures WellNested(comments, n, StepClazy(st, c))
  {
    hide Classify, DisabledRegexes, StepClazy;
  }

  // ----- the range that is consulted -----

  predicate Covers(r: Range, line: LineNumber) {
    r.begin <= line <= r.end
  }

  /** The first listed range that covers the line, or the number of ranges. */
  function FirstCovering(ranges: seq<Range>, line: LineNumber): (f: nat)
    ensures f <= |ranges| && (f < |ranges| ==> Covers(ranges[f], line))
    ensures forall k :: 0 <= k < f ==> !Covers(ranges[k], line)
  {
    if ranges == [] || Covers(ranges[0], line) then 0
    else
      var f := 1 + FirstCovering(ranges[1..], line);
      assert forall k :: 1 <= k < f ==> ranges[k] == ranges[1..][k - 1];
      f
  }

  /** The first listed range that covers the line suppresses the check. */
  predicate SuppressedByRange(ranges: seq<Range>, check: string, line: LineNumber) {
    var f := FirstCovering(ranges, line);
    f < |ranges| && (ranges[f].regexes == [] || AnyMatches(ranges[f].regexes, check))
  }

  predicate IsRangeComment(c: Comment) {
    Classify(c).Begin? || Classify(c).End?
  }

  /** Comments come in the order of their lines, and no line holds two range comments. */
  ghost predicate OneRangeCommentPerLine(comments: seq<Comment>) {
    && (forall i, j :: 0 <= i < j < |comments| ==> comments[i].line <= comments[j].line)
    && (forall i, j :: 0 <= i < j < |comments| && IsRangeComment(comments[i]) && IsRangeComment(comments[j]) ==>
          comments[i].line != comments[j].line)
  }

  /** The range consulted for a line lies strictly inside every other range that covers it. */
  lemma InnermostIsConsulted(comments: seq<Comment>, line: LineNumber, j: nat)
    requires OneRangeCommentPerLine(comments)
    requires var ranges := Parsed(comments).ranges;
      j < |ranges| && Covers(ranges[j], line) && j != FirstCovering(ranges, line)
    ensures var ranges := Parsed(comments).ranges;
      var f := FirstCovering(ranges, line);
      f < |ranges| && ranges[j].begin < ranges[f].begin && ranges[f].end < ranges[j].end
  {
    hide Classify, DisabledRegexes, Run;
    var st := Run(comments, |comments|);
    RunIsWellNested(comments, |comments|);
    var ranges := st.supp.ranges;
    var f := FirstCovering(ranges, line);
    assert f < j;
    var p, q := st.pairs[f], st.pairs[j];
    assert Later(p, q) && IsPair(comments, p) && IsPair(comments, q);
    assert ranges[f] == RangeOf(comments, p) && ranges[j] == RangeOf(comments, q);
    assert IsRangeComment(comments[p.0]) && IsRangeComment(comments[p.1]);
    assert IsRangeComment(comments[q.0]) && IsRangeComment(comments[q.1]);
    assert q.0 < p.0;
  }

  /** No begin comment and no end comment belongs to two ranges. */
  lemma OneRangePerComment(comments: seq<Comment>, i: nat, j: nat)
    requires i < j < |Run(comments, |comments|).pairs|
    ensures var pairs := Run(comments, |comments|).pairs;
      pairs[i].0 != pairs[j].0 && pairs[i].1 < pairs[j].1 && pairs[i].0 != pairs[j].1 && pairs[i].1 != pairs[j].0
  {
    hide Classify, DisabledRegexes, Run;
    RunIsWellNested(comments, |comments|);
    var pairs := Run(comments, |comments|).pairs;
    assert Later(pairs[i], pairs[j]) && IsPair(comments, pairs[i]) && IsPair(comments, pairs[j]);
  }
}
