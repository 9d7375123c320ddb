/** Which NOLINTBEGIN and NOLINTEND comments belong together, and what the list of a range suppresses. */
module SuppressionMatching {
  import opened TextUtils
  import opened Suppression
  import opened SuppressionRanges
  import opened SuppressionLines

  predicate IsBegin(c: Comment) {
    Classify(c).Begin?
  }

  /** A begin and an end comment with equal lists. */
  predicate IsMatch(b: Comment, e: Comment) {
    Classify(b).Begin? && Classify(e) == End(Classify(b).checks)
  }

  /** The end comment `e` closes the open begin comments' last one. */
  predicate Closes(comments: seq<Comment>, st: ParseState, e: nat) {
    && e < |comments| && Classify(comments[e]).End?
    && st.stack != [] && st.stack[|st.stack| - 1] < |comments|
    && Classify(comments[st.stack[|st.stack| - 1]]) == Begin(Classify(comments[e]).checks)
  }

  /** The open comments and the pairs after one more comment. */
  lemma RunStep(comments: seq<Comment>, e: nat)
    requires e < |comments| && !Run(comments, e + 1).stopped
    ensures var st, now := Run(comments, e), Run(comments, e + 1);
      && !st.stopped
      && now.pairs == (if Closes(comments, st, e) then st.pairs + [(st.stack[|st.stack| - 1], e)] else st.pairs)
      && now.stack == (if IsBegin(comments[e]) then st.stack + [e]
                       else if Closes(comments, st, e) then st.stack[..|st.stack| - 1] else st.stack)
  {
    hide Classify, DisabledRegexes, AddWildcards, StepClazy;
  }

  lemma {:induction false} NotStopped(comments: seq<Comment>, m: nat, n: nat)
    requires m <= n <= |comments| && !Run(comments, n).stopped
    ensures !Run(comments, m).stopped
    decreases n
  {
    hide Run, Closes, IsBegin;
    if m < n {
      RunStep(comments, n - 1);
      NotStopped(comments, m, n - 1);
    }
  }

  // ----- open comments -----

  predicate NeverFirst(pairs: seq<(nat, nat)>, k: nat) {
    forall i :: 0 <= i < |pairs| ==> pairs[i].0 != k
  }

  lemma NeverFirstStep(pairs: seq<(nat, nat)>, p: (nat, nat), k: nat)
    ensures NeverFirst(pairs + [p], k) <==> NeverFirst(pairs, k) && p.0 != k
  {
    assert (pairs + [p])[|pairs|] == p;
    assert forall i :: 0 <= i < |pairs| ==> (pairs + [p])[i] == pairs[i];
  }

  /** The open comments are the begin comments that no pair starts with. */
  lemma {:induction false} OpenExactly(comments: seq<Comment>, n: nat, k: nat)
    requires n <= |comments| && !Run(comments, n).stopped
    ensures k in Run(comments, n).stack <==> k < n && IsBegin(comments[k]) && NeverFirst(Run(comments, n).pairs, k)
    decreases n
  {
    hide Run, IsBegin, Closes, NeverFirst;
    if n == 0 {
      NothingYet(comments);
    } else {
      var st := Run(comments, n - 1);
      RunStep(comments, n - 1);
      OpenExactly(comments, n - 1, k);
      if k == n - 1 {
        NotYetFirst(comments, k);
      }
      if Closes(comments, st, n - 1) {
        EndIsNoBegin(comments, st, n - 1);
        var top := st.stack[|st.stack| - 1];
        NeverFirstStep(st.pairs, (top, n - 1), k);
        LastOnce(comments, n - 1, k);
      }
    }
  }

  lemma EndIsNoBegin(comments: seq<Comment>, st: ParseState, e: nat)
    requires Closes(comments, st, e)
    ensures st.stack != [] && !IsBegin(comments[e])
  {
    hide Classify;
  }

  lemma NotYetFirst(comments: seq<Comment>, n: nat)
    requires n < |comments|
    ensures NeverFirst(Run(comments, n).pairs, n)
  {
    hide Run, Classify, RangeOf;
    RunIsWellNested(comments, n);
  }

  /** The last open comment is open once. */
  lemma LastOnce(comments: seq<Comment>, n: nat, k: nat)
    requires n <= |comments| && Run(comments, n).stack != []
    ensures var stack := Run(comments, n).stack;
      var last := |stack| - 1;
      k in stack[..last] <==> k in stack && k != stack[last]
  {
    hide Run, Classify, RangeOf;
    RunIsWellNested(comments, n);
    var stack := Run(comments, n).stack;
    assert stack == stack[..|stack| - 1] + [stack[|stack| - 1]];
    assert forall i :: 0 <= i < |stack| - 1 ==> stack[i] < stack[|stack| - 1];
  }

  // ----- pairs -----

  /** Pairs are added at the end, each when its end comment is read. */
  lemma {:induction false} PairsGrow(comments: seq<Comment>, m: nat, n: nat)
    requires m <= n <= |comments| && !Run(comments, n).stopped
    ensures var before, pairs := Run(comments, m).pairs, Run(comments, n).pairs;
      before <= pairs && forall i :: |before| <= i < |pairs| ==> pairs[i].1 >= m
    decreases n
  {
    hide Run, Closes, IsBegin;
    if m < n {
      RunStep(comments, n - 1);
      PairsGrow(comments, m, n - 1);
    }
  }

  lemma EndsBefore(comments: seq<Comment>, n: nat)
    requires n <= |comments|
    ensures forall p :: p in Run(comments, n).pairs ==> p.1 < n
    ensures var stack := Run(comments, n).stack; forall i, j :: 0 <= i < j < |stack| ==> stack[i] < stack[j]
  {
    hide Run, Classify, RangeOf;
    RunIsWellNested(comments, n);
  }

  /** No pair that ends before `e` starts with `k`. */
  predicate OpenAt(pairs: seq<(nat, nat)>, k: nat, e: nat) {
    forall i :: 0 <= i < |pairs| && pairs[i].0 == k ==> pairs[i].1 >= e
  }

  lemma OpenAtMeansOpen(comments: seq<Comment>, n: nat, k: nat, e: nat)
    requires e <= n <= |comments| && !Run(comments, n).stopped
    ensures OpenAt(Run(comments, n).pairs, k, e) <==> NeverFirst(Run(comments, e).pairs, k)
  {
    hide Run;
    var before, pairs := Run(comments, e).pairs, Run(comments, n).pairs;
    PairsGrow(comments, e, n);
    EndsBefore(comments, e);
    forall i | 0 <= i < |before| ensures pairs[i] == before[i] && before[i].1 < e {
      assert before[i] in before;
    }
  }

  /** A pair is found exactly when its end comment closes its begin comment. */
  lemma PairMeansCloses(comments: seq<Comment>, n: nat, b: nat, e: nat)
    requires e < n <= |comments| && !Run(comments, n).stopped
    ensures var st := Run(comments, e);
      (b, e) in Run(comments, n).pairs <==> Closes(comments, st, e) && st.stack[|st.stack| - 1] == b
  {
    hide Run, Closes, IsBegin;
    var st, now := Run(comments, e), Run(comments, e + 1);
    NotStopped(comments, e + 1, n);
    RunStep(comments, e);
    EndsBefore(comments, e);
    PairsGrow(comments, e + 1, n);
    assert (b, e) in Run(comments, n).pairs <==> (b, e) in now.pairs;
    assert (b, e) !in st.pairs;
  }

  /**
   * Which pairs are found, after any comments without `clazy:skip`: an end comment is paired with a begin comment
   * exactly if their lists are equal, the begin comment has not been closed before, and all begin comments between
   * them have.
   */
  lemma MatchedExactly(comments: seq<Comment>, n: nat, b: nat, e: nat)
    requires e < n <= |comments| && !Run(comments, n).stopped
    ensures var pairs := Run(comments, n).pairs;
      (b, e) in pairs <==>
      && b < e && IsMatch(comments[b], comments[e])
      && OpenAt(pairs, b, e) && forall k :: b < k < e && IsBegin(comments[k]) ==> !OpenAt(pairs, k, e)
  {
    hide Run, Classify, OpenAt, NeverFirst;
    var st, pairs := Run(comments, e), Run(comments, n).pairs;
    NotStopped(comments, e, n);
    EndsBefore(comments, e);
    PairMeansCloses(comments, n, b, e);
    forall k: nat ensures k in st.stack <==> k < e && IsBegin(comments[k]) && OpenAt(pairs, k, e) {
      OpenExactly(comments, e, k);
      OpenAtMeansOpen(comments, n, k, e);
    }
    LastIsGreatest(st.stack, b);
  }

  /** In an increasing list the last element is the one that no greater one follows. */
  lemma LastIsGreatest(stack: seq<nat>, b: nat)
    requires forall i, j :: 0 <= i < j < |stack| ==> stack[i] < stack[j]
    ensures (stack != [] && stack[|stack| - 1] == b) <==> b in stack && forall k :: k in stack ==> k <= b
  {
    if stack != [] {
      assert stack[|stack| - 1] in stack;
    }
  }

  // ----- properly nested comments -----

  /** How a run of comments is nested: nothing, a comment that is no range comment, or a begin comment with its end. */
  datatype Nest = Nothing | Other(rest: Nest) | Enclosed(inner: Nest, rest: Nest)

  function Length(nest: Nest): nat {
    match nest
    case Nothing => 0
    case Other(rest) => 1 + Length(rest)
    case Enclosed(inner, rest) => 2 + Length(inner) + Length(rest)
  }

  /** The comments from `i` on are nested like this, and each begin comment's list is that of its end. */
  predicate Spans(comments: seq<Comment>, i: nat, nest: Nest)
    decreases nest
  {
    match nest
    case Nothing => i <= |comments|
    case Other(rest) => i < |comments| && !IsRangeComment(comments[i]) && Spans(comments, i + 1, rest)
    case Enclosed(inner, rest) =>
      var m := i + 1 + Length(inner);
      && m < |comments| && IsMatch(comments[i], comments[m])
      && Spans(comments, i + 1, inner) && Spans(comments, m + 1, rest)
  }

  /** Every begin comment with its end, inner pairs first. */
  function PairsOf(i: nat, nest: Nest): seq<(nat, nat)>
    decreases nest
  {
    match nest
    case Nothing => []
    case Other(rest) => PairsOf(i + 1, rest)
    case Enclosed(inner, rest) =>
      var m := i + 1 + Length(inner);
      PairsOf(i + 1, inner) + [(i, m)] + PairsOf(m + 1, rest)
  }

  lemma {:induction false} SpansWithin(comments: seq<Comment>, i: nat, nest: Nest)
    requires Spans(comments, i, nest)
    ensures i + Length(nest) <= |comments|
    decreases nest
  {
    hide Classify;
    match nest
    case Nothing =>
    case Other(rest) => SpansWithin(comments, i + 1, rest);
    case Enclosed(inner, rest) => SpansWithin(comments, i + 2 + Length(inner), rest);
  }

  lemma OpensAndCloses(comments: seq<Comment>, i: nat)
    requires i < |comments| && !Run(comments, i + 1).stopped
    ensures var st, now := Run(comments, i), Run(comments, i + 1);
      && (!IsRangeComment(comments[i]) ==> now.stack == st.stack && now.pairs == st.pairs)
      && (IsBegin(comments[i]) ==> now.stack == st.stack + [i] && now.pairs == st.pairs)
  {
    hide Run, Classify;
    RunStep(comments, i);
  }

  lemma ClosesTop(comments: seq<Comment>, b: nat, e: nat, below: seq<nat>)
    requires b < |comments| && e < |comments| && !Run(comments, e + 1).stopped
    requires Run(comments, e).stack == below + [b]
    requires IsMatch(comments[b], comments[e])
    ensures Run(comments, e + 1).stack == below && Run(comments, e + 1).pairs == Run(comments, e).pairs + [(b, e)]
  {
    hide Run, Classify;
    RunStep(comments, e);
  }

  lemma OtherParts(comments: seq<Comment>, i: nat, rest: Nest)
    requires Spans(comments, i, Other(rest))
    ensures i < |comments| && !IsRangeComment(comments[i]) && Spans(comments, i + 1, rest)
    ensures Length(Other(rest)) == 1 + Length(rest) && PairsOf(i, Other(rest)) == PairsOf(i + 1, rest)
  {
    hide IsRangeComment, IsMatch;
  }

  lemma EnclosedParts(comments: seq<Comment>, i: nat, inner: Nest, rest: Nest)
    requires Spans(comments, i, Enclosed(inner, rest))
    ensures var m := i + 1 + Length(inner);
      && m < |comments| && IsMatch(comments[i], comments[m])
      && Spans(comments, i + 1, inner) && Spans(comments, m + 1, rest)
  {
    hide IsRangeComment, IsMatch, Length;
  }

  lemma EnclosedPairs(i: nat, inner: Nest, rest: Nest)
    ensures var m := i + 1 + Length(inner);
      PairsOf(i, Enclosed(inner, rest)) == PairsOf(i + 1, inner) + [(i, m)] + PairsOf(m + 1, rest)
  {
    hide Length;
  }

  lemma EnclosedLength(inner: Nest, rest: Nest)
    ensures Length(Enclosed(inner, rest)) == 2 + Length(inner) + Length(rest)
  {
  }

  lemma NothingParts(i: nat)
    ensures Length(Nothing) == 0 && PairsOf(i, Nothing) == []
  {
  }

  /** In properly nested comments every begin comment gets its end, whatever was open before. */
  lemma {:induction false} NestedAreMatched(comments: seq<Comment>, i: nat, nest: Nest)
    requires Spans(comments, i, nest)
    requires i + Length(nest) <= |comments| && !Run(comments, i + Length(nest)).stopped
    ensures Run(comments, i + Length(nest)).stack == Run(comments, i).stack
    ensures Run(comments, i + Length(nest)).pairs == Run(comments, i).pairs + PairsOf(i, nest)
    decreases nest
  {
    hide *;
    var j := i + Length(nest);
    match nest
    case Nothing =>
      NothingParts(i);
      assert Run(comments, i).pairs + [] == Run(comments, i).pairs;
    case Other(rest) =>
      OtherParts(comments, i, rest);
      NotStopped(comments, i + 1, j);
      OpensAndCloses(comments, i);
      NestedAreMatched(comments, i + 1, rest);
    case Enclosed(inner, rest) =>
      EnclosedParts(comments, i, inner, rest);
      EnclosedPairs(i, inner, rest);
      EnclosedLength(inner, rest);
      var m := i + 1 + Length(inner);
      NotStopped(comments, m, j);
      NotStopped(comments, m + 1, j);
      NestedAreMatched(comments, i + 1, inner);
      EnclosedIsMatched(comments, i, m, PairsOf(i + 1, inner));
      NestedAreMatched(comments, m + 1, rest);
      PairsAssoc(Run(comments, i).pairs, PairsOf(i + 1, inner), [(i, m)], PairsOf(m + 1, rest));
  }

  /** A begin comment, a part that leaves it open and adds its own pairs, and the end comment. */
  lemma EnclosedIsMatched(comments: seq<Comment>, i: nat, m: nat, inner: seq<(nat, nat)>)
    requires i < m < |comments| && !Run(comments, m + 1).stopped && IsMatch(comments[i], comments[m])
    requires Run(comments, m).stack == Run(comments, i + 1).stack
    requires Run(comments, m).pairs == Run(comments, i + 1).pairs + inner
    ensures Run(comments, m + 1).stack == Run(comments, i).stack
    ensures Run(comments, m + 1).pairs == Run(comments, i).pairs + inner + [(i, m)]
  {
    hide Run, Classify;
    NotStopped(comments, i + 1, m + 1);
    OpensAndCloses(comments, i);
    ClosesTop(comments, i, m, Run(comments, i).stack);
  }

  lemma PairsAssoc(a: seq<(nat, nat)>, b: seq<(nat, nat)>, c: seq<(nat, nat)>, d: seq<(nat, nat)>)
    ensures a + b + c + d == a + (b + c + d)
  {
  }

  // ----- the list of a range -----

  /** A range suppresses a check if its list has no item for clazy at all, or one that disables the check. */
  predicate ListSilences(checks: string, check: string) {
    !HasItem(checks) || AnyItemDisables(Split(checks, ','), check)
  }

  lemma RegexesSilence(checks: string, check: string)
    ensures DisabledRegexes(checks) == [] || AnyMatches(DisabledRegexes(checks), check) <==> ListSilences(checks, check)
  {
    hide HasItem, AnyItemDisables, AnyMatches, DisabledRegexes, Split;
    FirstOfRegexes(checks);
    ListSuppresses(checks, check);
  }

  predicate PairCovers(comments: seq<Comment>, p: (nat, nat), line: LineNumber) {
    p.0 < |comments| && p.1 < |comments| && comments[p.0].line <= line <= comments[p.1].line
  }

  /** `p` is the pair consulted for the line: the first of all pairs, in the order found, that covers it. */
  ghost predicate IsConsulted(comments: seq<Comment>, p: (nat, nat), line: LineNumber) {
    var pairs := Run(comments, |comments|).pairs;
    exists f :: 0 <= f < |pairs| && pairs[f] == p && PairCovers(comments, p, line)
      && forall k :: 0 <= k < f ==> !PairCovers(comments, pairs[k], line)
  }

  /** The consulted pair's list suppresses the check. */
  ghost predicate SuppressedByPair(comments: seq<Comment>, check: string, line: LineNumber) {
    exists p: (nat, nat) :: IsConsulted(comments, p, line) && Classify(comments[p.0]).Begin?
      && ListSilences(Classify(comments[p.0]).checks, check)
  }

  lemma RangesOfPairs(comments: seq<Comment>)
    ensures var st := Run(comments, |comments|);
      |st.supp.ranges| == |st.pairs| &&
      forall k :: 0 <= k < |st.pairs| ==>
        IsPair(comments, st.pairs[k]) && st.supp.ranges[k] == RangeOf(comments, st.pairs[k])
  {
    hide Run, Classify, RangeOf;
    RunIsWellNested(comments, |comments|);
  }

  /** At most one pair is consulted. */
  lemma ConsultedOnce(comments: seq<Comment>, f: nat, p: (nat, nat), line: LineNumber)
    requires f < |Run(comments, |comments|).pairs| && IsConsulted(comments, p, line)
    requires PairCovers(comments, Run(comments, |comments|).pairs[f], line)
    requires forall k :: 0 <= k < f ==> !PairCovers(comments, Run(comments, |comments|).pairs[k], line)
    ensures p == Run(comments, |comments|).pairs[f]
  {
    hide Run, PairCovers;
    var pairs := Run(comments, |comments|).pairs;
    var g :| 0 <= g < |pairs| && pairs[g] == p && PairCovers(comments, p, line)
             && forall k :: 0 <= k < g ==> !PairCovers(comments, pairs[k], line);
    assert f == g;
  }

  /** The range lookup, from the begin and end comments. */
  lemma RangeDecides(comments: seq<Comment>, check: string, line: LineNumber)
    ensures SuppressedByRange(Parsed(comments).ranges, check, line) <==> SuppressedByPair(comments, check, line)
  {
    hide Run, Classify, DisabledRegexes, AnyMatches, ListSilences;
    RangesOfPairs(comments);
    var st := Run(comments, |comments|);
    var ranges, pairs := st.supp.ranges, st.pairs;
    var f := FirstCovering(ranges, line);
    forall k | 0 <= k < |pairs| ensures Covers(ranges[k], line) <==> PairCovers(comments, pairs[k], line) {
      assert ranges[k] == RangeOf(comments, pairs[k]);
    }
    if f < |ranges| {
      var p := pairs[f];
      assert PairCovers(comments, p, line) && IsPair(comments, p) && ranges[f] == RangeOf(comments, p);
      assert IsConsulted(comments, p, line);
      RegexesSilence(Classify(comments[p.0]).checks, check);
      forall q | IsConsulted(comments, q, line) ensures q == p {
        ConsultedOnce(comments, f, q, line);
      }
    } else {
      forall q ensures !IsConsulted(comments, q, line) {
      }
    }
  }
}
