/** What the comments of a file leave behind for the whole file and for a line. */
module SuppressionLines {
  import opened TextUtils
  import opened Glob
  import opened Suppression

  // ----- clazy:skip -----

  predicate SaysSkip(c: Comment) {
    Find(c.text, "clazy:skip", 0) != -1
  }

  lemma SkipIsClazy(c: Comment)
    requires SaysSkip(c)
    ensures Find(c.text, "clazy:", 0) != -1
  {
    var i := Find(c.text, "clazy:skip", 0);
    assert At(c.text, "clazy:skip", i);
    assert c.text[i..i + 6] == c.text[i..i + 10][..6] == "clazy:";
    assert At(c.text, "clazy:", i);
  }

  /** One comment with `clazy:skip` skips the file and ends the parse, and nothing else does. */
  lemma {:induction false} SkipIsFound(comments: seq<Comment>, n: nat)
    requires n <= |comments|
    ensures Run(comments, n).stopped <==> Run(comments, n).supp.skipEntireFile
    ensures Run(comments, n).supp.skipEntireFile <==> exists i :: 0 <= i < n && SaysSkip(comments[i])
    decreases n
  {
    if n > 0 {
      hide StepNolint, StepClazy, SaysSkip, Run, Find;
      var st, now := Run(comments, n - 1), Run(comments, n);
      var skip := SaysSkip(comments[n - 1]);
      SkipIsFound(comments, n - 1);
      RunOnSkip(comments, n);
      if now.supp.skipEntireFile && !skip {
        var i :| 0 <= i < n - 1 && SaysSkip(comments[i]);
        assert SaysSkip(comments[i]);
      }
    }
  }

  lemma RunOnSkip(comments: seq<Comment>, n: nat)
    requires 0 < n <= |comments|
    ensures var st, now, skip := Run(comments, n - 1), Run(comments, n), SaysSkip(comments[n - 1]);
      if st.stopped then now == st
      else now.stopped == skip && now.supp.skipEntireFile == (st.supp.skipEntireFile || skip)
  {
    hide StepNolint, StepClazy, SaysSkip;
    var st := Run(comments, n - 1);
    if !st.stopped {
      StopOnlyInClazy(st, comments, n - 1);
      StepOnSkip(StepNolint(st, comments, n - 1), comments[n - 1]);
    }
  }

  lemma StepOnSkip(st: ParseState, c: Comment)
    ensures StepClazy(st, c).stopped == (st.stopped || SaysSkip(c))
    ensures StepClazy(st, c).supp.skipEntireFile == (st.supp.skipEntireFile || SaysSkip(c))
  {
    hide Find, Split;
    if SaysSkip(c) {
      SkipIsClazy(c);
    }
  }

  lemma StopOnlyInClazy(st: ParseState, comments: seq<Comment>, i: nat)
    requires i < |comments| && forall k :: 0 <= k < |st.stack| ==> st.stack[k] < i
    ensures StepNolint(st, comments, i).stopped == st.stopped
    ensures StepNolint(st, comments, i).supp.skipEntireFile == st.supp.skipEntireFile
  {
    hide Classify;
  }

  // ----- lists for a line -----

  /** The first item that starts with `clazy-`, or the number of items. */
  function FirstClazy(items: seq<string>): (f: nat)
    ensures f <= |items| && (f < |items| ==> CLAZY <= items[f])
    ensures forall j :: 0 <= j < f ==> !(CLAZY <= items[j])
  {
    if items == [] || CLAZY <= items[0] then 0
    else
      var f := 1 + FirstClazy(items[1..]);
      assert forall j :: 1 <= j < f ==> items[j] == items[1..][j - 1];
      f
  }

  /** The list has an item that counts. */
  predicate HasItem(checks: string) {
    FirstClazy(Split(checks, ',')) < |Split(checks, ',')|
  }

  /** The glob of the first item that counts. */
  function FirstGlob(checks: string): string
    requires HasItem(checks)
  {
    RTrim(Split(checks, ',')[FirstClazy(Split(checks, ','))][6..])
  }

  lemma {:induction false} FirstOfGlobs(items: seq<string>)
    ensures GlobsOf(items) != [] <==> FirstClazy(items) < |items|
    ensures FirstClazy(items) < |items| ==> GlobsOf(items)[0] == RTrim(items[FirstClazy(items)][6..])
    decreases |items|
  {
    hide RTrim;
    if items != [] {
      FirstOfGlobs(items[1..]);
    }
  }

  /** The expressions of a list start with the one of its first item. */
  lemma FirstOfRegexes(checks: string)
    ensures DisabledRegexes(checks) != [] <==> HasItem(checks)
    ensures HasItem(checks) ==> DisabledRegexes(checks)[0] == RegexText(FirstGlob(checks))
  {
    hide RTrim, RegexText;
    FirstOfGlobs(Split(checks, ','));
  }

  lemma NothingListed()
    ensures !HasItem("")
  {
  }

  /** The comment is a NOLINT or NOLINTNEXTLINE for the line, with a list that has an item that counts. */
  predicate ListsFor(c: Comment, line: LineNumber) {
    var n := Classify(c);
    n.Line? && n.line == line && HasItem(n.checks)
  }

  /** The glob that counts of such a list. */
  function GlobFor(c: Comment, line: LineNumber): string
    requires ListsFor(c, line)
  {
    FirstGlob(Classify(c).checks)
  }

  /** The comment is a NOLINT or NOLINTNEXTLINE for the line, without a list. */
  predicate IsBareFor(c: Comment, line: LineNumber) {
    Classify(c) == Line(line, "")
  }

  /** The first comment with a list for the line. */
  ghost predicate FirstListing(comments: seq<Comment>, i: nat, line: LineNumber) {
    i < |comments| && ListsFor(comments[i], line) && forall j :: 0 <= j < i ==> !ListsFor(comments[j], line)
  }

  /** What one comment does to a line's entries. */
  lemma StepLine(st: ParseState, comments: seq<Comment>, i: nat, line: LineNumber)
    requires i < |comments| && forall k :: 0 <= k < |st.stack| ==> st.stack[k] < i
    ensures var w, now := st.supp.wildcardsByLine, StepNolint(st, comments, i).supp.wildcardsByLine;
      && (line in now <==> line in w || ListsFor(comments[i], line))
      && (line in w ==> now[line] == w[line])
      && (line !in w && ListsFor(comments[i], line) ==> now[line] == RegexText(GlobFor(comments[i], line)))
    ensures line in StepNolint(st, comments, i).supp.skipNextLine <==>
      line in st.supp.skipNextLine || IsBareFor(comments[i], line)
  {
    hide Classify, DisabledRegexes, HasItem, FirstGlob, RegexText;
    var n := Classify(comments[i]);
    if n.Line? {
      FirstOfRegexes(n.checks);
      NothingListed();
    }
  }

  /** The clazy part of a comment leaves them alone. */
  lemma ClazyKeepsLines(st: ParseState, c: Comment)
    ensures StepClazy(st, c).supp.wildcardsByLine == st.supp.wildcardsByLine
    ensures StepClazy(st, c).supp.skipNextLine == st.supp.skipNextLine
  {
    hide Find, Split;
  }

  lemma RunLine(comments: seq<Comment>, n: nat, line: LineNumber)
    requires 0 < n <= |comments| && !Run(comments, n).stopped
    ensures !Run(comments, n - 1).stopped
    ensures var w, now := Run(comments, n - 1).supp.wildcardsByLine, Run(comments, n).supp.wildcardsByLine;
      && (line in now <==> line in w || ListsFor(comments[n - 1], line))
      && (line in w ==> now[line] == w[line])
      && (line !in w && ListsFor(comments[n - 1], line) ==> now[line] == RegexText(GlobFor(comments[n - 1], line)))
    ensures line in Run(comments, n).supp.skipNextLine <==>
      line in Run(comments, n - 1).supp.skipNextLine || IsBareFor(comments[n - 1], line)
  {
    hide StepNolint, StepClazy, Classify, ListsFor, IsBareFor, RegexText, GlobFor;
    StepLine(Run(comments, n - 1), comments, n - 1, line);
    ClazyKeepsLines(StepNolint(Run(comments, n - 1), comments, n - 1), comments[n - 1]);
  }

  /**
   * A line has an entry exactly if some comment lists checks for it, and the entry is the first item of the first such
   * comment.
   */
  lemma {:induction false} EntryIsFirst(comments: seq<Comment>, n: nat, line: LineNumber)
    requires n <= |comments| && !Run(comments, n).stopped
    ensures line in Run(comments, n).supp.wildcardsByLine <==> exists i :: 0 <= i < n && ListsFor(comments[i], line)
    ensures forall i :: 0 <= i < n && FirstListing(comments, i, line) ==>
      Run(comments, n).supp.wildcardsByLine[line] == RegexText(GlobFor(comments[i], line))
    decreases n
  {
    hide ListsFor, Classify, RegexText, GlobFor, HasItem;
    if n == 0 {
      NothingYet(comments);
    } else {
      hide Run;
      RunLine(comments, n, line);
      EntryIsFirst(comments, n - 1, line);
      var w := Run(comments, n - 1).supp.wildcardsByLine;
      forall i | 0 <= i < n && FirstListing(comments, i, line)
        ensures Run(comments, n).supp.wildcardsByLine[line] == RegexText(GlobFor(comments[i], line))
      {
        if i == n - 1 {
          assert line !in w;
        } else {
          assert w[line] == RegexText(GlobFor(comments[i], line));
        }
      }
    }
  }

  lemma NothingYet(comments: seq<Comment>)
    ensures Run(comments, 0) == ParseState(NO_SUPPRESSIONS, [], [], false)
  {
  }

  /** A line is in the set of bare NOLINT lines exactly if some comment without a list is for it. */
  lemma {:induction false} BareIsFound(comments: seq<Comment>, n: nat, line: LineNumber)
    requires n <= |comments| && !Run(comments, n).stopped
    ensures line in Run(comments, n).supp.skipNextLine <==> exists i :: 0 <= i < n && IsBareFor(comments[i], line)
    decreases n
  {
    hide IsBareFor, Classify, RegexText, GlobFor, ListsFor;
    if n == 0 {
      NothingYet(comments);
    } else {
      hide Run;
      RunLine(comments, n, line);
      BareIsFound(comments, n - 1, line);
    }
  }

  /** If some comment lists checks for the line, one is the first to do so. */
  lemma {:induction false} SomeListingIsFirst(comments: seq<Comment>, i: nat, line: LineNumber) returns (f: nat)
    requires i < |comments| && ListsFor(comments[i], line)
    ensures f <= i && FirstListing(comments, f, line)
    decreases i
  {
    hide ListsFor;
    f := i;
    if j :| 0 <= j < i && ListsFor(comments[j], line) {
      f := SomeListingIsFirst(comments, j, line);
    }
  }

  // ----- clazy:exclude -----

  predicate MentionsClazy(c: Comment) {
    Find(c.text, "clazy:", 0) != -1
  }

  /** The comment excludes the check in its whole file. */
  predicate ExcludesInFile(c: Comment, check: string) {
    MentionsClazy(c) && c.directive.ExcludeAll? && check in Split(c.directive.checks, ',')
  }

  /** The comment excludes the check on the line: its own line or the next one. */
  predicate ExcludesOn(c: Comment, line: LineNumber, check: string) {
    && MentionsClazy(c)
    && ((c.directive.Exclude? && c.line == line) || (c.directive.ExcludeNextLine? && c.line + 1 == line))
    && check in Split(c.directive.checks, ',')
  }

  lemma StepExclusions(st: ParseState, c: Comment, line: LineNumber, check: string)
    requires !StepClazy(st, c).stopped
    ensures check in StepClazy(st, c).supp.checksToSkip <==> check in st.supp.checksToSkip || ExcludesInFile(c, check)
    ensures (line, check) in StepClazy(st, c).supp.checksToSkipByLine <==>
      (line, check) in st.supp.checksToSkipByLine || ExcludesOn(c, line, check)
  {
    hide Find, Split;
  }

  lemma NolintKeepsExclusions(st: ParseState, comments: seq<Comment>, i: nat)
    requires i < |comments| && forall k :: 0 <= k < |st.stack| ==> st.stack[k] < i
    ensures var supp := StepNolint(st, comments, i).supp;
      supp.checksToSkip == st.supp.checksToSkip && supp.checksToSkipByLine == st.supp.checksToSkipByLine
  {
    hide Classify, DisabledRegexes;
  }

  lemma RunExclusions(comments: seq<Comment>, n: nat, line: LineNumber, check: string)
    requires 0 < n <= |comments| && !Run(comments, n).stopped
    ensures var before, now, c := Run(comments, n - 1), Run(comments, n), comments[n - 1];
      && !before.stopped
      && (check in now.supp.checksToSkip <==> check in before.supp.checksToSkip || ExcludesInFile(c, check))
      && ((line, check) in now.supp.checksToSkipByLine <==>
          (line, check) in before.supp.checksToSkipByLine || ExcludesOn(c, line, check))
  {
    hide StepNolint, StepClazy, ExcludesInFile, ExcludesOn;
    var st := Run(comments, n - 1);
    NolintKeepsExclusions(st, comments, n - 1);
    StepExclusions(StepNolint(st, comments, n - 1), comments[n - 1], line, check);
  }

  /** A check is excluded from the file exactly if some comment excludes it there. */
  lemma {:induction false} FileExclusionsAreFound(comments: seq<Comment>, n: nat, check: string)
    requires n <= |comments| && !Run(comments, n).stopped
    ensures check in Run(comments, n).supp.checksToSkip <==>
      exists i :: 0 <= i < n && ExcludesInFile(comments[i], check)
    decreases n
  {
    hide ExcludesInFile, ExcludesOn;
    if n == 0 {
      NothingYet(comments);
    } else {
      hide Run;
      RunExclusions(comments, n, 0, check);
      FileExclusionsAreFound(comments, n - 1, check);
    }
  }

  /** A check is excluded from a line exactly if some comment excludes it there. */
  lemma {:induction false} LineExclusionsAreFound(comments: seq<Comment>, n: nat, line: LineNumber, check: string)
    requires n <= |comments| && !Run(comments, n).stopped
    ensures (line, check) in Run(comments, n).supp.checksToSkipByLine <==>
      exists i :: 0 <= i < n && ExcludesOn(comments[i], line, check)
    decreases n
  {
    hide ExcludesInFile, ExcludesOn;
    if n == 0 {
      NothingYet(comments);
    } else {
      hide Run;
      RunExclusions(comments, n, line, check);
      LineExclusionsAreFound(comments, n - 1, line, check);
    }
  }
}
