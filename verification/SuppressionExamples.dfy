/** Comments on which NOLINT does less than it seems to say. */
module SuppressionExamples {
  import opened Options
  import opened TextUtils
  import opened Glob
  import opened Suppression
  import opened SuppressionLines
  import opened SuppressionMatching
  import opened SuppressionManagers

  lemma AtHas(s: string, pattern: string, k: nat, i: int)
    requires k < |pattern| && At(s, pattern, i)
    ensures i + k < |s| && s[i + k] == pattern[k] && pattern[k] in s
  {
    assert s[i..i + |pattern|][k] == s[i + k];
  }

  lemma DiffersAt(s: string, pattern: string, i: nat)
    requires i < |s| && pattern != "" && s[i] != pattern[0]
    ensures !At(s, pattern, i)
  {
    hide At;
    if At(s, pattern, i) {
      AtHas(s, pattern, 0, i);
    }
  }

  lemma NotFound(s: string, pattern: string, k: nat, from: nat)
    requires k < |pattern| && pattern[k] !in s
    ensures Find(s, pattern, from) == -1
  {
    hide At;
    forall i | At(s, pattern, i) ensures false {
      AtHas(s, pattern, k, i);
    }
  }

  lemma FoundAtOnce(s: string, pattern: string)
    requires pattern <= s
    ensures Find(s, pattern, 0) == 0
  {
    assert At(s, pattern, 0);
  }

  /** A comment without a colon says nothing to clazy. */
  lemma NoColon(c: Comment)
    requires ':' !in c.text
    ensures !SaysSkip(c) && !MentionsClazy(c)
  {
    hide Find;
    NotFound(c.text, "clazy:skip", 5, 0);
    NotFound(c.text, "clazy:", 5, 0);
  }

  const OPEN := Comment(1, "NOLINTBEGIN", NoDirective)
  const LIST := "clazy-a,clazy-b"
  const LISTED := Comment(2, ListText(LIST), NoDirective)
  const CLOSE := Comment(3, "NOLINTEND", NoDirective)

  lemma ClassifyOpen()
    ensures Classify(OPEN) == Begin("")
  {
    hide Find;
    FoundAtOnce(OPEN.text, "NOLINT");
    FoundAtOnce(OPEN.text, "NOLINTBEGIN");
  }

  lemma ClassifyClose()
    ensures Classify(CLOSE) == End("")
  {
    hide Find;
    FoundAtOnce(CLOSE.text, "NOLINT");
    NotFound(CLOSE.text, "NOLINTBEGIN", 6, 0);
    FoundAtOnce(CLOSE.text, "NOLINTEND");
  }

  /** A word with a list in parentheses. */
  function WithList(word: string, list: string): string {
    word + ("(" + (list + ")"))
  }

  /** NOLINT with a list in parentheses. */
  function ListText(list: string): string {
    WithList("NOLINT", list)
  }

  lemma ListIsRead(word: string, list: string)
    requires ')' !in list
    ensures ParseDisabledChecks(WithList(word, list), |word|) == list
  {
    hide At;
    var s, n := WithList(word, list), |word|;
    var end := n + 1 + |list|;
    assert s[n] == '(' && s[end] == ')' && forall j :: n < j < end ==> s[j] == list[j - n - 1];
    CloserStands(s, end);
    var e := Find(s, ")", n);
    AtHas(s, ")", 0, e);
    assert s[n + 1..end] == list;
  }

  lemma CloserStands(s: string, i: nat)
    requires i < |s| && s[i] == ')'
    ensures At(s, ")", i)
  {
  }

  lemma WithListShape(word: string, list: string, c: char)
    requires word != "" && c !in word && c !in list && c != '(' && c != ')'
    ensures word <= WithList(word, list) && c !in WithList(word, list)
    ensures |WithList(word, list)| > |word| && WithList(word, list)[|word|] == '('
  {
  }

  lemma ClassifyList(list: string, line: LineNumber, directive: Directive)
    requires ')' !in list && 'B' !in list && 'E' !in list
    ensures Classify(Comment(line, ListText(list), directive)) == Line(line, list)
  {
    hide Find, ParseDisabledChecks, WithList, At;
    var s := ListText(list);
    WithListShape("NOLINT", list, 'B');
    WithListShape("NOLINT", list, 'E');
    FoundAtOnce(s, "NOLINT");
    NotFound(s, "NOLINTBEGIN", 6, 0);
    NotFound(s, "NOLINTEND", 6, 0);
    DiffersAt(s, "NEXTLINE", 6);
    ListIsRead("NOLINT", list);
  }

  lemma ClassifyBegin(list: string, line: LineNumber)
    requires ')' !in list && 'Z' !in list
    ensures Classify(Comment(line, WithList("NOLINTBEGIN", list), NoDirective)) == Begin(list)
  {
    hide Find, ParseDisabledChecks, WithList, At;
    var s := WithList("NOLINTBEGIN", list);
    WithListShape("NOLINTBEGIN", list, 'Z');
    assert "NOLINTBEGIN"[..6] == "NOLINT" && "NOLINT" <= s;
    FoundAtOnce(s, "NOLINT");
    FoundAtOnce(s, "NOLINTBEGIN");
    ListIsRead("NOLINTBEGIN", list);
  }

  lemma ClassifyEnd(list: string, line: LineNumber)
    requires ')' !in list && 'B' !in list
    ensures Classify(Comment(line, WithList("NOLINTEND", list), NoDirective)) == End(list)
  {
    hide Find, ParseDisabledChecks, WithList, At;
    var s := WithList("NOLINTEND", list);
    WithListShape("NOLINTEND", list, 'B');
    assert "NOLINTEND"[..6] == "NOLINT" && "NOLINT" <= s;
    FoundAtOnce(s, "NOLINT");
    NotFound(s, "NOLINTBEGIN", 6, 0);
    FoundAtOnce(s, "NOLINTEND");
    ListIsRead("NOLINTEND", list);
  }

  lemma ClassifyListed()
    ensures Classify(LISTED) == Line(2, LIST)
  {
    hide Classify, ListText;
    ClassifyList(LIST, 2, NoDirective);
  }

  lemma Items()
    ensures Split(LIST, ',') == ["clazy-a", "clazy-b"]
  {
    var items := ["clazy-a", "clazy-b"];
    assert items[1..] == ["clazy-b"];
    assert Joined(items, ',') == LIST;
    JoinedSplits(items, ',');
  }

  lemma ListedForA()
    ensures ListsFor(LISTED, 2) && GlobFor(LISTED, 2) == "a"
  {
    ClassifyListed();
    Items();
    hide Split, Classify;
    var items := Split(LIST, ',');
    assert CLAZY <= items[0] && items[0][6..] == "a";
    assert FirstClazy(items) == 0;
    assert RTrim("a") == "a";
  }

  const FILE := [OPEN, LISTED, CLOSE]

  lemma ListTextHasNoColon(list: string)
    requires ':' !in list
    ensures ':' !in ListText(list)
  {
    assert forall x :: x in ListText(list) ==> x in "NOLINT()" || x in list;
  }

  lemma NothingToClazy(c: Comment)
    requires c in FILE
    ensures !SaysSkip(c) && !MentionsClazy(c)
  {
    hide SaysSkip, MentionsClazy, ListText;
    ListTextHasNoColon(LIST);
    NoColon(c);
  }

  /** A comment that says nothing to clazy leaves the ranges to its NOLINT part. */
  lemma RangesStep(comments: seq<Comment>, n: nat)
    requires n < |comments| && !Run(comments, n).stopped && !MentionsClazy(comments[n])
    ensures Run(comments, n + 1) == StepNolint(Run(comments, n), comments, n) && !Run(comments, n + 1).stopped
    ensures Run(comments, n + 1).supp.skipEntireFile == Run(comments, n).supp.skipEntireFile
  {
    hide StepNolint, Find;
    StopOnlyInClazy(Run(comments, n), comments, n);
  }

  lemma AfterOpen()
    ensures var st := Run(FILE, 1); st.stack == [0] && st.supp.ranges == [] && !st.stopped && !st.supp.skipEntireFile
  {
    hide Run, Classify, MentionsClazy;
    NothingYet(FILE);
    NothingToClazy(FILE[0]);
    RangesStep(FILE, 0);
    ClassifyOpen();
    assert [] + [0] == [0];
  }

  lemma AfterListed()
    ensures var st := Run(FILE, 2); st.stack == [0] && st.supp.ranges == [] && !st.stopped && !st.supp.skipEntireFile
  {
    hide Run, Classify, MentionsClazy, AddWildcards, DisabledRegexes;
    AfterOpen();
    NothingToClazy(FILE[1]);
    RangesStep(FILE, 1);
    ClassifyListed();
  }

  lemma RunOfFile()
    ensures Parsed(FILE).ranges == [Range([], 1, 3)] && !Parsed(FILE).skipEntireFile
  {
    hide Run, Classify, MentionsClazy, DisabledRegexes;
    AfterListed();
    NothingToClazy(FILE[2]);
    RangesStep(FILE, 2);
    ClassifyOpen();
    ClassifyClose();
    EmptyList();
  }

  lemma EmptyList()
    ensures DisabledRegexes("") == []
  {
    assert Split("", ',') == [];
  }

  /**
   * In `NOLINT(clazy-a,clazy-b)` the second item is ignored: `a` is suppressed on that line and `b` is not, not even
   * by a NOLINTBEGIN range for all checks around it.
   */
  lemma SecondItemIsIgnored()
    ensures var buffers := map[0 := FILE];
      && Answer(buffers, [], Query("a", Some(0), Some(2)))
      && !Answer(buffers, [], Query("b", Some(0), Some(2)))
      && Parsed(FILE).ranges == [Range([], 1, 3)]
    ensures AnyItemDisables(Split(LIST, ','), "b")
  {
    hide Find, Classify, Run, GlobMatches, Split, RTrim;
    RunOfFile();
    ClassifyOpen();
    ClassifyListed();
    ClassifyClose();
    ListedForA();
    assert FirstListing(FILE, 1, 2);
    PlainGlob("a", "a");
    PlainGlob("a", "b");
    NothingToClazy(OPEN);
    NothingToClazy(LISTED);
    NothingToClazy(CLOSE);
    LineListDecides(FILE, 1, "a", 2);
    LineListDecides(FILE, 1, "b", 2);
    OnLine("a");
    OnLine("b");
    ItemB();
  }

  lemma ItemB()
    ensures AnyItemDisables(Split(LIST, ','), "b")
  {
    Items();
    hide Split;
    var items := Split(LIST, ',');
    assert items[1][6..] == "b" && RTrim("b") == "b";
    PlainGlob("b", "b");
    assert ItemDisables(items[1], "b");
  }

  /** A first query for line 2 is answered by the line's list. */
  lemma OnLine(check: string)
    ensures Answer(map[0 := FILE], [], Query(check, Some(0), Some(2))) <==> SuppressedByLists(Parsed(FILE), check, 2)
  {
    hide Find, Classify, Run, Split, SuppressedByLists;
    RunOfFile();
    ClassifyOpen();
    ClassifyListed();
    ClassifyClose();
    NothingToClazy(OPEN);
    NothingToClazy(LISTED);
    NothingToClazy(CLOSE);
    SkipIsFound(FILE, 3);
    BareIsFound(FILE, 3, 2);
    FileExclusionsAreFound(FILE, 3, check);
    assert Cached(map[0 := FILE], [], 0).(skipNextLine := {}) == Parsed(FILE).(skipNextLine := {});
    ListsStay(Cached(map[0 := FILE], [], 0), Parsed(FILE), check, 2);
  }

  const BARE := Comment(1, "NOLINT", NoDirective)

  lemma ClassifyBare()
    ensures Classify(BARE) == Line(1, "")
  {
    hide Find;
    FoundAtOnce(BARE.text, "NOLINT");
    NotFound(BARE.text, "NOLINTBEGIN", 6, 0);
    NotFound(BARE.text, "NOLINTEND", 6, 0);
  }

  /** Two checks that warn on one line with a bare NOLINT: the first is suppressed, the second is not. */
  lemma SecondWarningGetsThrough()
    ensures var buffers, first, second := map[0 := [BARE]], Query("a", Some(0), Some(1)), Query("b", Some(0), Some(1));
      Answer(buffers, [], first) && !Answer(buffers, [first], second)
  {
    hide Find, Classify, Run, Consumed;
    var buffers, first, second := map[0 := [BARE]], Query("a", Some(0), Some(1)), Query("b", Some(0), Some(1));
    ClassifyBare();
    NoColon(BARE);
    SkipIsFound([BARE], 1);
    NothingListed();
    assert IsBareFor(buffers[0][0], 1);
    FileExclusionsAreFound([BARE], 1, "a");
    assert AsksAbout(buffers, [first][0], 0, 1);
    NoRanges();
    AnswerFromComments(buffers, [], first);
    AnswerFromComments(buffers, [first], second);
  }

  lemma NoRanges()
    ensures Parsed([BARE]).ranges == []
  {
    hide Find, Classify, DisabledRegexes;
    ClassifyBare();
    NoColon(BARE);
    var s0 := Run([BARE], 0);
    assert s0.supp.ranges == [];
    assert Run([BARE], 1).supp.ranges == [];
  }

  // ----- a range for other tools -----

  const OTHERS := "bugprone-x"
  const OTHERS_OPEN := Comment(1, WithList("NOLINTBEGIN", OTHERS), NoDirective)
  const OTHERS_CLOSE := Comment(3, WithList("NOLINTEND", OTHERS), NoDirective)
  const OTHERS_FILE := [OTHERS_OPEN, OTHERS_CLOSE]

  lemma NoItemForClazy()
    ensures !HasItem(OTHERS)
  {
    hide Split;
    LastToken(OTHERS, ',');
    assert OTHERS[0] == 'b' && CLAZY[0] == 'c';
  }

  lemma OthersClassified()
    ensures Classify(OTHERS_OPEN) == Begin(OTHERS) && Classify(OTHERS_CLOSE) == End(OTHERS)
    ensures !SaysSkip(OTHERS_OPEN) && !SaysSkip(OTHERS_CLOSE)
  {
    hide Classify, WithList, SaysSkip, MentionsClazy;
    ClassifyBegin(OTHERS, 1);
    ClassifyEnd(OTHERS, 3);
    WithListShape("NOLINTBEGIN", OTHERS, ':');
    WithListShape("NOLINTEND", OTHERS, ':');
    NoColon(OTHERS_OPEN);
    NoColon(OTHERS_CLOSE);
  }

  lemma OthersArePaired()
    ensures Run(OTHERS_FILE, 2).pairs == [(0, 1)]
  {
    hide Classify, WithList, SaysSkip, Run;
    OthersClassified();
    SkipIsFound(OTHERS_FILE, 2);
    var nest := Enclosed(Nothing, Nothing);
    assert Spans(OTHERS_FILE, 2, Nothing) && Spans(OTHERS_FILE, 1, Nothing);
    assert OTHERS_FILE[0] == OTHERS_OPEN && OTHERS_FILE[1] == OTHERS_CLOSE;
    assert Spans(OTHERS_FILE, 0, nest) && Length(nest) == 2 && PairsOf(0, nest) == [] + [(0, 1)] + [];
    NestedAreMatched(OTHERS_FILE, 0, nest);
    NothingYet(OTHERS_FILE);
  }

  /** A range whose list names no clazy check at all suppresses every clazy check in it. */
  lemma RangeForOthersSilencesClazy(check: string)
    ensures Answer(map[0 := OTHERS_FILE], [], Query(check, Some(0), Some(2)))
  {
    hide Classify, WithList, SaysSkip, Run, HasItem, ExcludesOn, ExcludesInFile, IsBareFor;
    OthersClassified();
    OthersArePaired();
    NoItemForClazy();
    assert Run(OTHERS_FILE, 2).pairs[0] == (0, 1);
    assert PairCovers(OTHERS_FILE, (0, 1), 2);
    assert IsConsulted(OTHERS_FILE, (0, 1), 2);
    assert ListSilences(OTHERS, check);
    assert SuppressedByPair(OTHERS_FILE, check, 2);
    forall i | 0 <= i < 2 ensures !ListsFor(OTHERS_FILE[i], 2) {
      assert OTHERS_FILE[i] == OTHERS_OPEN || OTHERS_FILE[i] == OTHERS_CLOSE;
    }
    AnswerFromComments(map[0 := OTHERS_FILE], [], Query(check, Some(0), Some(2)));
  }
}
