/** A file with one NOLINT comment, from the comment's text to the answers. */
module NextLineExamples {
  import opened Options
  import opened TextUtils
  import opened Glob
  import opened Suppression
  import opened SuppressionLines
  import opened SuppressionMatching
  import opened SuppressionManagers
  import opened SuppressionExamples
  import opened NolintTexts

  /** Without ranges and lists for the line, the comments of a file suppress nothing on it. */
  lemma NoPairs(c: Comment, check: string, line: LineNumber)
    requires Classify(c).Line? && !MentionsClazy(c)
    ensures !SuppressedByPair([c], check, line)
  {
    hide Classify, Find, DisabledRegexes, AddWildcards, StepClazy;
    RangesStep([c], 0);
    NothingYet([c]);
    assert Run([c], 1).pairs == [];
  }

  lemma ListedHere(c: Comment, check: string, line: LineNumber)
    requires !SaysSkip(c) && !MentionsClazy(c) && Classify(c).Line?
    ensures CommentsSuppress([c], check, line) <==>
      ListsFor(c, line) && GlobMatches(GlobFor(c, line), check)
  {
    hide Classify, ListsFor, GlobFor, GlobMatches, SuppressedByPair, Find, MentionsClazy;
    NoPairs(c, check, line);
    assert !ExcludesOn(c, line, check);
    if ListsFor(c, line) {
      assert FirstListing([c], 0, line);
      assert ListsFor([c][0], line);
    }
  }

  /** A file with one comment for one line: nothing else is suppressed, and there what its list says. */
  lemma OneComment(c: Comment, check: string, line: LineNumber)
    requires ':' !in c.text && Classify(c).Line?
    ensures Answer(map[0 := [c]], [], Query(check, Some(0), Some(line))) <==>
      Classify(c).line == line &&
      var list := Classify(c).checks; list == "" || (HasItem(list) && GlobMatches(FirstGlob(list), check))
  {
    hide Classify, GlobMatches, CommentsSuppress, SaysSkip, HasItem, FirstGlob, MentionsClazy;
    NoColon(c);
    ListedHere(c, check, line);
    assert !ExcludesInFile(c, check);
    var buffers := map[0 := [c]];
    AnswerFromComments(buffers, [], Query(check, Some(0), Some(line)));
    assert buffers[0] == [c];
    NothingListed();
    assert IsBareFor(c, line) <==> IsBareFor([c][0], line);
  }

  /** Without `B` and `D` the text behind the word can make the comment neither open nor close a range. */
  lemma NextLineText(c: Comment, rest: string)
    requires c.text == "NOLINTNEXTLINE" + rest && 'B' !in rest && 'D' !in rest
    ensures Classify(c).Line? && Classify(c).line == c.line + 1 && IsListOf(rest, Classify(c).checks)
  {
    hide Classify, IsListOf;
    var s := c.text;
    LacksLetter(s, "NOLINTBEGIN", 6);
    LacksLetter(s, "NOLINTEND", 8);
    assert s[0..] == s && "NOLINT" <= s && "NOLINTNEXTLINE" <= s;
    assert s[14..] == rest;
    LineFromText(c, 0);
  }

  lemma HasLetter(s: string, word: string, k: nat, i: nat)
    requires i <= |s| && word <= s[i..] && k < |word|
    ensures word[k] in s
  {
    assert s[i..][k] == word[k];
    assert s[i + k] == word[k];
  }

  lemma LacksLetter(s: string, word: string, k: nat)
    requires k < |word| && word[k] !in s
    ensures !Occurs(s, word)
  {
    if i: nat :| i <= |s| && word <= s[i..] {
      HasLetter(s, word, k, i);
    }
  }

  /** A bare `NOLINTNEXTLINE` suppresses every check on the next line and none anywhere else. */
  lemma NextLineIsSuppressed(n: LineNumber, check: string, line: LineNumber)
    ensures var c := Comment(n, "NOLINTNEXTLINE", NoDirective);
      Answer(map[0 := [c]], [], Query(check, Some(0), Some(line))) <==> line == n + 1
  {
    hide Classify, Answer, HasItem, FirstGlob, GlobMatches;
    var c := Comment(n, "NOLINTNEXTLINE", NoDirective);
    assert c.text == "NOLINTNEXTLINE" + "";
    NextLineText(c, "");
    assert !Parenthesised("", Classify(c).checks);
    OneComment(c, check, line);
  }

  const A_LIST := "(clazy-a)"

  lemma ListIsA(list: string)
    requires IsListOf(A_LIST, list)
    ensures list == "clazy-a"
  {
    var a := "clazy-a";
    assert "(" + a + ")" == A_LIST;
    assert Parenthesised(A_LIST, a);
    if Parenthesised(A_LIST, list) {
      var whole := "(" + list + ")";
      assert whole[|list| + 1] == ')' && A_LIST[|list| + 1] == ')';
      assert |list| == 7;
      assert whole == A_LIST && whole[1..8] == list && A_LIST[1..8] == a;
    }
  }

  lemma OneItem()
    ensures HasItem("clazy-a") && FirstGlob("clazy-a") == "a"
  {
    var items := ["clazy-a"];
    assert Joined(items, ',') == "clazy-a";
    JoinedSplits(items, ',');
    hide Split;
    assert items[0][6..] == "a" && CLAZY <= items[0];
    assert FirstClazy(items) == 0 && RTrim("a") == "a";
  }

  /** With a list it suppresses the listed check there and no other. */
  lemma NextLineWithList(n: LineNumber, check: string, line: LineNumber)
    ensures var c := Comment(n, "NOLINTNEXTLINE" + A_LIST, NoDirective);
      Answer(map[0 := [c]], [], Query(check, Some(0), Some(line))) <==> line == n + 1 && check == "a"
  {
    hide Classify, Answer, HasItem, FirstGlob, IsListOf;
    var c := Comment(n, "NOLINTNEXTLINE" + A_LIST, NoDirective);
    NextLineText(c, A_LIST);
    ListIsA(Classify(c).checks);
    OneItem();
    PlainGlob("a", check);
    hide GlobMatches;
    OneComment(c, check, line);
  }
}
