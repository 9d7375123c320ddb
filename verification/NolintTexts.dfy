/** What a NOLINT comment says, read off its text. */
module NolintTexts {
  import opened TextUtils
  import opened Suppression

  /** The word stands somewhere in the text. */
  predicate Occurs(s: string, word: string) {
    exists i :: 0 <= i <= |s| && word <= s[i..]
  }

  /** The word stands at `i` and nowhere before. */
  predicate FirstStands(s: string, word: string, i: nat) {
    i <= |s| && word <= s[i..] && forall j :: 0 <= j < i ==> !(word <= s[j..])
  }

  /** `list` and parentheses around it stand at the head of the text; the list ends at the first `)`. */
  predicate Parenthesised(s: string, list: string) {
    ')' !in list && "(" + list + ")" <= s
  }

  /** What stands in parentheses at the head of the text, or nothing if nothing does. */
  ghost predicate IsListOf(s: string, list: string) {
    Parenthesised(s, list) || (list == "" && forall other :: !Parenthesised(s, other))
  }

  lemma StandsAt(s: string, word: string, i: nat)
    requires i <= |s|
    ensures At(s, word, i) <==> word <= s[i..]
  {
    if word <= s[i..] {
      assert s[i..][..|word|] == s[i..i + |word|];
    }
    if At(s, word, i) {
      assert s[i..][..|word|] == word;
    }
  }

  lemma FindFirst(s: string, word: string, i: nat)
    requires FirstStands(s, word, i)
    ensures Find(s, word, 0) == i
  {
    StandsAt(s, word, i);
    var f := Find(s, word, 0);
    if 0 <= f < i {
      StandsAt(s, word, f);
    }
  }

  lemma NotFoundExactly(s: string, word: string)
    ensures Find(s, word, 0) == -1 <==> !Occurs(s, word)
  {
    var f := Find(s, word, 0);
    if f == -1 {
      forall i | 0 <= i <= |s| ensures !(word <= s[i..]) {
        StandsAt(s, word, i);
      }
    } else {
      StandsAt(s, word, f);
      assert word <= s[f..];
    }
  }

  lemma NotYet(s: string, word: string, longer: string, i: int)
    requires word <= longer && !At(s, word, i)
    ensures !At(s, longer, i)
  {
    if 0 <= i && i + |longer| <= |s| {
      assert s[i..i + |word|] == s[i..i + |longer|][..|word|];
    }
  }

  /** A longer word is not found before its own beginning is. */
  lemma FindLonger(s: string, word: string, longer: string)
    requires word <= longer && Find(s, word, 0) != -1
    ensures Find(s, longer, Find(s, word, 0)) == Find(s, longer, 0)
  {
    hide At;
    var from: nat := Find(s, word, 0);
    assert from <= |s| by { FoundInside(s, word); }
    forall j | 0 <= j < from ensures !At(s, longer, j) {
      NotYet(s, word, longer, j);
    }
    SkipTo(s, longer, 0, from);
  }

  lemma FoundInside(s: string, word: string)
    ensures Find(s, word, 0) <= |s|
  {
  }

  lemma {:induction false} SkipTo(s: string, word: string, from: nat, to: nat)
    requires from <= to <= |s| && forall j :: from <= j < to ==> !At(s, word, j)
    ensures Find(s, word, from) == Find(s, word, to)
    decreases |s| - from
  {
    if from < to && from + |word| <= |s| {
      SkipTo(s, word, from + 1, to);
    }
  }

  lemma LongerStands(s: string, word: string, longer: string)
    requires word <= longer
    ensures Occurs(s, longer) ==> Occurs(s, word)
  {
    if i :| 0 <= i <= |s| && longer <= s[i..] {
      assert s[i..][..|word|] == s[i..][..|longer|][..|word|];
      assert word <= s[i..];
    }
  }

  /** Which of the four kinds a comment is of. */
  lemma KindFromText(c: Comment)
    ensures Classify(c).NoNolint? <==> !Occurs(c.text, "NOLINT")
    ensures Classify(c).Begin? <==> Occurs(c.text, "NOLINTBEGIN")
    ensures Classify(c).End? <==> Occurs(c.text, "NOLINTEND") && !Occurs(c.text, "NOLINTBEGIN")
  {
    hide Find, Occurs, At, ParseDisabledChecks;
    var s := c.text;
    assert "NOLINTBEGIN"[..6] == "NOLINT" && "NOLINTEND"[..6] == "NOLINT";
    NotFoundExactly(s, "NOLINT");
    NotFoundExactly(s, "NOLINTBEGIN");
    NotFoundExactly(s, "NOLINTEND");
    LongerStands(s, "NOLINT", "NOLINTBEGIN");
    LongerStands(s, "NOLINT", "NOLINTEND");
    if Find(s, "NOLINT", 0) != -1 {
      FindLonger(s, "NOLINT", "NOLINTBEGIN");
      FindLonger(s, "NOLINT", "NOLINTEND");
    }
  }

  /** The list in parentheses behind a word. */
  lemma ListFromText(s: string, pos: nat)
    requires pos <= |s|
    ensures IsListOf(s[pos..], ParseDisabledChecks(s, pos))
  {
    var t := s[pos..];
    var list := ParseDisabledChecks(s, pos);
    if pos < |s| && s[pos] == '(' && Find(s, ")", pos) != -1 {
      ClosedList(s, pos);
    } else {
      forall other ensures !Parenthesised(t, other) {
        if Parenthesised(t, other) {
          CloserIn(s, pos, other);
        }
      }
    }
  }

  lemma ClosedList(s: string, pos: nat)
    requires pos < |s| && s[pos] == '(' && Find(s, ")", pos) != -1
    ensures Parenthesised(s[pos..], ParseDisabledChecks(s, pos))
  {
    hide At, Find, Parenthesised;
    var end := Find(s, ")", pos);
    CloserAt(s, end);
    CloserAt(s, pos);
    forall i | pos < i < end ensures s[i] != ')' {
      CloserAt(s, i);
    }
    Between(s, pos, end);
  }

  lemma CloserAt(s: string, i: int)
    ensures At(s, ")", i) <==> 0 <= i < |s| && s[i] == ')'
  {
    if 0 <= i < |s| {
      assert s[i..i + 1] == [s[i]];
    }
  }

  lemma Between(s: string, pos: nat, end: nat)
    requires pos < end < |s| && s[pos] == '(' && s[end] == ')' && forall i :: pos < i < end ==> s[i] != ')'
    ensures Parenthesised(s[pos..], s[pos + 1..end])
  {
    var list := s[pos + 1..end];
    assert s[pos..][..|list| + 2] == "(" + list + ")";
  }

  lemma CloserIn(s: string, pos: nat, list: string)
    requires pos <= |s| && Parenthesised(s[pos..], list)
    ensures pos < |s| && s[pos] == '(' && Find(s, ")", pos) != -1
  {
    hide At, Find;
    ParenthesesOf(s[pos..], list);
    var end := pos + |list| + 1;
    assert s[pos..][0] == s[pos] && s[pos..][|list| + 1] == s[end];
    CloserAt(s, end);
  }

  lemma ParenthesesOf(s: string, list: string)
    requires Parenthesised(s, list)
    ensures |s| >= |list| + 2 && s[0] == '(' && s[|list| + 1] == ')'
  {
    var whole := "(" + list + ")";
    assert whole[0] == '(' && whole[|list| + 1] == ')' && |whole| == |list| + 2;
    assert s[0] == whole[0] && s[|list| + 1] == whole[|list| + 1];
  }

  /**
   * A comment for one line: the next one if and only if `NEXTLINE` stands directly behind its first NOLINT, and its
   * list stands directly behind that.
   */
  lemma LineFromText(c: Comment, i: nat)
    requires FirstStands(c.text, "NOLINT", i)
    requires !Occurs(c.text, "NOLINTBEGIN") && !Occurs(c.text, "NOLINTEND")
    ensures var next := "NOLINTNEXTLINE" <= c.text[i..];
      && Classify(c).Line?
      && Classify(c).line == (if next then c.line + 1 else c.line)
      && IsListOf(c.text[i..][if next then 14 else 6..], Classify(c).checks)
  {
    hide Find, Occurs, At, ParseDisabledChecks, IsListOf;
    var s := c.text;
    KindFromText(c);
    FindFirst(s, "NOLINT", i);
    assert Occurs(s, "NOLINT") by { StandsSomewhere(s, "NOLINT", i); }
    NextLineStands(s, i);
    var next := "NOLINTNEXTLINE" <= s[i..];
    var pos := i + (if next then 14 else 6);
    ListFromText(s, pos);
    assert s[i..][pos - i..] == s[pos..];
  }

  lemma StandsSomewhere(s: string, word: string, i: nat)
    requires FirstStands(s, word, i)
    ensures Occurs(s, word)
  {
  }

  lemma NextLineStands(s: string, i: nat)
    requires i <= |s| && "NOLINT" <= s[i..]
    ensures i + 6 <= |s| && (At(s, "NEXTLINE", i + 6) <==> "NOLINTNEXTLINE" <= s[i..])
  {
    StandsAt(s, "NEXTLINE", i + 6);
    assert s[i..][6..] == s[i + 6..];
    assert "NOLINTNEXTLINE" == "NOLINT" + "NEXTLINE";
    assert s[i..] == "NOLINT" + s[i + 6..];
  }

  /** A comment that opens a range, and its list. */
  lemma BeginFromText(c: Comment, i: nat)
    requires FirstStands(c.text, "NOLINTBEGIN", i)
    ensures Classify(c).Begin? && IsListOf(c.text[i..][11..], Classify(c).checks)
  {
    hide Find, Occurs, At, ParseDisabledChecks, IsListOf;
    var s := c.text;
    KindFromText(c);
    StandsSomewhere(s, "NOLINTBEGIN", i);
    FindFirst(s, "NOLINTBEGIN", i);
    assert "NOLINTBEGIN"[..6] == "NOLINT";
    LongerStands(s, "NOLINT", "NOLINTBEGIN");
    NotFoundExactly(s, "NOLINT");
    FindLonger(s, "NOLINT", "NOLINTBEGIN");
    ListFromText(s, i + 11);
    assert s[i..][11..] == s[i + 11..];
  }

  /** A comment that closes a range, and its list. */
  lemma EndFromText(c: Comment, i: nat)
    requires FirstStands(c.text, "NOLINTEND", i) && !Occurs(c.text, "NOLINTBEGIN")
    ensures Classify(c).End? && IsListOf(c.text[i..][9..], Classify(c).checks)
  {
    hide Find, Occurs, At, ParseDisabledChecks, IsListOf;
    var s := c.text;
    KindFromText(c);
    StandsSomewhere(s, "NOLINTEND", i);
    FindFirst(s, "NOLINTEND", i);
    assert "NOLINTEND"[..6] == "NOLINT";
    LongerStands(s, "NOLINT", "NOLINTEND");
    NotFoundExactly(s, "NOLINT");
    NotFoundExactly(s, "NOLINTBEGIN");
    FindLonger(s, "NOLINT", "NOLINTBEGIN");
    FindLonger(s, "NOLINT", "NOLINTEND");
    ListFromText(s, i + 9);
    assert s[i..][9..] == s[i + 9..];
  }

  /** A list item loses the blanks at its end, all of them and nothing else. */
  lemma {:induction false} TrimmedAtEnd(s: string)
    ensures var r := RTrim(s);
      && r <= s && (r == "" || r[|r| - 1] !in " \t\n\r\U{0b}\U{0c}")
      && forall i :: |r| <= i < |s| ==> s[i] in " \t\n\r\U{0b}\U{0c}"
  {
    if s != "" && IsTrimmed(s[|s| - 1]) {
      TrimmedAtEnd(s[..|s| - 1]);
    }
  }
}
