/** Blank removal (`qRemoveWhitespace`) and the token sequence it preserves. */
module Whitespace {
  import opened CText
  import opened TokenTexts

  /** The two places where a run of blanks is kept as one space. */
  predicate NeedsSpace(last: char, next: char) {
    (IsIdentChar(next) && IsIdentChar(last)) || (next == ':' && last == '<')
  }

  /** What is written for `s` when `last` is the character written before it. */
  function Squeeze(s: string, last: char): (r: string)
    ensures |r| <= |s|
    decreases |s|
  {
    if s == "" then ""
    else if !IsSpace(s[0]) then [s[0]] + Squeeze(s[1..], s[0])
    else
      var r := DropSpaces(s);
      if r == "" then ""
      else if NeedsSpace(last, r[0]) then [' '] + Squeeze(r, ' ')
      else Squeeze(r, last)
  }

  function RemoveWhitespace(s: string): (r: string)
    ensures |r| <= |s|
  {
    Squeeze(s, '\0')
  }

  lemma {:induction false} SqueezeSkipsBlanks(s: string)
    ensures Squeeze(s, '\0') == Squeeze(DropSpaces(s), '\0')
  {
    if s != "" && IsSpace(s[0]) {
    }
  }

  lemma {:induction false} SqueezeKeepsNulFree(s: string, last: char)
    requires '\0' !in s
    ensures '\0' !in Squeeze(s, last)
    decreases |s|
  {
    if s == "" {
    } else if !IsSpace(s[0]) {
      SqueezeKeepsNulFree(s[1..], s[0]);
    } else {
      var r := DropSpaces(s);
      DropSpacesIsSuffix(s);
      SqueezeKeepsNulFree(r, ' ');
      SqueezeKeepsNulFree(r, last);
    }
  }

  /** Skips a run of blanks. */
  method SkipBlanks(s: CString, start: nat) returns (i: nat)
    requires start <= |s|
    ensures start <= i <= |s| && (i < |s| ==> !IsSpace(s[i]))
    ensures s[i..] == DropSpaces(s[start..])
  {
    i := start;
    while i < |s| && IsSpace(s[i])
      invariant start <= i <= |s|
      invariant DropSpaces(s[start..]) == DropSpaces(s[i..])
    {
      i := i + 1;
    }
  }

  lemma {:induction false} SqueezeWord(s: string, start: nat, i: nat, before: char)
    requires start < i <= |s|
    requires forall k :: start <= k < i ==> !IsSpace(s[k])
    ensures Squeeze(s[start..], before) == s[start..i] + Squeeze(s[i..], s[i - 1])
    decreases i - start
  {
    assert s[start..][1..] == s[start + 1..];
    if start + 1 < i {
      SqueezeWord(s, start + 1, i, s[start]);
      assert s[start..i] == [s[start]] + s[start + 1..i];
    } else {
      assert s[start..i] == [s[start]];
    }
  }

  /** `whole[n..]` is still to be written for `s[i..]` after `last`. */
  predicate Pending(whole: string, n: nat, s: string, i: nat, last: char) {
    n <= |whole| && i <= |s| && whole[n..] == Squeeze(s[i..], last)
  }

  lemma PendingWord(whole: string, n: nat, s: string, start: nat, i: nat, before: char)
    requires Pending(whole, n, s, start, before)
    requires start < i <= |s| && forall k :: start <= k < i ==> !IsSpace(s[k])
    ensures Pending(whole, n + i - start, s, i, s[i - 1])
    ensures forall k :: n <= k < n + i - start ==> whole[k] == s[start + k - n]
  {
    SqueezeWord(s, start, i, before);
    var rest := Squeeze(s[i..], s[i - 1]);
    assert |whole| == n + (i - start) + |rest|;
    assert whole[n + i - start..] == whole[n..][i - start..] == rest;
    forall k | n <= k < n + i - start ensures whole[k] == s[start + k - n] {
      assert whole[k] == whole[n..][k - n] == s[start..i][k - n];
    }
  }

  lemma PendingGap(whole: string, n: nat, s: string, w: nat, i: nat, last: char)
    requires Pending(whole, n, s, w, last)
    requires w <= i <= |s| && (w == |s| || IsSpace(s[w])) && s[i..] == DropSpaces(s[w..])
    ensures !(i < |s| && NeedsSpace(last, s[i])) ==> Pending(whole, n, s, i, last)
    ensures i < |s| && NeedsSpace(last, s[i]) ==> Pending(whole, n + 1, s, i, ' ') && whole[n] == ' '
  {
    if w < |s| {
      assert s[w..][0] == s[w];
      if i < |s| {
        assert s[i..][0] == s[i];
        if NeedsSpace(last, s[i]) {
          assert whole[n] == whole[n..][0];
          assert whole[n + 1..] == whole[n..][1..];
        }
      }
    }
  }

  /** Copies a run of non-blanks, remembering the last character. */
  method CopyWord(s: CString, start: nat, d: array<char>, first: nat, before: char, ghost whole: string)
    returns (i: nat, n: nat, last: char)
    requires first <= start < |s| < d.Length && !IsSpace(s[start])
    requires Pending(whole, first, s, start, before)
    modifies d
    ensures start < i <= |s| && n == first + i - start
    ensures i < |s| ==> IsSpace(s[i])
    ensures Pending(whole, n, s, i, last)
    ensures forall k :: first <= k < n ==> d[k] == whole[k]
    ensures forall k :: 0 <= k < d.Length && !(first <= k < n) ==> d[k] == old(d[k])
  {
    i, n, last := start, first, before;
    while i < |s| && !IsSpace(s[i])
      invariant start <= i <= |s| && n == first + i - start
      invariant i > start ==> last == s[i - 1]
      invariant forall k :: start <= k < i ==> !IsSpace(s[k])
      invariant forall k :: first <= k < n ==> d[k] == s[start + k - first]
      invariant forall k :: 0 <= k < d.Length && !(first <= k < n) ==> d[k] == old(d[k])
    {
      last := s[i];
      d[n] := last;
      n, i := n + 1, i + 1;
    }
    PendingWord(whole, first, s, start, i, before);
  }

  lemma PendingStart(s: string, i: nat)
    requires i <= |s| && s[i..] == DropSpaces(s)
    ensures Pending(RemoveWhitespace(s), 0, s, i, '\0')
  {
    hide Squeeze;
    SqueezeSkipsBlanks(s);
    assert RemoveWhitespace(s)[0..] == RemoveWhitespace(s);
  }

  lemma PendingEnd(whole: string, n: nat, s: string, last: char)
    requires Pending(whole, n, s, |s|, last)
    ensures n == |whole|
  {
    assert s[|s|..] == "";
  }

  /** The first `n` characters of `d` are those of `whole`, and the others are as in `d0`. */
  predicate Written(d: seq<char>, d0: seq<char>, whole: string, n: nat) {
    && |d| == |d0| && n <= |d| && n <= |whole|
    && (forall k :: 0 <= k < n ==> d[k] == whole[k])
    && (forall k :: n <= k < |d| ==> d[k] == d0[k])
  }

  lemma WrittenWord(d: seq<char>, d': seq<char>, d0: seq<char>, whole: string, n: nat, n': nat)
    requires Written(d, d0, whole, n) && n <= n' <= |whole| && n' <= |d| == |d'|
    requires forall k :: n <= k < n' ==> d'[k] == whole[k]
    requires forall k :: 0 <= k < |d| && !(n <= k < n') ==> d'[k] == d[k]
    ensures Written(d', d0, whole, n')
  {
  }

  /** In place: `d` receives the squeezed text and its terminator, nothing behind them changes. */
  method QRemoveWhitespace(s: CString, d: array<char>)
    requires d.Length > |s|
    modifies d
    ensures d[..|RemoveWhitespace(s)|] == RemoveWhitespace(s)
    ensures d[|RemoveWhitespace(s)|] == '\0'
    ensures forall k :: |RemoveWhitespace(s)| < k < d.Length ==> d[k] == old(d[k])
  {
    hide Squeeze, DropSpaces, RemoveWhitespace, Pending, NeedsSpace, IsSpace, Written;
    var last := '\0';
    var n := 0;
    var i := SkipBlanks(s, 0);
    ghost var whole := RemoveWhitespace(s);
    assert s[0..] == s;
    PendingStart(s, i);
    assert Written(d[..], old(d[..]), whole, 0) by { NothingWritten(d[..], whole); }
    while i < |s|
      invariant 0 <= n <= i <= |s|
      invariant i < |s| ==> !IsSpace(s[i])
      invariant Pending(whole, n, s, i, last)
      invariant Written(d[..], old(d[..]), whole, n)
      decreases |s| - i
    {
      i, n, last := WriteWord(s, i, d, n, last, whole, old(d[..]));
      ghost var word := i;
      i := SkipBlanks(s, i);
      PendingGap(whole, n, s, word, i, last);
      if i < |s| && NeedsSpace(last, s[i]) {
        ghost var before := d[..];
        last := ' ';
        d[n] := last;
        WrittenWord(before, d[..], old(d[..]), whole, n, n + 1);
        n := n + 1;
      }
    }
    PendingEnd(whole, n, s, last);
    AllWritten(d[..], old(d[..]), whole);
    d[n] := '\0';
  }

  lemma NothingWritten(d: seq<char>, whole: string)
    ensures Written(d, d, whole, 0)
  {
  }

  lemma AllWritten(d: seq<char>, d0: seq<char>, whole: string)
    requires Written(d, d0, whole, |whole|)
    ensures d[..|whole|] == whole && forall k :: |whole| <= k < |d| ==> d[k] == d0[k]
  {
  }

  /** The copied word continues what is written. */
  method WriteWord(s: CString, start: nat, d: array<char>, first: nat, before: char, ghost whole: string,
      ghost d0: seq<char>)
    returns (i: nat, n: nat, last: char)
    requires first <= start < |s| < d.Length && !IsSpace(s[start])
    requires Pending(whole, first, s, start, before) && Written(d[..], d0, whole, first)
    modifies d
    ensures start < i <= |s| && n == first + i - start && (i < |s| ==> IsSpace(s[i]))
    ensures Pending(whole, n, s, i, last) && Written(d[..], d0, whole, n)
    ensures |d0| == d.Length && n <= |whole|
  {
    hide Written, Squeeze;
    ghost var earlier := d[..];
    WrittenLength(d[..], d0, whole, first);
    i, n, last := CopyWord(s, start, d, first, before, whole);
    WrittenWord(earlier, d[..], d0, whole, first, n);
  }

  lemma WrittenLength(d: seq<char>, d0: seq<char>, whole: string, n: nat)
    requires Written(d, d0, whole, n)
    ensures |d| == |d0|
  {
  }

  // ----- tokens -----

  /** The tokens of `word + s`, where `word` is the identifier being read. */
  function Lex(word: string, s: string): seq<Token>
    decreases |s|
  {
    if s == "" then Flush(word)
    else if IsIdentChar(s[0]) then Lex(word + [s[0]], s[1..])
    else if IsSpace(s[0]) then Flush(word) + Lex("", s[1..])
    else Flush(word) + [[s[0]]] + Lex("", s[1..])
  }

  /** Maximal identifiers, and every other non-blank character on its own. */
  function Tokens(s: string): seq<Token> {
    Lex("", s)
  }

  lemma {:induction false} LexSkipsBlanks(s: string)
    ensures Lex("", s) == Lex("", DropSpaces(s))
  {
    if s != "" && IsSpace(s[0]) {
      LexSkipsBlanks(s[1..]);
    }
  }

  lemma {:induction false} SqueezeKeepsLex(word: string, s: string, last: char)
    requires word != "" <==> IsIdentChar(last)
    ensures Lex(word, Squeeze(s, last)) == Lex(word, s)
    decreases |s|
  {
    if s == "" {
    } else if !IsSpace(s[0]) {
      if IsIdentChar(s[0]) {
        SqueezeKeepsLex(word + [s[0]], s[1..], s[0]);
      } else {
        SqueezeKeepsLex("", s[1..], s[0]);
      }
    } else {
      var r := DropSpaces(s);
      LexSkipsBlanks(s[1..]);
      assert DropSpaces(s) == DropSpaces(s[1..]);
      assert Lex(word, s) == Flush(word) + Lex("", r);
      if r == "" {
      } else if NeedsSpace(last, r[0]) {
        SqueezeKeepsLex("", r, ' ');
        assert ([' '] + Squeeze(r, ' '))[1..] == Squeeze(r, ' ');
      } else if IsIdentChar(r[0]) {
        SqueezeKeepsLex("", r, last);
      } else {
        SqueezeKeepsLex("", r[1..], r[0]);
        assert Squeeze(r, last) == [r[0]] + Squeeze(r[1..], r[0]);
      }
    }
  }

  /** Blank removal changes no token. */
  lemma RemoveWhitespaceKeepsTokens(s: string)
    ensures Tokens(RemoveWhitespace(s)) == Tokens(s)
  {
    SqueezeKeepsLex("", s, '\0');
  }

  // ----- what is left of the blanks -----

  predicate TightAt(s: string, last: char, i: nat)
    requires i < |s|
  {
    IsSpace(s[i]) ==>
      s[i] == ' ' && i + 1 < |s| && NeedsSpace(if i == 0 then last else s[i - 1], s[i + 1])
  }

  /** Every blank of `s`, written after `last`, is one space at a place that needs it. */
  predicate Tight(s: string, last: char) {
    forall i :: 0 <= i < |s| ==> TightAt(s, last, i)
  }

  lemma TightCons(c: char, s: string, last: char)
    requires IsSpace(c) ==> c == ' ' && s != "" && NeedsSpace(last, s[0])
    requires Tight(s, c)
    ensures Tight([c] + s, last)
  {
    forall i | 0 <= i < |[c] + s| ensures TightAt([c] + s, last, i) {
      if i > 0 {
        assert TightAt(s, c, i - 1);
      }
    }
  }

  lemma TightTail(s: string, last: char)
    requires s != "" && Tight(s, last)
    ensures Tight(s[1..], s[0])
  {
    forall i | 0 <= i < |s[1..]| ensures TightAt(s[1..], s[0], i) {
      assert TightAt(s, last, i + 1);
    }
  }

  lemma {:induction false} SqueezeIsTight(s: string, last: char)
    ensures Tight(Squeeze(s, last), last)
    decreases |s|
  {
    if s == "" {
    } else if !IsSpace(s[0]) {
      SqueezeIsTight(s[1..], s[0]);
      TightCons(s[0], Squeeze(s[1..], s[0]), last);
    } else {
      var r := DropSpaces(s);
      SqueezeIsTight(r, ' ');
      SqueezeIsTight(r, last);
      if r != "" && NeedsSpace(last, r[0]) {
        TightCons(' ', Squeeze(r, ' '), last);
      }
    }
  }

  lemma {:induction false} TightIsFixed(s: string, last: char)
    requires Tight(s, last)
    ensures Squeeze(s, last) == s
    decreases |s|
  {
    if s != "" {
      TightTail(s, last);
      TightIsFixed(s[1..], s[0]);
      assert s == [s[0]] + s[1..];
      hide Tight;
      if IsSpace(s[0]) {
        TightBlank(s, last);
        hide Squeeze;
        SqueezeNeededBlank(s, last);
      } else {
        assert Squeeze(s, last) == [s[0]] + Squeeze(s[1..], s[0]);
      }
    }
  }

  lemma TightBlank(s: string, last: char)
    requires s != "" && IsSpace(s[0]) && Tight(s, last)
    ensures s[0] == ' ' && |s| > 1 && NeedsSpace(last, s[1])
  {
    assert TightAt(s, last, 0);
  }

  lemma SqueezeNeededBlank(s: string, last: char)
    requires |s| > 1 && s[0] == ' ' && NeedsSpace(last, s[1])
    ensures Squeeze(s, last) == [' '] + Squeeze(s[1..], ' ')
  {
    assert s[1..][0] == s[1] && !IsSpace(s[1]);
    assert DropSpaces(s) == DropSpaces(s[1..]) == s[1..];
  }

  /** No leading, trailing or doubled blank is left, and a second pass finds nothing to do. */
  lemma RemoveWhitespaceIdempotent(s: string)
    ensures Tight(RemoveWhitespace(s), '\0')
    ensures RemoveWhitespace(RemoveWhitespace(s)) == RemoveWhitespace(s)
  {
    SqueezeIsTight(s, '\0');
    TightIsFixed(RemoveWhitespace(s), '\0');
  }

  // ----- what spacing means -----

  /**
   * For each `:` that follows a `<` with nothing but blanks between: whether there is a blank.  `prev` is the last
   * character read that is no blank, and `blank` tells whether a blank came since.
   */
  function Gaps(s: string, prev: char, blank: bool): seq<bool> {
    if s == "" then []
    else if IsSpace(s[0]) then Gaps(s[1..], prev, true)
    else (if prev == '<' && s[0] == ':' then [blank] else []) + Gaps(s[1..], s[0], false)
  }

  /** The gaps of a whole text. */
  function GapsOf(s: string): seq<bool> {
    Gaps(s, '\0', false)
  }

  /** Between `prev` and `t` the text's next gap decides whether there is a space. */
  predicate AtGap(prev: char, t: Token) {
    prev == '<' && t[0] == ':'
  }

  /** The tokens written after `prev`, with a space between two identifiers and in the gaps that ask for one. */
  function Join(prev: char, toks: seq<Token>, gaps: seq<bool>): string
    decreases |toks|
  {
    if toks == [] then ""
    else
      var t := toks[0];
      var spaced := (IsIdentChar(prev) && IsIdentChar(t[0])) || (AtGap(prev, t) && gaps != [] && gaps[0]);
      (if spaced then " " else "") + t
      + Join(t[|t| - 1], toks[1..], if AtGap(prev, t) && gaps != [] then gaps[1..] else gaps)
  }

  /** `word` is an identifier whose last character is `last`, or there is none and `prev` ends the last token. */
  predicate Reading(prev: char, word: string, last: char) {
    if word == "" then last == prev && !IsIdentChar(prev)
    else last == word[|word| - 1] && IsIdentChar(last) && IsIdentChar(word[0])
  }

  function Separated(prev: char, word: string): string {
    if word == "" then ""
    else if IsIdentChar(prev) && IsIdentChar(word[0]) then " " + word
    else word
  }

  lemma SeparatedGrows(prev: char, word: string, c: char, last: char)
    requires Reading(prev, word, last) && IsIdentChar(c)
    ensures Separated(prev, word + [c]) == Separated(prev, word) + [c]
  {
    if word != "" {
      assert (word + [c])[0] == word[0];
      assert " " + (word + [c]) == (" " + word) + [c];
    } else {
      assert word + [c] == [c];
    }
  }

  /** Leading blanks count as one. */
  lemma {:induction false} GapsAfterBlanks(s: string, prev: char, blank: bool)
    ensures Gaps(s, prev, blank) == Gaps(DropSpaces(s), prev, blank || (s != "" && IsSpace(s[0])))
    decreases |s|
  {
    if s != "" && IsSpace(s[0]) {
      GapsAfterBlanks(s[1..], prev, true);
    }
  }

  lemma GapsStep(c: char, t: string, prev: char, blank: bool)
    requires !IsSpace(c)
    ensures Gaps([c] + t, prev, blank) == (if prev == '<' && c == ':' then [blank] else []) + Gaps(t, c, false)
  {
    assert ([c] + t)[1..] == t;
  }

  /** Squeezing is writing the tokens with the gaps of the text. */
  lemma {:induction false} JoinLexIsSqueeze(prev: char, word: string, s: string, last: char)
    requires Reading(prev, word, last)
    ensures Join(prev, Lex(word, s), Gaps(s, last, false)) == Separated(prev, word) + Squeeze(s, last)
    decreases |s|, 0
  {
    hide Join, Separated, Gaps;
    if s == "" {
      assert Lex(word, s) == Flush(word) + [];
      JoinFlush(prev, word, [], last, Gaps(s, last, false));
      NothingJoined(last, Gaps(s, last, false));
    } else {
      var c, t := s[0], s[1..];
      assert s == [c] + t;
      if IsIdentChar(c) {
        assert Lex(word, s) == Lex(word + [c], t) && Squeeze(s, last) == [c] + Squeeze(t, c);
        GapsStep(c, t, last, false);
        assert [] + Gaps(t, c, false) == Gaps(t, c, false);
        JoinLexIsSqueeze(prev, word + [c], t, c);
        SeparatedGrows(prev, word, c, last);
        Assoc(Separated(prev, word), [c], Squeeze(t, c));
      } else if !IsSpace(c) {
        assert Lex(word, s) == Flush(word) + [[c]] + Lex("", t) && Squeeze(s, last) == [c] + Squeeze(t, c);
        GapsStep(c, t, last, false);
        TokensAssoc(Flush(word), [[c]], Lex("", t));
        JoinFlush(prev, word, [[c]] + Lex("", t), last, Gaps(s, last, false));
        JoinCharacter(last, c, Lex("", t), false, Gaps(t, c, false));
        JoinLexIsSqueeze(c, "", t, c);
        SeparatedNothing(c, Squeeze(t, c));
      } else {
        var r := DropSpaces(s);
        LexSkipsBlanks(t);
        assert r == DropSpaces(t);
        assert Lex(word, s) == Flush(word) + Lex("", r);
        GapsAfterBlanks(s, last, false);
        JoinFlush(prev, word, Lex("", r), last, Gaps(s, last, false));
        JoinAfterBlanks(last, r);
      }
    }
  }

  lemma NothingJoined(prev: char, gaps: seq<bool>)
    ensures Join(prev, [], gaps) == ""
  {
  }

  lemma TokensAssoc(a: seq<Token>, b: seq<Token>, c: seq<Token>)
    ensures a + b + c == a + (b + c)
  {
  }

  lemma SeparatedNothing(prev: char, t: string)
    ensures Separated(prev, "") + t == t
  {
  }

  lemma {:induction false} JoinAfterBlanks(last: char, r: string)
    requires r == "" || !IsSpace(r[0])
    ensures Join(last, Lex("", r), Gaps(r, last, true)) ==
      if r == "" then "" else if NeedsSpace(last, r[0]) then [' '] + Squeeze(r, ' ') else Squeeze(r, last)
    decreases |r|, 0
  {
    hide Join, Separated, Gaps;
    if r == "" {
      NothingJoined(last, Gaps(r, last, true));
    } else {
      var c, t := r[0], r[1..];
      assert r == [c] + t;
      GapsStep(c, t, last, true);
      assert Squeeze(r, ' ') == [c] + Squeeze(t, c) == Squeeze(r, last);
      if IsIdentChar(c) {
        assert "" + [c] == [c];
        assert [] + Gaps(t, c, false) == Gaps(t, c, false);
        JoinLexIsSqueezeAfter(last, c, t);
      } else {
        assert Lex("", r) == Flush("") + [[c]] + Lex("", t);
        assert Flush("") + [[c]] == [[c]];
        JoinCharacter(last, c, Lex("", t), true, Gaps(t, c, false));
        JoinLexIsSqueeze(c, "", t, c);
        SeparatedNothing(c, Squeeze(t, c));
      }
    }
  }

  lemma {:induction false} JoinLexIsSqueezeAfter(last: char, c: char, t: string)
    requires IsIdentChar(c)
    ensures Join(last, Lex([c], t), Gaps(t, c, false)) ==
      if IsIdentChar(last) then [' '] + ([c] + Squeeze(t, c)) else [c] + Squeeze(t, c)
    decreases |t|, 1
  {
    hide Join, Gaps, Squeeze;
    JoinLexIsSqueeze(last, [c], t, c);
    assert [' '] + ([c] + Squeeze(t, c)) == (" " + [c]) + Squeeze(t, c);
  }

  /** A word takes no gap. */
  lemma JoinFlush(prev: char, word: string, toks: seq<Token>, last: char, gaps: seq<bool>)
    requires Reading(prev, word, last)
    ensures Join(prev, Flush(word) + toks, gaps) == Separated(prev, word) + Join(last, toks, gaps)
  {
    if word == "" {
      assert Flush(word) + toks == toks;
    } else {
      assert (Flush(word) + toks)[1..] == toks;
      assert (Flush(word) + toks)[0] == word;
    }
  }

  lemma JoinStep(prev: char, t: Token, toks: seq<Token>, gaps: seq<bool>)
    ensures
      var spaced := (IsIdentChar(prev) && IsIdentChar(t[0])) || (AtGap(prev, t) && gaps != [] && gaps[0]);
      var left := if AtGap(prev, t) && gaps != [] then gaps[1..] else gaps;
      Join(prev, [t] + toks, gaps) == (if spaced then " " else "") + t + Join(t[|t| - 1], toks, left)
  {
    hide IsIdentChar, AtGap;
    var all := [t] + toks;
    assert all[0] == t && all[1..] == toks;
  }

  /** Another character takes the next gap if it is a `:` after a `<`. */
  lemma JoinCharacter(prev: char, c: char, toks: seq<Token>, blank: bool, gaps: seq<bool>)
    requires !IsIdentChar(c)
    ensures Join(prev, [[c]] + toks, (if prev == '<' && c == ':' then [blank] else []) + gaps) ==
      (if prev == '<' && c == ':' && blank then [' '] else []) + ([c] + Join(c, toks, gaps))
  {
    hide Join;
    var t: Token := [c];
    if prev == '<' && c == ':' {
      assert ([blank] + gaps)[1..] == gaps;
      JoinStep(prev, t, toks, [blank] + gaps);
    } else {
      assert [] + gaps == gaps;
      JoinStep(prev, t, toks, gaps);
    }
    Assoc(if prev == '<' && c == ':' && blank then " " else "", t, Join(c, toks, gaps));
  }

  // ----- the gaps of a squeezed text -----

  lemma {:induction false} SqueezeKeepsGaps(s: string, last: char)
    requires !IsSpace(last)
    ensures Gaps(Squeeze(s, last), last, false) == Gaps(s, last, false)
    decreases |s|
  {
    hide Gaps;
    if s == "" {
    } else if !IsSpace(s[0]) {
      assert s == [s[0]] + s[1..];
      GapsStep(s[0], s[1..], last, false);
      GapsStep(s[0], Squeeze(s[1..], s[0]), last, false);
      SqueezeKeepsGaps(s[1..], s[0]);
    } else {
      var r := DropSpaces(s);
      GapsAfterBlanks(s, last, false);
      if r == "" {
        NoGaps(last);
      } else {
        var c, t := r[0], r[1..];
        assert r == [c] + t;
        SqueezeKeepsGaps(t, c);
        GapsStep(c, t, last, true);
        GapsStep(c, Squeeze(t, c), last, NeedsSpace(last, c));
        assert Squeeze(r, ' ') == [c] + Squeeze(t, c) == Squeeze(r, last);
        if NeedsSpace(last, c) {
          GapsAfterOne([c] + Squeeze(t, c), last);
        }
      }
    }
  }

  lemma NoGaps(last: char)
    ensures forall blank :: Gaps("", last, blank) == []
  {
  }

  lemma GapsAfterOne(s: string, last: char)
    ensures Gaps([' '] + s, last, false) == Gaps(s, last, true)
  {
    assert ([' '] + s)[1..] == s;
  }

  /** Two texts are squeezed alike exactly if they have the same tokens and the same gaps. */
  lemma SqueezedAlikeExactly(a: string, b: string)
    ensures RemoveWhitespace(a) == RemoveWhitespace(b) <==> Tokens(a) == Tokens(b) && GapsOf(a) == GapsOf(b)
  {
    hide Gaps, Squeeze, Join, Lex;
    JoinLexIsSqueeze('\0', "", a, '\0');
    JoinLexIsSqueeze('\0', "", b, '\0');
    SeparatedNothing('\0', Squeeze(a, '\0'));
    SeparatedNothing('\0', Squeeze(b, '\0'));
    SqueezeKeepsGaps(a, '\0');
    SqueezeKeepsGaps(b, '\0');
    RemoveWhitespaceKeepsTokens(a);
    RemoveWhitespaceKeepsTokens(b);
  }

  // ----- texts without gaps -----

  /** `<` is never directly followed by `:`. */
  predicate NoAngleColon(prev: char, toks: seq<Token>)
    decreases |toks|
  {
    toks == [] || (!AtGap(prev, toks[0]) && NoAngleColon(toks[0][|toks[0]| - 1], toks[1..]))
  }

  /** The tokens tell whether there are gaps. */
  lemma {:induction false} NoAngleColonNoGaps(prev: char, word: string, s: string, last: char, blank: bool)
    requires if word == "" then last == prev else last == word[|word| - 1] && IsIdentChar(last) && IsIdentChar(word[0])
    requires NoAngleColon(prev, Lex(word, s))
    ensures Gaps(s, last, blank) == []
    decreases |s|
  {
    if s != "" {
      var c, t := s[0], s[1..];
      if IsIdentChar(c) {
        NoAngleColonNoGaps(prev, word + [c], t, c, false);
      } else if IsSpace(c) {
        NoAngleColonAfterWord(prev, word, Lex("", t), last);
        NoAngleColonNoGaps(last, "", t, last, true);
      } else {
        TokensAssoc(Flush(word), [[c]], Lex("", t));
        NoAngleColonAfterWord(prev, word, [[c]] + Lex("", t), last);
        assert ([[c]] + Lex("", t))[1..] == Lex("", t);
        NoAngleColonNoGaps(c, "", t, c, false);
      }
    }
  }

  lemma NoAngleColonAfterWord(prev: char, word: string, toks: seq<Token>, last: char)
    requires if word == "" then last == prev else last == word[|word| - 1]
    requires NoAngleColon(prev, Flush(word) + toks)
    ensures NoAngleColon(last, toks)
  {
    if word == "" {
      assert Flush(word) + toks == toks;
    } else {
      assert (Flush(word) + toks)[1..] == toks;
    }
  }

  /** Without gaps the tokens alone decide. */
  lemma SpacingIsIrrelevant(a: string, b: string)
    requires Tokens(a) == Tokens(b) && NoAngleColon('\0', Tokens(a))
    ensures RemoveWhitespace(a) == RemoveWhitespace(b)
  {
    hide Gaps, NoAngleColon, Lex, RemoveWhitespace;
    NoAngleColonNoGaps('\0', "", a, '\0', false);
    NoAngleColonNoGaps('\0', "", b, '\0', false);
    SqueezedAlikeExactly(a, b);
  }

  predicate PlainAngleAt(s: string, last: char, i: nat)
    requires i < |s|
  {
    (if i == 0 then last else s[i - 1]) == '<' ==> s[i] != ':' && !IsSpace(s[i])
  }

  /** The text-level form of `NoAngleColon`: directly after `<` comes neither a colon nor a blank. */
  predicate PlainAngles(s: string, last: char) {
    forall i :: 0 <= i < |s| ==> PlainAngleAt(s, last, i)
  }

  lemma {:induction false} PlainAnglesLex(prev: char, word: string, s: string, last: char)
    requires if word == "" then prev == '<' ==> last == '<'
             else last == word[|word| - 1] && IsIdentChar(last) && IsIdentChar(word[0])
    requires PlainAngles(s, last)
    ensures NoAngleColon(prev, Lex(word, s))
    decreases |s|
  {
    if s == "" {
      if word != "" {
        assert Lex(word, s) == [word];
        assert NoAngleColon(last, []);
      }
    } else {
      var c, t := s[0], s[1..];
      assert PlainAngleAt(s, last, 0);
      forall i | 0 <= i < |t| ensures PlainAngleAt(t, c, i) {
        assert PlainAngleAt(s, last, i + 1);
      }
      if IsIdentChar(c) {
        PlainAnglesLex(prev, word + [c], t, c);
      } else {
        var before := if word == "" then prev else last;
        var toks := if IsSpace(c) then Lex("", t) else [[c]] + Lex("", t);
        if IsSpace(c) {
          PlainAnglesLex(before, "", t, c);
        } else {
          PlainAnglesLex(c, "", t, c);
          assert toks[0] == [c] && toks[1..] == Lex("", t);
        }
        assert Lex(word, s) == Flush(word) + toks;
        if word != "" {
          assert (Flush(word) + toks)[1..] == toks;
        } else {
          assert Flush(word) + toks == toks;
        }
      }
    }
  }
}
