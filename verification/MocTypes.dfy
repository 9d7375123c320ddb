/** The spacing of written types in `fully-qualified-moc-types`. */
module MocTypes {
  import opened TokenTexts

  predicate IsBlank(c: char) {
    c == ' ' || c == '\t' || c == '\n' || c == '\r' || c == '\U{0b}' || c == '\U{0c}'
  }

  predicate IsWordChar(c: char) {
    'a' <= c <= 'z' || 'A' <= c <= 'Z' || '0' <= c <= '9' || c == '_'
  }

  predicate Closes(c: char) {
    c == '<' || c == '>' || c == ','
  }

  predicate EndsWith(s: string, c: char) {
    s != "" && s[|s| - 1] == c
  }

  function DropLast(s: string): string
    requires s != ""
  {
    s[..|s| - 1]
  }

  /** The output after one more non-blank character. */
  function AddChar(out: string, blankBefore: bool, c: char): string {
    var o := if Closes(c) && EndsWith(out, ' ') then DropLast(out) else out;
    var o' := if blankBefore && o != "" && IsWordChar(o[|o| - 1]) && IsWordChar(c) then o + [' '] else o;
    o' + [c] + (if c == ',' then " " else "")
  }

  /** The output after the characters of `s`, before a final `*` is taken off. */
  function Spaced(out: string, blankBefore: bool, s: string): string
    decreases |s|
  {
    if s == "" then out
    else if IsBlank(s[0]) then Spaced(out, true, s[1..])
    else Spaced(AddChar(out, blankBefore, s[0]), false, s[1..])
  }

  function DropStar(s: string): string {
    if EndsWith(s, '*') then DropLast(s) else s
  }

  function Normalized(s: string): string {
    DropStar(Spaced("", false, s))
  }

  /** `normalizeType` */
  method NormalizeType(type_: string) returns (out: string)
    ensures out == Normalized(type_)
  {
    out := "";
    var lastWasSpace := false;
    for i := 0 to |type_|
      invariant Spaced(out, lastWasSpace, type_[i..]) == Spaced("", false, type_)
    {
      var c := type_[i];
      assert type_[i..][1..] == type_[i + 1..];
      if IsBlank(c) {
        lastWasSpace := true;
      } else {
        ghost var added := AddChar(out, lastWasSpace, c);
        if (c == '<' || c == '>' || c == ',') && out != "" && out[|out| - 1] == ' ' {
          out := out[..|out| - 1];
        }
        if lastWasSpace {
          if out != "" {
            var prev := out[|out| - 1];
            if IsWordChar(prev) && IsWordChar(c) {
              out := out + [' '];
            }
          }
        }
        out := out + [c];
        if c == ',' {
          out := out + " ";
        }
        assert out == added;
        lastWasSpace := false;
      }
    }
    if out != "" && out[|out| - 1] == '*' {
      out := out[..|out| - 1];
    }
  }

  // ----- tokens -----

  /** The tokens of `word + s`: maximal words, and every other non-blank character on its own. */
  function Lex(word: string, s: string): seq<Token>
    decreases |s|
  {
    if s == "" then Flush(word)
    else if IsWordChar(s[0]) then Lex(word + [s[0]], s[1..])
    else if IsBlank(s[0]) then Flush(word) + Lex("", s[1..])
    else Flush(word) + [[s[0]]] + Lex("", s[1..])
  }

  function Tokens(s: string): seq<Token> {
    Lex("", s)
  }

  /** The output after one more token. */
  function AddToken(out: string, t: Token): string {
    AddChar(out, true, t[0]) + t[1..]
  }

  function Rendered(out: string, toks: seq<Token>): string
    decreases |toks|
  {
    if toks == [] then out else Rendered(AddToken(out, toks[0]), toks[1..])
  }

  /** `out` ends in `word`, put behind `base`; without a word it ends in none, unless a blank came since. */
  predicate WordRead(base: string, word: string, out: string, blankBefore: bool) {
    if word == "" then out == base && (blankBefore || out == "" || !IsWordChar(out[|out| - 1]))
    else !blankBefore && (forall i :: 0 <= i < |word| ==> IsWordChar(word[i])) && out == AddToken(base, word)
  }

  lemma RenderedFlush(base: string, word: string, out: string, blankBefore: bool, toks: seq<Token>)
    requires WordRead(base, word, out, blankBefore)
    ensures Rendered(base, Flush(word) + toks) == Rendered(out, toks)
  {
    if word == "" {
      assert Flush(word) + toks == toks;
    } else {
      assert (Flush(word) + toks)[1..] == toks;
    }
  }

  /** The output is made of the tokens alone. */
  lemma {:induction false} SpacedIsRendered(base: string, word: string, s: string, out: string, blankBefore: bool)
    requires WordRead(base, word, out, blankBefore)
    ensures Spaced(out, blankBefore, s) == Rendered(base, Lex(word, s))
    decreases |s|
  {
    hide AddChar, AddToken, WordRead, Rendered;
    if s == "" {
      RenderedFlush(base, word, out, blankBefore, []);
      NothingRendered(out);
      assert Flush(word) + [] == Flush(word);
    } else {
      var c, t := s[0], s[1..];
      if IsWordChar(c) {
        WordGrows(base, word, out, blankBefore, c);
        SpacedIsRendered(base, word + [c], t, AddChar(out, blankBefore, c), false);
      } else if IsBlank(c) {
        RenderedFlush(base, word, out, blankBefore, Lex("", t));
        WordReadBlank(out);
        SpacedIsRendered(out, "", t, out, true);
      } else {
        var out' := AddChar(out, blankBefore, c);
        PunctuationAdded(out, blankBefore, c);
        RenderedFlush(base, word, out, blankBefore, [[c]] + Lex("", t));
        assert Flush(word) + [[c]] + Lex("", t) == Flush(word) + ([[c]] + Lex("", t));
        RenderedOne(out, [c], Lex("", t));
        SpacedIsRendered(out', "", t, out', false);
      }
    }
  }

  lemma NothingRendered(out: string)
    ensures Rendered(out, []) == out
  {
  }

  lemma WordReadBlank(out: string)
    ensures WordRead(out, "", out, true)
  {
  }

  lemma RenderedOne(out: string, t: Token, toks: seq<Token>)
    ensures Rendered(out, [t] + toks) == Rendered(AddToken(out, t), toks)
  {
    assert ([t] + toks)[1..] == toks;
  }

  lemma WordGrows(base: string, word: string, out: string, blankBefore: bool, c: char)
    requires WordRead(base, word, out, blankBefore) && IsWordChar(c)
    ensures WordRead(base, word + [c], AddChar(out, blankBefore, c), false)
  {
    var grown := word + [c];
    if word == "" {
      assert grown == [c] && [c][1..] == "";
    } else {
      assert grown[1..] == word[1..] + [c];
      assert AddChar(out, false, c) == out + [c] + "" == out + [c];
      assert AddChar(base, true, word[0]) + word[1..] + [c] == AddChar(base, true, word[0]) + (word[1..] + [c]);
    }
  }

  lemma PunctuationAdded(out: string, blankBefore: bool, c: char)
    requires !IsWordChar(c) && !IsBlank(c)
    ensures AddChar(out, blankBefore, c) == AddToken(out, [c])
    ensures WordRead(AddChar(out, blankBefore, c), "", AddChar(out, blankBefore, c), false)
  {
    assert [c][1..] == "";
    assert AddChar(out, true, c) + "" == AddChar(out, true, c);
  }

  /** Any spacing that neither joins nor splits words gives the same text. */
  lemma DependsOnTokensOnly(a: string, b: string)
    requires Tokens(a) == Tokens(b)
    ensures Normalized(a) == Normalized(b)
  {
    SpacedIsRendered("", "", a, "", false);
    SpacedIsRendered("", "", b, "", false);
  }

  // ----- normalising twice -----

  /** A word, or one other character that is no blank. */
  predicate IsToken(t: Token) {
    (forall i :: 0 <= i < |t| ==> IsWordChar(t[i])) || (|t| == 1 && !IsBlank(t[0]))
  }

  predicate AreTokens(toks: seq<Token>) {
    forall k :: 0 <= k < |toks| ==> IsToken(toks[k])
  }

  lemma {:induction false} LexGivesTokens(word: string, s: string)
    requires forall i :: 0 <= i < |word| ==> IsWordChar(word[i])
    ensures AreTokens(Lex(word, s))
    decreases |s|
  {
    if s != "" {
      if IsWordChar(s[0]) {
        LexGivesTokens(word + [s[0]], s[1..]);
      } else {
        LexGivesTokens("", s[1..]);
      }
    }
  }

  lemma LexAfterWord(word: string, b: string)
    requires b == "" || !IsWordChar(b[0]) || word == ""
    ensures Lex(word, b) == Flush(word) + Lex("", b)
  {
    if b == "" {
      assert Flush(word) + [] == Flush(word);
    } else {
      LexStep(word, b);
      LexStep("", b);
      hide Lex, IsBlank, IsWordChar;
      var rest := Lex("", b[1..]);
      assert Flush("") == [];
      if word == "" {
        assert [] + Lex("", b) == Lex("", b);
      } else if IsBlank(b[0]) {
        assert [] + rest == rest;
      } else {
        assert [] + [[b[0]]] == [[b[0]]];
        TokensAssoc(Flush(word), [[b[0]]], rest);
      }
    }
  }

  /** The tokens the first character completes, and the word read after it. */
  lemma LexStep(word: string, s: string)
    requires s != ""
    ensures var c := s[0];
      Lex(word, s) == (if IsWordChar(c) then [] else if IsBlank(c) then Flush(word) else Flush(word) + [[c]])
                      + Lex(if IsWordChar(c) then word + [c] else "", s[1..])
  {
  }

  lemma TokensAssoc(a: seq<Token>, b: seq<Token>, c: seq<Token>)
    ensures a + (b + c) == a + b + c
  {
  }

  /** Reading starts afresh where no word goes on. */
  lemma {:induction false} LexConcat(word: string, a: string, b: string)
    requires b == "" || !IsWordChar(b[0]) || (if a == "" then word == "" else !IsWordChar(a[|a| - 1]))
    ensures Lex(word, a + b) == Lex(word, a) + Lex("", b)
    decreases |a|
  {
    if a == "" {
      assert a + b == b;
      LexAfterWord(word, b);
    } else {
      hide Lex, IsBlank, Flush;
      var c, t := a[0], a[1..];
      var word' := if IsWordChar(c) then word + [c] else "";
      assert (a + b)[1..] == t + b && (a + b)[0] == c;
      LexConcat(word', t, b);
      LexStep(word, a);
      LexStep(word, a + b);
      TokensAssoc(if IsWordChar(c) then [] else if IsBlank(c) then Flush(word) else Flush(word) + [[c]],
                  Lex(word', t), Lex("", b));
    }
  }

  lemma {:induction false} LexWord(word: string, t: string)
    requires forall i :: 0 <= i < |t| ==> IsWordChar(t[i])
    ensures Lex(word, t) == Flush(word + t)
    decreases |t|
  {
    if t == "" {
      assert word + t == word;
    } else {
      LexWord(word + [t[0]], t[1..]);
      assert word + [t[0]] + t[1..] == word + t;
    }
  }

  lemma LexToken(t: Token)
    requires IsToken(t)
    ensures Tokens(t) == [t]
  {
    if forall i :: 0 <= i < |t| ==> IsWordChar(t[i]) {
      LexWord("", t);
      assert "" + t == t;
    } else {
      assert t[1..] == "" && [t[0]] == t;
      assert Lex("", t) == Flush("") + [[t[0]]] + Lex("", "");
    }
  }

  lemma LexBlank(a: string)
    ensures Tokens(a + " ") == Tokens(a)
  {
    LexConcat("", a, " ");
    assert " "[1..] == "";
    assert Lex("", " ") == [];
    assert Tokens(a) + [] == Tokens(a);
  }

  /** What comes before the token. */
  function Before(out: string, c: char): string {
    var o := if Closes(c) && EndsWith(out, ' ') then DropLast(out) else out;
    if o != "" && IsWordChar(o[|o| - 1]) && IsWordChar(c) then o + [' '] else o
  }

  lemma BeforeReadsAlike(out: string, c: char)
    ensures Tokens(Before(out, c)) == Tokens(out)
    ensures IsWordChar(c) ==> Before(out, c) == "" || !IsWordChar(Before(out, c)[|Before(out, c)| - 1])
  {
    hide Tokens;
    var o := if Closes(c) && EndsWith(out, ' ') then DropLast(out) else out;
    if Closes(c) && EndsWith(out, ' ') {
      LexBlank(o);
      assert o + " " == out;
    }
    LexBlank(o);
    assert o + [' '] == o + " ";
  }

  /** What `AddToken` puts before the token, and behind it. */
  lemma AddTokenShape(out: string, t: Token)
    requires IsToken(t)
    ensures AddToken(out, t) == Before(out, t[0]) + t + (if t == "," then " " else "")
  {
    assert t == [t[0]] + t[1..];
    if t[0] == ',' {
      assert t[1..] == "";
    }
  }

  lemma AddedTokenIsRead(out: string, t: Token)
    requires IsToken(t)
    ensures Tokens(AddToken(out, t)) == Tokens(out) + [t]
  {
    hide Tokens, AddToken, IsToken, Before, IsWordChar;
    AddTokenShape(out, t);
    var o := Before(out, t[0]);
    BeforeReadsAlike(out, t[0]);
    LexToken(t);
    TokensConcat(o, t);
    LexBlank(o + t);
    assert o + t + "" == o + t;
  }

  lemma TokensConcat(a: string, b: string)
    requires b == "" || !IsWordChar(b[0]) || a == "" || !IsWordChar(a[|a| - 1])
    ensures Tokens(a + b) == Tokens(a) + Tokens(b)
  {
    LexConcat("", a, b);
  }

  lemma {:induction false} RenderedIsRead(out: string, toks: seq<Token>)
    requires AreTokens(toks)
    ensures Tokens(Rendered(out, toks)) == Tokens(out) + toks
    decreases |toks|
  {
    hide Tokens, AddToken, IsToken;
    if toks == [] {
      assert Tokens(out) + [] == Tokens(out);
    } else {
      AddedTokenIsRead(out, toks[0]);
      RenderedIsRead(AddToken(out, toks[0]), toks[1..]);
      assert Tokens(out) + [toks[0]] + toks[1..] == Tokens(out) + toks;
    }
  }

  /** Spacing a spaced text again changes nothing. */
  lemma SpacedTwice(toks: seq<Token>)
    requires AreTokens(toks)
    ensures Spaced("", false, Rendered("", toks)) == Rendered("", toks)
  {
    var r := Rendered("", toks);
    RenderedIsRead("", toks);
    assert Tokens("") + toks == toks;
    SpacedIsRendered("", "", r, "", false);
  }

  lemma {:induction false} RenderedLast(out: string, toks: seq<Token>)
    requires toks != []
    ensures Rendered(out, toks) == AddToken(Rendered(out, toks[..|toks| - 1]), toks[|toks| - 1])
    decreases |toks|
  {
    hide AddToken;
    if |toks| > 1 {
      RenderedLast(AddToken(out, toks[0]), toks[1..]);
      assert toks[1..][..|toks| - 2] == toks[..|toks| - 1][1..];
    }
  }

  lemma StarAdded(x: string, t: Token)
    requires IsToken(t) && EndsWith(AddToken(x, t), '*')
    ensures t == "*" && DropLast(AddToken(x, t)) == x
  {
    hide AddToken;
    AddTokenShape(x, t);
    assert t[|t| - 1] == '*';
    assert t == "*";
    assert Before(x, '*') == x;
  }

  /** A spaced text that ends in `*` is a spaced text followed by a `*`. */
  lemma StarIsLastToken(toks: seq<Token>)
    requires AreTokens(toks) && EndsWith(Rendered("", toks), '*')
    ensures toks != [] && DropLast(Rendered("", toks)) == Rendered("", toks[..|toks| - 1])
  {
    hide AddToken, IsToken;
    if toks != [] {
      RenderedLast("", toks);
      StarAdded(Rendered("", toks[..|toks| - 1]), toks[|toks| - 1]);
    }
  }

  /** A spaced text ends in `*` exactly if its last token is one. */
  lemma RenderedEndsInStar(toks: seq<Token>)
    requires AreTokens(toks)
    ensures EndsWith(Rendered("", toks), '*') <==> toks != [] && toks[|toks| - 1] == "*"
  {
    hide AddToken, IsToken;
    if toks != [] {
      var before, t := Rendered("", toks[..|toks| - 1]), toks[|toks| - 1];
      RenderedLast("", toks);
      if EndsWith(Rendered("", toks), '*') {
        StarAdded(before, t);
      }
      if t == "*" {
        AddTokenShape(before, t);
        assert Before(before, '*') + "*" + "" == Before(before, '*') + "*";
      }
    }
  }

  /** The written type ends in two stars, with or without blanks. */
  predicate EndsInTwoStars(toks: seq<Token>) {
    |toks| >= 2 && toks[|toks| - 1] == "*" && toks[|toks| - 2] == "*"
  }

  /** What is left after the final `*` is taken off ends in another one exactly if there were two. */
  lemma SecondStar(s: string)
    ensures EndsWith(Normalized(s), '*') <==> EndsInTwoStars(Tokens(s))
  {
    hide Rendered, Spaced;
    var toks := Tokens(s);
    LexGivesTokens("", s);
    SpacedIsRendered("", "", s, "", false);
    RenderedEndsInStar(toks);
    if EndsWith(Rendered("", toks), '*') {
      StarIsLastToken(toks);
      RenderedEndsInStar(toks[..|toks| - 1]);
    }
  }

  /** Applied to its own result it changes nothing exactly when the written type does not end in two stars. */
  lemma NormalizedTwice(s: string)
    ensures Normalized(Normalized(s)) == Normalized(s) <==> !EndsInTwoStars(Tokens(s))
  {
    hide Rendered, Spaced;
    var toks := Tokens(s);
    SecondStar(s);
    LexGivesTokens("", s);
    SpacedIsRendered("", "", s, "", false);
    SpacedTwice(toks);
    if EndsWith(Rendered("", toks), '*') {
      StarIsLastToken(toks);
      SpacedTwice(toks[..|toks| - 1]);
    }
  }

  lemma SpacedStep(out: string, s: string)
    requires s != "" && !IsBlank(s[0]) && s[0] != ',' && !Closes(s[0])
    ensures Spaced(out, false, s) == Spaced(out + [s[0]], false, s[1..])
  {
    assert out + [s[0]] + "" == out + [s[0]];
  }

  lemma NothingSpaced(out: string)
    ensures Spaced(out, false, "") == out
  {
  }

  /** `A**` loses one star at each pass. */
  lemma TwoStarsAreLostOneByOne()
    ensures Normalized("A**") == "A*" && Normalized("A*") == "A"
  {
    hide Spaced;
    SpacedStep("", "A**");
    assert "A**"[1..] == "**" && "" + ['A'] == "A";
    SpacedStep("A", "**");
    assert "**"[1..] == "*" && "A" + ['*'] == "A*";
    SpacedStep("A*", "*");
    assert "*"[1..] == "" && "A*" + ['*'] == "A**";
    NothingSpaced("A**");
    SpacedStep("", "A*");
    assert "A*"[1..] == "*";
    SpacedStep("A", "*");
    NothingSpaced("A*");
    assert DropLast("A**") == "A*" && DropLast("A*") == "A";
  }
}
