/** Where the written types of `fully-qualified-moc-types` have spaces once they are normalised. */
module MocLayout {
  import opened TokenTexts
  import opened MocTypes

  predicate IsWord(t: Token) {
    forall i :: 0 <= i < |t| ==> IsWordChar(t[i])
  }

  /** What stands between two neighbouring tokens: a space between words, and behind a comma that goes on. */
  function Gap(left: Token, right: Token): string {
    if IsWord(left) && IsWord(right) then " "
    else if left == "," && right != "," && right != "<" && right != ">" then " "
    else ""
  }

  /** The tokens with their gaps. */
  function Laid(toks: seq<Token>): string
    decreases |toks|
  {
    var n := |toks| - 1;
    if toks == [] then "" else if n == 0 then toks[0] else Laid(toks[..n]) + Gap(toks[n - 1], toks[n]) + toks[n]
  }

  /** A final comma has its space as well. */
  function LaidOut(toks: seq<Token>): string {
    Laid(toks) + (if toks != [] && toks[|toks| - 1] == "," then " " else "")
  }

  lemma LastCharacter(t: Token)
    requires IsToken(t)
    ensures t[|t| - 1] != ' ' && (IsWordChar(t[|t| - 1]) <==> IsWord(t)) && (IsWordChar(t[0]) <==> IsWord(t))
    ensures Closes(t[0]) <==> t == "," || t == "<" || t == ">"
    ensures t[|t| - 1] == ',' <==> t == ","
  {
    if |t| == 1 {
      assert t == [t[0]];
    } else {
      assert IsWordChar(t[0]);
    }
  }

  lemma {:induction false} LaidEnds(toks: seq<Token>)
    requires AreTokens(toks) && toks != []
    ensures var last := toks[|toks| - 1]; Laid(toks) != "" && Laid(toks)[|Laid(toks)| - 1] == last[|last| - 1]
  {
  }

  lemma OneMoreToken(toks: seq<Token>, t: Token)
    requires AreTokens(toks) && IsToken(t)
    ensures AddToken(LaidOut(toks), t) == LaidOut(toks + [t])
  {
    hide AddToken, Laid, IsWord, IsToken;
    var more, out := toks + [t], LaidOut(toks);
    assert more[..|toks|] == toks && more[|toks|] == t;
    AddTokenShape(out, t);
    LastCharacter(t);
    OneMoreLaid(toks, t);
    if toks != [] {
      var last := toks[|toks| - 1];
      LaidEnds(toks);
      LastCharacter(last);
      BeforeIs(Laid(toks), last, t);
    } else {
      assert out == "";
      assert Before("", t[0]) == "";
    }
  }

  lemma OneMoreLaid(toks: seq<Token>, t: Token)
    ensures Laid([]) == ""
    ensures Laid(toks + [t]) == if toks == [] then t else Laid(toks) + Gap(toks[|toks| - 1], t) + t
  {
    assert (toks + [t])[..|toks|] == toks;
  }

  lemma BeforeIs(laid: string, last: Token, t: Token)
    requires IsToken(last) && IsToken(t)
    requires laid != "" && laid[|laid| - 1] == last[|last| - 1]
    ensures Before(laid + (if last == "," then " " else ""), t[0]) == laid + Gap(last, t)
  {
    LastCharacter(last);
    LastCharacter(t);
    hide IsToken, IsWord;
    if last == "," {
      assert DropLast(laid + " ") == laid;
      assert laid + "" == laid;
    }
  }

  lemma {:induction false} RenderedIsLaidOut(toks: seq<Token>)
    requires AreTokens(toks)
    ensures Rendered("", toks) == LaidOut(toks)
    decreases |toks|
  {
    hide AddToken, IsToken, Laid;
    if toks == [] {
      OneMoreLaid([], ",");
    } else {
      var n := |toks| - 1;
      RenderedIsLaidOut(toks[..n]);
      RenderedLast("", toks);
      OneMoreToken(toks[..n], toks[n]);
      assert toks[..n] + [toks[n]] == toks;
    }
  }

  /** The normal form is the tokens with these gaps and nothing else, without a final star. */
  lemma NormalFormIsLaidOut(s: string)
    ensures var text := LaidOut(Tokens(s));
      Normalized(s) == if text != "" && text[|text| - 1] == '*' then text[..|text| - 1] else text
  {
    LexGivesTokens("", s);
    SpacedIsRendered("", "", s, "", false);
    RenderedIsLaidOut(Tokens(s));
  }
}
