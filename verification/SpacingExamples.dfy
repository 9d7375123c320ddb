/** One type in two spacings that are normalised differently. */
module SpacingExamples {
  import opened CText
  import opened TokenTexts
  import opened Whitespace
  import opened NormalizeSpec
  import opened NormalizeType
  import opened Signature
  import opened TypeLengths
  import opened TypeProof

  /** Texts that no keyword and no bracket stands in. */
  predicate IsIdle(s: string) {
    forall i :: 0 <= i < |s| ==> s[i] == 'A' || s[i] == 'B' || s[i] == ':' || s[i] == ' '
  }

  lemma NoKeywordFirst(s: string)
    requires s == "" || s[0] == 'A' || s[0] == 'B' || s[0] == ':' || s[0] == ' '
    ensures TakeConst(s) == Step("", s) && Simplify(s) == Step("", s)
    ensures !(CONST_SPACE <= s) && !StartsWithConst(s)
  {
    assert CONST[0] == 'c' && CONST_SPACE[0] == 'c';
  }

  lemma {:induction false} NoConstLater(s: string, i: nat)
    requires i >= 1 && 'c' !in s
    ensures ConstIndex(s, i) == |s|
    decreases |s| - i
  {
    if i < |s| {
      assert !ConstWordAt(s, i) by {
        assert s[i..][0] == s[i] != 'c' && CONST[0] == 'c';
      }
      NoConstLater(s, i + 1);
    }
  }

  /** The head of the normaliser leaves such a text alone. */
  lemma NothingAtTheHead(s: string, stop: char, adjustConst: bool)
    requires s == "" || s[0] == 'A' || s[0] == 'B' || s[0] == ':' || s[0] == ' '
    requires 'c' !in s
    ensures Normalize(s, stop, adjustConst) == Emit(s, stop, adjustConst, false, "")
  {
    hide Emit, ConstIndex, Simplify, TakeConst;
    NoConstLater(s, 1);
    NoKeywordFirst(s);
    assert "" + "" == "";
  }

  lemma {:induction false} IdleIsCopied(s: string, stop: char, adjustConst: bool, out: string)
    requires IsIdle(s)
    ensures Emit(s, stop, adjustConst, false, out) == out + s
    decreases |s|
  {
    if s == "" {
      assert out + s == out;
    } else {
      hide Emit;
      assert s[0] != '<' && s[0] != '*';
      assert |s| > 1 ==> s[1..][0] == s[1];
      NoKeywordFirst(s[1..]);
      EmitCopies(s, stop, adjustConst, false, out);
      IdleIsCopied(s[1..], stop, adjustConst, out + [s[0]]);
      assert out + [s[0]] + s[1..] == out + s;
    }
  }

  /** `A<t>` for an idle text `t`. */
  function Angle(t: string): string {
    "A" + ("<" + (t + ">"))
  }

  lemma ArgumentIsCopied(t: string)
    requires IsIdle(t)
    ensures Arguments(t + ">", '\0') == Step(t + ">", "")
  {
    hide Normalize, ArgLength, Arguments, Emit;
    var s := t + ">";
    assert Plain(t);
    SkipPlain(t, ">", 1);
    CloserEnds();
    LastArgument(s, '\0', |t|);
    assert s[..|t|] == t && s[|t| + 1..] == "" && s[|t|] == '>';
    assert IsIdle(t) && t != "" ==> t[0] in "AB: ";
    NothingAtTheHead(t, '>', false);
    IdleIsCopied(t, '>', false, "");
    assert "" + t == t && t + [s[|t|]] + "" == s;
  }

  lemma CloserEnds()
    ensures ArgLength(">", 1, 0) == 0
  {
  }

  lemma AngleIsCopied(t: string)
    requires IsIdle(t)
    ensures Normalize(Angle(t), '\0', true) == Angle(t)
  {
    hide Normalize, Emit, Arguments, StartsWithConst;
    var s := Angle(t);
    assert forall c :: c in s ==> c in "A<>" || c in t;
    NothingAtTheHead(s, '\0', true);
    assert s[1..] == "<" + (t + ">");
    EmitCopies(s, '\0', true, false, "");
    ArgumentIsCopied(t);
    EmitOpens(t + ">", '\0', true, "A");
    assert "" + [s[0]] == "A";
    assert PlaceConst("", true, false, s) == Step(s, "") by { NothingPlaced(s); }
    assert "A" + ("<" + (t + ">")) == s;
    IdleIsCopied("", '\0', true, s);
  }

  lemma NothingPlaced(out: string)
    ensures PlaceConst("", true, false, out) == Step(out, "")
  {
  }

  lemma AngleIsOneParameter(t: string)
    requires IsIdle(t) && '\0' !in Angle(t)
    ensures TypeLength(Angle(t), 0) == |Angle(t)|
    ensures Parameter(Angle(t), |Angle(t)|) == Angle(t)
  {
    hide Normalize, TypeLength;
    var s := Angle(t);
    assert Plain("A") && Plain(t);
    SkipPlain("A", "<" + (t + ">"), 0);
    SkipOpen(t + ">", 0);
    SkipPlain(t, ">", 1);
    assert ">" + "" == ">";
    SkipClose("", 1);
    NothingLeft();
    assert s[..|s|] == s && s[0] == 'A';
    AngleIsCopied(t);
  }

  lemma NothingLeft()
    ensures TypeLength("", 0) == 0
  {
  }

  /** Squeezed texts of this form are their own normal forms. */
  lemma AngleIsNormal(t: string)
    requires IsIdle(t) && Tight(Angle(t), '\0') && '\0' !in Angle(t)
    ensures NormalizedTypeOf(Angle(t)) == Angle(t)
  {
    hide Parameter, TypeLength, Tight;
    TightIsFixed(Angle(t), '\0');
    AngleIsOneParameter(t);
  }

  const WITH_BLANK: CString := "A< ::B>"
  const WITHOUT_BLANK: CString := "A<::B>"

  /** Both texts have the tokens `A`, `<`, `:`, `:`, `B`, `>`; the blank in the gap makes two normal forms of them. */
  lemma GapIsKept()
    ensures Tokens(WITH_BLANK) == Tokens(WITHOUT_BLANK)
    ensures GapsOf(WITH_BLANK) == [true] && GapsOf(WITHOUT_BLANK) == [false]
    ensures NormalizedTypeOf(WITH_BLANK) == WITH_BLANK && NormalizedTypeOf(WITHOUT_BLANK) == WITHOUT_BLANK
  {
    hide NormalizedTypeOf, Tokens, GapsOf;
    assert Angle(" ::B") == "A< ::B>" && Angle("::B") == "A<::B>";
    TwoSpacings();
    AngleIsNormal(" ::B");
    AngleIsNormal("::B");
    SameTokens();
    TheirGaps();
  }

  lemma TwoSpacings()
    ensures Tight("A< ::B>", '\0') && Tight("A<::B>", '\0') && IsIdle(" ::B") && IsIdle("::B")
  {
    var a, b := "A< ::B>", "A<::B>";
    forall i | 0 <= i < |a| ensures TightAt(a, '\0', i) {
      assert a[1] == '<' && a[3] == ':';
    }
    forall i | 0 <= i < |b| ensures TightAt(b, '\0', i) {
    }
  }

  lemma SameTokens()
    ensures Tokens("A< ::B>") == Tokens("A<::B>")
  {
    var a, b, c := "A< ::B>", "A<::B>", "::B>";
    assert a[1..] == "< ::B>" && b[1..] == "<::B>" && "" + ['A'] == "A";
    assert "< ::B>"[1..] == " ::B>" && "<::B>"[1..] == c && " ::B>"[1..] == c;
    assert Lex("", a) == Lex("A", "< ::B>") && Lex("", b) == Lex("A", "<::B>");
    assert Lex("", " ::B>") == [] + Lex("", c) == Lex("", c);
    assert Lex("A", "< ::B>") == Flush("A") + [['<']] + Lex("", " ::B>");
    assert Lex("A", "<::B>") == Flush("A") + [['<']] + Lex("", c);
  }

  lemma TheirGaps()
    ensures GapsOf("A< ::B>") == [true] && GapsOf("A<::B>") == [false]
  {
    hide Gaps;
    var rest := ":B>";
    assert Gaps(rest, ':', false) == [] by { RestHasNoGap(); }
    GapsStep('A', "< ::B>", '\0', false);
    GapsStep('<', " ::B>", 'A', false);
    GapsAfterOne("::B>", '<');
    GapsStep(':', rest, '<', true);
    GapsStep('A', "<::B>", '\0', false);
    GapsStep('<', "::B>", 'A', false);
    GapsStep(':', rest, '<', false);
    assert ['A'] + "< ::B>" == "A< ::B>" && ['<'] + " ::B>" == "< ::B>" && [' '] + "::B>" == " ::B>";
    assert [':'] + rest == "::B>" && ['A'] + "<::B>" == "A<::B>" && ['<'] + "::B>" == "<::B>";
  }

  lemma RestHasNoGap()
    ensures Gaps(":B>", ':', false) == []
  {
    hide Gaps;
    GapsStep(':', "B>", ':', false);
    GapsStep('B', ">", ':', false);
    GapsStep('>', "", 'B', false);
    NoGaps('>');
    assert [':'] + "B>" == ":B>" && ['B'] + ">" == "B>" && ['>'] + "" == ">";
  }
}
