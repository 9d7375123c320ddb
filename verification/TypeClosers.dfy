/** Exactly when two types are given one normal form, the closers each of them loses included. */
module TypeClosers {
  import opened CText
  import opened Signature
  import opened TypeGrammar
  import opened TypeRender
  import opened TypeCanonical
  import opened TypeReading
  import opened TypeIdempotence
  import opened TypeTwice

  // ----- the canonical text is determined by the spelling -----

  /** The text with a space between each two `>`. */
  function Respace(s: string): string {
    if s == "" then ""
    else if s[0] == '>' && |s| > 1 && s[1] == '>' then "> " + Respace(s[1..])
    else [s[0]] + Respace(s[1..])
  }

  /** What is put behind a text that ends in `>`. */
  function Gap(closes: bool, x: string): string {
    if closes && x != "" && x[0] == '>' then " " else ""
  }

  lemma {:induction false} RespacePlain(p: string, x: string)
    requires '>' !in p
    ensures Respace(p + x) == p + Respace(x)
    decreases |p|
  {
    if p == "" {
      assert p + x == x;
    } else {
      assert (p + x)[1..] == p[1..] + x && (p + x)[0] == p[0];
      RespacePlain(p[1..], x);
      Assoc([p[0]], p[1..], Respace(x));
      assert [p[0]] + p[1..] == p;
    }
  }

  lemma RespaceCloser(x: string)
    ensures Respace(">" + x) == ">" + Gap(true, x) + Respace(x)
  {
    assert (">" + x)[1..] == x;
    assert x != "" ==> (">" + x)[1] == x[0];
    assert "> " == ">" + " ";
  }

  lemma SuffixHasNoCloser(stars: seq<bool>, amps: nat)
    ensures '>' !in Suffix(stars, amps)
  {
    hide Suffix;
    SuffixChars(stars, amps);
  }

  lemma FrontHasNoCloser(m: CppType)
    requires IsMeaning(m)
    ensures '>' !in Front(m)
  {
    assert forall i :: 0 <= i < |m.base| ==> IsNameChar(m.base[i]);
  }

  /** The closing `>` of a list, the suffix, and what follows. */
  lemma RespaceEnd(m: CppType, x: string)
    requires m.args != []
    ensures var s := Suffix(m.stars, m.amps);
      Respace(">" + (s + x)) == ">" + (s + (Gap(Closes(m), x) + Respace(x)))
  {
    hide Suffix, Respace;
    var s := Suffix(m.stars, m.amps);
    SuffixEmpty(m.stars, m.amps);
    SuffixHasNoCloser(m.stars, m.amps);
    RespaceCloser(s + x);
    RespacePlain(s, x);
    if s == "" {
      assert s + x == x;
      assert ">" + Gap(true, x) + Respace(x) == ">" + (s + (Gap(true, x) + Respace(x)));
    } else {
      assert (s + x)[0] == s[0] != '>';
      assert ">" + "" + (s + Respace(x)) == ">" + (s + ("" + Respace(x)));
    }
  }

  lemma {:induction false} RespaceSpelling(m: CppType, x: string)
    requires IsMeaning(m)
    ensures Respace(Spell(m) + x) == Write(m) + (Gap(Closes(m), x) + Respace(x))
    decreases m, 1
  {
    hide Suffix, WriteAll, SpellAll, Respace, Write, Spell, Front, IsName, Gap;
    var f, s, z := Front(m), Suffix(m.stars, m.amps), Gap(Closes(m), x) + Respace(x);
    FormsOf(m, z);
    FrontHasNoCloser(m);
    SuffixHasNoCloser(m.stars, m.amps);
    if m.args == [] {
      Assoc(f, s, x);
      RespacePlain(f, s + x);
      RespacePlain(s, x);
      NoGapHere(m, x);
    } else {
      var i := SpellAll(m.args);
      SpellingAnd(f + "<", i, s, x);
      assert '>' !in f + "<";
      RespacePlain(f + "<", i + (">" + (s + x)));
      RespaceAll(m.args, s + x);
      RespaceEnd(m, x);
    }
  }

  lemma NoGapHere(m: CppType, x: string)
    requires m.args == []
    ensures Gap(Closes(m), x) + Respace(x) == Respace(x)
  {
    hide Respace;
  }

  lemma SpellingAnd(f: string, i: string, s: string, x: string)
    ensures f + (i + (">" + s)) + x == f + (i + (">" + (s + x)))
  {
  }

  lemma {:induction false} RespaceAll(ms: seq<CppType>, y: string)
    requires ms != [] && AllAreMeanings(ms)
    ensures Respace(SpellAll(ms) + (">" + y)) == WriteAll(ms) + Respace(">" + y)
    decreases ms, 2
  {
    hide Respace, Write, Spell, IsMeaning, WriteAll, SpellAll;
    var rest := if |ms| == 1 then ">" + y else "," + (SpellAll(ms[1..]) + (">" + y));
    SpellAllParts(ms, y, rest);
    RespaceSpelling(ms[0], rest);
    if |ms| == 1 {
      WriteOne(ms);
      Assoc(Write(ms[0]), Gap(Closes(ms[0]), rest), Respace(rest));
    } else {
      RespacePlain(",", SpellAll(ms[1..]) + (">" + y));
      RespaceAll(ms[1..], y);
      WriteMore(ms);
      Assoc(",", WriteAll(ms[1..]), Respace(">" + y));
      Assoc(Write(ms[0]), "," + WriteAll(ms[1..]), Respace(">" + y));
      assert "" + Respace(rest) == Respace(rest);
    }
  }

  lemma SpellAllParts(ms: seq<CppType>, y: string, rest: string)
    requires ms != [] && rest == if |ms| == 1 then ">" + y else "," + (SpellAll(ms[1..]) + (">" + y))
    ensures SpellAll(ms) + (">" + y) == Spell(ms[0]) + rest
  {
    hide Spell;
    if |ms| > 1 {
      Assoc(Spell(ms[0]), "," + SpellAll(ms[1..]), ">" + y);
      Assoc(",", SpellAll(ms[1..]), ">" + y);
    } else {
      assert Spell(ms[0]) + "" == Spell(ms[0]);
    }
  }

  lemma WriteOne(ms: seq<CppType>)
    requires |ms| == 1 && AllAreMeanings(ms)
    ensures forall y :: WriteAll(ms) == Write(ms[0]) + Gap(Closes(ms[0]), ">" + y)
  {
    hide Write, IsMeaning;
    MeaningEnd(ms[0]);
  }

  lemma WriteMore(ms: seq<CppType>)
    requires |ms| > 1
    ensures WriteAll(ms) == Write(ms[0]) + ("," + WriteAll(ms[1..]))
  {
    hide Write;
  }

  /** A meaning is known by its spelling. */
  lemma SameSpelling(m: CppType, m': CppType)
    requires IsMeaning(m) && IsMeaning(m') && Spell(m) == Spell(m')
    ensures m == m'
  {
    hide Respace, Spell, Write, IsMeaning;
    RespaceSpelling(m, "");
    RespaceSpelling(m', "");
    assert Spell(m) + "" == Spell(m') + "";
    assert Gap(Closes(m), "") + Respace("") == "" by { NothingRespaced(); }
    assert Gap(Closes(m'), "") + Respace("") == "" by { NothingRespaced(); }
    assert Write(m) + "" == Write(m) && Write(m') + "" == Write(m');
    SameWrite(m, m');
  }

  lemma NothingRespaced()
    ensures Respace("") == ""
  {
  }

  // ----- which closers are written -----

  /** For each argument list that is a last argument, in the order of the text: whether its space is written. */
  function ClosersOf(ty: CppType): seq<bool>
    decreases ty, 0
  {
    if ty.args == [] then [] else ClosersIn(ty.args)
  }

  function ClosersIn(tys: seq<CppType>): seq<bool>
    requires tys != []
    decreases tys, 1
  {
    ClosersOf(tys[0]) + (if |tys| == 1 then OwnCloser(tys[0]) else ClosersIn(tys[1..]))
  }

  /** The space behind the type itself as a last argument, if there is to be one. */
  function OwnCloser(ty: CppType): seq<bool> {
    if CloserOf(ty) == "" then [] else [!LosesCloser(ty)]
  }

  /** The space that is in fact written. */
  function CloserWritten(ty: CppType): string {
    if OwnCloser(ty) == [true] then " " else ""
  }

  /** The texts of one argument in front of `x`. */
  lemma ArgumentParts(ty: CppType, last: bool, x: string)
    ensures var m, c := Meaning(ty), if last then CloserWritten(ty) else "";
      m.place != Behind &&
      if ty.args == [] then RenderArg(ty, last) + x == Front(m) + (Suffix(ty.stars, ty.amps) + x)
      else
        RenderArg(ty, last) + x
        == (Front(m) + "<") + (RenderAll(ty.args) + (">" + (c + (Suffix(ty.stars, ty.amps) + x))))
  {
    hide Suffix, RenderAll, SpellAll, ShortName, Form, RenderArg, MeaningAll;
    var m := Meaning(ty);
    var closer := last && SpellTail(ty) == "";
    SuffixEmpty(ty.stars, ty.amps);
    ArgumentForm(ty, last);
    FormParts(m.place, ty, closer, ty.stars, ty.amps, x);
    if ty.args != [] {
      assert closer <==> last && OwnCloser(ty) == [true];
    }
  }

  lemma CloserEnds(ty: CppType, ty': CppType, last: bool, x: string, x': string)
    requires ty.args != [] && ty'.args != [] && ty.stars == ty'.stars && ty.amps == ty'.amps
    requires (x != "" ==> x[0] != ' ') && (x' != "" ==> x'[0] != ' ')
    requires var s := Suffix(ty.stars, ty.amps);
      var c, c' := if last then CloserWritten(ty) else "", if last then CloserWritten(ty') else "";
      c + (s + x) == c' + (s + x')
    ensures x == x' && (last ==> OwnCloser(ty) == OwnCloser(ty'))
  {
    var s := Suffix(ty.stars, ty.amps);
    var c, c' := if last then CloserWritten(ty) else "", if last then CloserWritten(ty') else "";
    SuffixEmpty(ty.stars, ty.amps);
    hide Suffix;
    if s != "" {
      assert c == "" && c' == "";
      assert "" + (s + x) == s + x && "" + (s + x') == s + x';
      assert x == (s + x)[|s|..] && x' == (s + x')[|s|..];
    } else {
      assert s + x == x && s + x' == x';
      assert c != "" ==> (c + x)[0] == ' ';
      assert c' != "" ==> (c' + x')[0] == ' ';
      assert c == c';
      assert x == (c + x)[|c|..] && x' == (c' + x')[|c|..];
    }
  }

  /** Arguments with one meaning and one text lose the same closers. */
  lemma {:induction false} SameArgument(ty: CppType, ty': CppType, last: bool, x: string, x': string)
    requires Meaning(ty) == Meaning(ty')
    requires (x != "" ==> x[0] != ' ') && (x' != "" ==> x'[0] != ' ')
    requires RenderArg(ty, last) + x == RenderArg(ty', last) + x'
    ensures ClosersOf(ty) == ClosersOf(ty') && x == x' && (last ==> OwnCloser(ty) == OwnCloser(ty'))
    decreases ty, 0
  {
    hide Suffix, RenderAll, RenderArg, ClosersIn, Front, ShortName, CloserWritten, OwnCloser;
    var f, s := Front(Meaning(ty)), Suffix(ty.stars, ty.amps);
    ArgumentParts(ty, last, x);
    ArgumentParts(ty', last, x');
    if ty.args == [] {
      BehindFront(f, s + x, s + x');
      BehindFront(s, x, x');
      NoOwnCloser(ty);
      NoOwnCloser(ty');
    } else {
      var c, c' := if last then CloserWritten(ty) else "", if last then CloserWritten(ty') else "";
      BehindFront(f + "<", RenderAll(ty.args) + (">" + (c + (s + x))), RenderAll(ty'.args) + (">" + (c' + (s + x'))));
      SameArguments(ty.args, ty'.args, c + (s + x), c' + (s + x'));
      CloserEnds(ty, ty', last, x, x');
    }
  }

  lemma NoOwnCloser(ty: CppType)
    requires ty.args == []
    ensures OwnCloser(ty) == []
  {
  }

  lemma BehindFront(f: string, x: string, x': string)
    requires f + x == f + x'
    ensures x == x'
  {
    assert x == (f + x)[|f|..] && x' == (f + x')[|f|..];
  }

  lemma {:induction false} SameArguments(tys: seq<CppType>, tys': seq<CppType>, y: string, y': string)
    requires tys != [] && MeaningAll(tys) == MeaningAll(tys')
    requires tys' != [] && RenderAll(tys) + (">" + y) == RenderAll(tys') + (">" + y')
    ensures ClosersIn(tys) == ClosersIn(tys') && y == y'
    decreases tys, 1
  {
    hide Meaning, RenderArg, ClosersOf, OwnCloser;
    var ms := MeaningAll(tys);
    assert |tys| == |tys'|;
    assert ms[0] == Meaning(tys[0]) == Meaning(tys'[0]);
    var only := |tys| == 1;
    if only {
      assert RenderAll(tys) == RenderArg(tys[0], true) + "" == RenderArg(tys[0], true);
      assert RenderAll(tys') == RenderArg(tys'[0], true) + "" == RenderArg(tys'[0], true);
      SameArgument(tys[0], tys'[0], true, ">" + y, ">" + y');
      BehindFront(">", y, y');
    } else {
      var more, more' := RenderAll(tys[1..]) + (">" + y), RenderAll(tys'[1..]) + (">" + y');
      RenderMore(tys, y);
      RenderMore(tys', y');
      SameArgument(tys[0], tys'[0], false, "," + more, "," + more');
      BehindFront(",", more, more');
      assert ms[1..] == MeaningAll(tys[1..]) == MeaningAll(tys'[1..]);
      SameArguments(tys[1..], tys'[1..], y, y');
    }
  }

  lemma RenderMore(tys: seq<CppType>, y: string)
    requires |tys| > 1
    ensures RenderAll(tys) + (">" + y) == RenderArg(tys[0], false) + ("," + (RenderAll(tys[1..]) + (">" + y)))
  {
    hide RenderArg;
    Assoc(RenderArg(tys[0], false), "," + RenderAll(tys[1..]), ">" + y);
    Assoc(",", RenderAll(tys[1..]), ">" + y);
  }

  /** How many closers there are depends on the meaning only. */
  lemma {:induction false} ClosersCount(ty: CppType, ty': CppType)
    requires Meaning(ty) == Meaning(ty')
    ensures |ClosersOf(ty)| == |ClosersOf(ty')| && |OwnCloser(ty)| == |OwnCloser(ty')|
    decreases ty, 0
  {
    hide ShortName;
    if ty.args != [] {
      ClosersCountAll(ty.args, ty'.args);
    }
  }

  lemma {:induction false} ClosersCountAll(tys: seq<CppType>, tys': seq<CppType>)
    requires tys != [] && tys' != [] && MeaningAll(tys) == MeaningAll(tys')
    ensures |ClosersIn(tys)| == |ClosersIn(tys')|
    decreases tys, 1
  {
    hide Meaning, ClosersOf, OwnCloser;
    var ms := MeaningAll(tys);
    assert |tys| == |tys'| && ms[0] == Meaning(tys[0]) == Meaning(tys'[0]);
    ClosersCount(tys[0], tys'[0]);
    if |tys| > 1 {
      assert ms[1..] == MeaningAll(tys[1..]) == MeaningAll(tys'[1..]);
      ClosersCountAll(tys[1..], tys'[1..]);
    }
  }

  lemma {:induction false} SameClosers(ty: CppType, ty': CppType, last: bool)
    requires Meaning(ty) == Meaning(ty') && ClosersOf(ty) == ClosersOf(ty')
    requires last ==> OwnCloser(ty) == OwnCloser(ty')
    ensures RenderArg(ty, last) == RenderArg(ty', last)
    decreases ty, 0
  {
    hide Suffix, RenderAll, RenderArg, ClosersIn, Front, ShortName, OwnCloser;
    ArgumentParts(ty, last, "");
    ArgumentParts(ty', last, "");
    assert RenderArg(ty, last) + "" == RenderArg(ty, last) && RenderArg(ty', last) + "" == RenderArg(ty', last);
    if ty.args != [] {
      SameClosersIn(ty.args, ty'.args);
    }
  }

  lemma Halves(a: seq<bool>, b: seq<bool>, a': seq<bool>, b': seq<bool>)
    requires |a| == |a'| && a + b == a' + b'
    ensures a == a' && b == b'
  {
    assert a == (a + b)[..|a|] && a' == (a' + b')[..|a|];
    assert b == (a + b)[|a|..] && b' == (a' + b')[|a|..];
  }

  lemma {:induction false} SameClosersIn(tys: seq<CppType>, tys': seq<CppType>)
    requires tys != [] && tys' != [] && MeaningAll(tys) == MeaningAll(tys') && ClosersIn(tys) == ClosersIn(tys')
    ensures RenderAll(tys) == RenderAll(tys')
    decreases tys, 1
  {
    hide Meaning, RenderArg, ClosersOf, OwnCloser;
    var ms := MeaningAll(tys);
    assert |tys| == |tys'| && ms[0] == Meaning(tys[0]) == Meaning(tys'[0]);
    ClosersCount(tys[0], tys'[0]);
    var rest := if |tys| == 1 then OwnCloser(tys[0]) else ClosersIn(tys[1..]);
    var rest' := if |tys| == 1 then OwnCloser(tys'[0]) else ClosersIn(tys'[1..]);
    Halves(ClosersOf(tys[0]), rest, ClosersOf(tys'[0]), rest');
    SameClosers(tys[0], tys'[0], |tys| == 1);
    if |tys| > 1 {
      assert ms[1..] == MeaningAll(tys[1..]) == MeaningAll(tys'[1..]);
      SameClosersIn(tys[1..], tys'[1..]);
    }
  }

  // ----- whole types -----

  /** The rendered text of a whole type, from its arguments. */
  lemma TopParts(ty: CppType)
    ensures var k := Kept(ty);
      if ty.args == [] then RenderTop(ty) == Front(k) + Suffix(k.stars, k.amps)
      else RenderTop(ty) == (Front(k) + "<") + (RenderAll(ty.args) + (">" + Suffix(k.stars, k.amps)))
  {
    hide Suffix, RenderAll, SpellAll, ShortName, Form, RenderTop, MeaningAll, Front;
    var k := Kept(ty);
    var s := Suffix(k.stars, k.amps);
    TopForm(ty);
    FormParts(k.place, ty, false, k.stars, k.amps, "");
    assert RenderTop(ty) + "" == RenderTop(ty) && s + "" == s && CloserText(false) + s == s;
  }

  lemma KeptArguments(ty: CppType)
    ensures Kept(ty).args == MeaningAll(ty.args) && (Kept(ty).args == [] <==> ty.args == [])
  {
    hide ShortName, MeaningAll;
  }

  /** One kept type, and texts that differ in closers only. */
  lemma TopsAgree(ty: CppType, ty': CppType)
    requires Kept(ty) == Kept(ty')
    ensures RenderTop(ty) == RenderTop(ty') <==> ClosersOf(ty) == ClosersOf(ty')
  {
    hide Suffix, RenderAll, RenderTop, Kept, Front, ClosersIn, MeaningAll;
    var k := Kept(ty);
    TopParts(ty);
    TopParts(ty');
    KeptArguments(ty);
    KeptArguments(ty');
    if ty.args != [] {
      var s := Suffix(k.stars, k.amps);
      if RenderTop(ty) == RenderTop(ty') {
        BehindFront(Front(k) + "<", RenderAll(ty.args) + (">" + s), RenderAll(ty'.args) + (">" + s));
        SameArguments(ty.args, ty'.args, s, s);
      }
      if ClosersOf(ty) == ClosersOf(ty') {
        SameClosersIn(ty.args, ty'.args);
      }
    }
  }

  /**
   * For all types and spellings: two normal forms are equal exactly when the code keeps the same of both types and
   * writes the same closers.
   */
  lemma EqualExactly(text: CString, ty: CppType, text': CString, ty': CppType)
    requires Spells(text, ty) && Spells(text', ty')
    ensures NormalizedTypeOf(text) == NormalizedTypeOf(text') <==>
      Kept(ty) == Kept(ty') && ClosersOf(ty) == ClosersOf(ty')
  {
    hide *;
    SpelledIsWellFormed(text, ty);
    SpelledIsWellFormed(text', ty');
    NormalizedTypeIsRendered(text, ty);
    NormalizedTypeIsRendered(text', ty');
    if RenderTop(ty) == RenderTop(ty') {
      ResultSpells(ty);
      ResultSpells(ty');
      KeptIsMeaning(ty);
      KeptIsMeaning(ty');
      SameSpelling(Kept(ty), Kept(ty'));
    }
    if Kept(ty) == Kept(ty') {
      TopsAgree(ty, ty');
    }
  }
}
