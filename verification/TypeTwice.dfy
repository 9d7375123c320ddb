/** Exactly when normalising a second time changes nothing, for every type of the grammar. */
module TypeTwice {
  import opened CText
  import opened Whitespace
  import opened NormalizeSpec
  import opened Signature
  import opened TypeGrammar
  import opened TypeRender
  import opened TypeCanonical
  import opened TypeReading
  import opened TypeIdempotence

  /** A type without a `const` between its last `*` and an `&`, and without that `&`. */
  function SettledType(m: CppType): CppType {
    if EndsConst(m.stars) && m.amps > 0 then m.(stars := Unconst(m.stars), amps := m.amps - 1) else m
  }

  /** What the code makes of a parameter type, with the `const` it loses. */
  function Kept(ty: CppType): CppType {
    var m := Meaning(ty);
    if ConstLeads(ty) && ty.amps > 0 then SettledType(m.(place := NoConst, amps := ty.amps - 1))
    else if ConstLeads(ty) && ty.stars != [] && !EndsConst(ty.stars) then m
    else if ConstTrails(ty) && ty.stars == [] && ty.amps > 0 then m.(place := NoConst, amps := ty.amps - 1)
    else SettledType(m.(place := NoConst))
  }

  // ----- names -----

  /** The length of `struct `, `class ` or `enum ` in front. */
  function Elaboration(b: string): (n: nat)
    ensures n <= |b|
  {
    if "struct " <= b then 7 else if "class " <= b then 6 else if "enum " <= b then 5 else 0
  }

  /** An elaborated name, or one of the `unsigned` types with a short name. */
  predicate IsShortened(b: string) {
    Elaboration(b) > 0 ||
    ("unsigned" <= b && (|b| == 8 || !IsIdentChar(b[8])) && UnsignedName(b[8..]).0 != "")
  }

  /** Names such as `struct struct A` or `enum unsigned int`, of which one pass removes the first word only. */
  predicate IsShortenedTwice(b: string) {
    Elaboration(b) > 0 && IsShortened(b[Elaboration(b)..])
  }

  predicate NoneShortenedTwice(ty: CppType)
    decreases ty, 1
  {
    !IsShortenedTwice(ty.base) && AllNotShortenedTwice(ty.args)
  }

  predicate AllNotShortenedTwice(tys: seq<CppType>)
    decreases tys, 0
  {
    tys == [] || (NoneShortenedTwice(tys[0]) && AllNotShortenedTwice(tys[1..]))
  }

  /** A name changes exactly if it is shortened, and then it gets shorter. */
  lemma ShortNameShrinks(b: string)
    ensures |ShortName(b)| <= |b|
    ensures ShortName(b) == b <==> !IsShortened(b)
    ensures |ShortName(b)| == |b| ==> ShortName(b) == b
    ensures Elaboration(b) > 0 ==> ShortName(b) == b[Elaboration(b)..]
  {
    assert "" + b == b;
    if "unsigned" <= b {
      assert Elaboration(b) == 0 by { assert b[0] == 'u'; }
      UnsignedShrinks(b);
    } else {
      hide Elaboration;
      ElaboratedShrinks(b);
    }
  }

  lemma UnsignedShrinks(b: string)
    requires "unsigned" <= b
    ensures var short := (|b| == 8 || !IsIdentChar(b[8])) && UnsignedName(b[8..]).0 != "";
      if short then |ShortName(b)| < |b| else ShortName(b) == b
  {
    assert "" + b == b;
    assert |UnsignedName(b[8..]).0| <= 5;
  }

  lemma ElaboratedShrinks(b: string)
    requires !("unsigned" <= b)
    ensures ShortName(b) == b[Elaboration(b)..] && |ShortName(b)| == |b| - Elaboration(b)
  {
    var rest := b[Elaboration(b)..];
    assert Simplify(b) == Step("", rest);
    assert "" + rest == rest;
  }

  /** The new names are not shortened again. */
  lemma NewNamesStay(b: string)
    requires Elaboration(b) == 0
    ensures !IsShortened(ShortName(b))
  {
    ShortNameShrinks(b);
    if IsShortened(b) {
      var (name, covered) := UnsignedName(b[8..]);
      var n := ShortName(b);
      assert n == name + b[8 + covered..];
      assert n[0] == 'u' && n[1] == name[1];
    }
  }

  lemma ShortenedTwiceExactly(b: string)
    ensures ShortName(ShortName(b)) == ShortName(b) <==> !IsShortenedTwice(b)
  {
    hide ShortName, IsShortened;
    ShortNameShrinks(b);
    ShortNameShrinks(ShortName(b));
    if Elaboration(b) == 0 {
      NewNamesStay(b);
    }
  }

  lemma {:induction false} MeaningIsSettled(ty: CppType)
    ensures Meaning(Meaning(ty)) == Meaning(ty) <==> NoneShortenedTwice(ty)
    decreases ty, 1
  {
    hide ShortName, IsShortenedTwice;
    ShortenedTwiceExactly(ty.base);
    AllMeaningsAreSettled(ty.args);
  }

  lemma {:induction false} AllMeaningsAreSettled(tys: seq<CppType>)
    ensures MeaningAll(MeaningAll(tys)) == MeaningAll(tys) <==> AllNotShortenedTwice(tys)
    decreases tys, 0
  {
    hide Meaning, NoneShortenedTwice;
    if tys != [] {
      MeaningIsSettled(tys[0]);
      AllMeaningsAreSettled(tys[1..]);
      var ms := MeaningAll(tys);
      assert ms[0] == Meaning(tys[0]) && ms[1..] == MeaningAll(tys[1..]);
      var mms := MeaningAll(ms);
      assert mms[0] == Meaning(ms[0]) && mms[1..] == MeaningAll(ms[1..]);
      assert ms == [ms[0]] + ms[1..] && mms == [mms[0]] + mms[1..];
    }
  }

  /** A spelling with changed names is shorter. */
  lemma {:induction false} SpellShrinks(m: CppType)
    requires m.place != Behind
    requires IsMeaning(m)
    ensures |Spell(Meaning(m))| <= |Spell(m)|
    ensures |Spell(Meaning(m))| == |Spell(m)| ==> Meaning(m) == m
    decreases m, 1
  {
    hide ShortName, Suffix, SpellAll, IsName;
    ShortNameShrinks(m.base);
    AllSpellShrink(m.args);
  }

  lemma {:induction false} AllSpellShrink(ms: seq<CppType>)
    requires AllAreMeanings(ms)
    ensures MeaningAll(ms) == [] <==> ms == []
    ensures ms != [] ==> |SpellAll(MeaningAll(ms))| <= |SpellAll(ms)|
    ensures ms != [] && |SpellAll(MeaningAll(ms))| == |SpellAll(ms)| ==> MeaningAll(ms) == ms
    decreases ms, 0
  {
    hide Meaning, Spell;
    if ms != [] {
      assert ms[0].place != Behind by { MeaningPlace(ms[0]); }
      SpellShrinks(ms[0]);
      AllSpellShrink(ms[1..]);
      var ns := MeaningAll(ms);
      assert ns[0] == Meaning(ms[0]) && ns[1..] == MeaningAll(ms[1..]);
      assert ms == [ms[0]] + ms[1..];
    }
  }

  lemma MeaningPlace(m: CppType)
    requires IsMeaning(m)
    ensures m.place != Behind
  {
  }

  // ----- what the code produces is a spelling of what it keeps -----

  /** A rendered body with `const` and a suffix around it, and the type that this text is a spelling of. */
  function Form(place: ConstPlace, ty: CppType, closer: bool, stars: seq<bool>, amps: nat): string {
    (if place == InFront then CONST_SPACE else "") + RenderBody(ty, closer) + Suffix(stars, amps)
  }

  function FormType(place: ConstPlace, ty: CppType, stars: seq<bool>, amps: nat): CppType {
    CppType(place, ShortName(ty.base), MeaningAll(ty.args), stars, amps)
  }

  /** The space asked for behind the arguments. */
  function CloserText(closer: bool): string {
    if closer then " " else ""
  }

  lemma Regroup(l: string, b: string, a: string, c: string, s: string, x: string)
    ensures l + (b + ("<" + a + ">" + c)) + s + x == (l + b + "<") + (a + (">" + (c + (s + x))))
  {
  }

  lemma FormParts(place: ConstPlace, ty: CppType, closer: bool, stars: seq<bool>, amps: nat, x: string)
    requires place != Behind
    ensures var m, f := FormType(place, ty, stars, amps), Form(place, ty, closer, stars, amps);
      if ty.args == [] then
        f + x == Front(m) + (Suffix(stars, amps) + x) && Spell(m) == Front(m) + Suffix(stars, amps)
      else
        f + x == (Front(m) + "<") + (RenderAll(ty.args) + (">" + (CloserText(closer) + (Suffix(stars, amps) + x))))
        && Spell(m) == (Front(m) + "<") + (SpellAll(m.args) + (">" + Suffix(stars, amps)))
  {
    hide Suffix, RenderAll, SpellAll, ShortName;
    var m := FormType(place, ty, stars, amps);
    FormsOf(m, x);
    var l, b, s := if place == InFront then CONST_SPACE else "", m.base, Suffix(stars, amps);
    if ty.args == [] {
      assert Form(place, ty, closer, stars, amps) + x == l + (b + "") + s + x;
    } else {
      var a, c := RenderAll(ty.args), CloserText(closer);
      assert RenderBody(ty, closer) == b + ("<" + a + ">" + c);
      assert Form(place, ty, closer, stars, amps) + x == l + (b + ("<" + a + ">" + c)) + s + x;
      Regroup(l, b, a, c, s, x);
    }
  }

  /** The space in front of a closer goes. */
  lemma SqueezeCloserText(closer: bool, y: string)
    requires closer ==> y != "" && y[0] == '>'
    ensures Squeeze(CloserText(closer) + y, '>') == Squeeze(y, '>')
  {
    if closer {
      var t := " " + y;
      assert t[1..] == y && t[0] == ' ';
      assert DropSpaces(t) == y;
    } else {
      assert "" + y == y;
    }
  }

  lemma {:induction false} SqueezeForm(place: ConstPlace, ty: CppType, closer: bool, stars: seq<bool>, amps: nat,
      x: string, last: char)
    requires WellFormed(ty) && place != Behind
    requires closer ==> stars == [] && amps == 0 && x != "" && x[0] == '>'
    ensures var m := FormType(place, ty, stars, amps);
      Spell(m) != "" &&
      Squeeze(Form(place, ty, closer, stars, amps) + x, last) == Spell(m) + Squeeze(x, Spell(m)[|Spell(m)| - 1])
    decreases ty, 1
  {
    hide Suffix, RenderAll, SpellAll, Squeeze, Spell, Form, Tight, Front, IsBase, ShortName, CloserText, MeaningAll;
    var m, s := FormType(place, ty, stars, amps), Suffix(stars, amps);
    FormParts(place, ty, closer, stars, amps, x);
    FormTypeIsWellFormed(place, ty, stars, amps);
    FrontIsTight(m, last);
    SuffixEmpty(stars, amps);
    var f := Front(m);
    if ty.args == [] {
      SqueezePrefix(f, s + x, last);
      SqueezeSuffix(stars, amps, x, f[|f| - 1]);
      assert s == "" ==> Spell(m) == f;
      Assoc(f, s, Squeeze(x, Spell(m)[|Spell(m)| - 1]));
    } else {
      var y := CloserText(closer) + (s + x);
      var rest := RenderAll(ty.args) + (">" + y);
      SqueezePrefix(f, "<" + rest, last);
      SqueezeCharacter('<', rest, f[|f| - 1]);
      SqueezeAllForms(ty.args, y, '<');
      assert closer ==> s + x == x;
      SqueezeCloserText(closer, s + x);
      SqueezeSuffix(stars, amps, x, '>');
      SpelledParts(f, SpellAll(m.args), s, Squeeze(x, Spell(m)[|Spell(m)| - 1]));
      Assoc(f, "<", rest);
    }
  }

  lemma FormTypeIsWellFormed(place: ConstPlace, ty: CppType, stars: seq<bool>, amps: nat)
    requires WellFormed(ty) && place != Behind
    ensures WellFormed(FormType(place, ty, stars, amps)) && IsMeaning(FormType(place, ty, stars, amps))
    ensures FormType(place, ty, stars, amps).args == [] <==> ty.args == []
  {
    hide IsBase, IsName, ShortName;
    MeaningIsWellFormed(ty);
  }

  lemma {:induction false} SqueezeAllForms(tys: seq<CppType>, y: string, last: char)
    requires tys != [] && AllWellFormed(tys)
    ensures Squeeze(RenderAll(tys) + (">" + y), last) == SpellAll(MeaningAll(tys)) + (">" + Squeeze(y, '>'))
    decreases tys, 2
  {
    hide Squeeze, Spell, Form, WellFormed, RenderArg, Meaning, SpellTail;
    var ty, m := tys[0], Meaning(tys[0]);
    var w := Spell(m);
    var only := |tys| == 1;
    var rest := if only then ">" + y else "," + (RenderAll(tys[1..]) + (">" + y));
    ArgumentForm(ty, only);
    SqueezeForm(m.place, ty, only && SpellTail(ty) == "", ty.stars, ty.amps, rest, last);
    if only {
      assert RenderAll(tys) == RenderArg(ty, true) + "" == RenderArg(ty, true);
      SqueezeCharacter('>', y, w[|w| - 1]);
      assert ['>'] + y == ">" + y;
      assert SpellAll(MeaningAll(tys)) == w + "" == w;
    } else {
      var more := MeaningAll(tys[1..]);
      assert MeaningAll(tys)[1..] == more;
      Assoc(RenderArg(ty, false), "," + RenderAll(tys[1..]), ">" + y);
      Assoc(",", RenderAll(tys[1..]), ">" + y);
      SqueezeCharacter(',', RenderAll(tys[1..]) + (">" + y), w[|w| - 1]);
      SqueezeAllForms(tys[1..], y, ',');
      Assoc(w, "," + SpellAll(more), ">" + Squeeze(y, '>'));
      Assoc(",", SpellAll(more), ">" + Squeeze(y, '>'));
    }
  }

  lemma ArgumentForm(ty: CppType, last: bool)
    ensures var m, closer := Meaning(ty), last && SpellTail(ty) == "";
      && m.place != Behind && m == FormType(m.place, ty, ty.stars, ty.amps)
      && RenderArg(ty, last) == Form(m.place, ty, closer, ty.stars, ty.amps)
      && (closer ==> ty.stars == [] && ty.amps == 0)
  {
    hide RenderBody, ShortName, MeaningAll, Suffix;
    SuffixEmpty(ty.stars, ty.amps);
  }

  lemma TopForm(ty: CppType)
    ensures var k := Kept(ty);
      && k.place != Behind && k == FormType(k.place, ty, k.stars, k.amps)
      && RenderTop(ty) == Form(k.place, ty, false, k.stars, k.amps)
  {
    hide RenderBody, ShortName, MeaningAll, Suffix;
    var k, body := Kept(ty), RenderBody(ty, false);
    assert "" + body == body;
    if k.place == InFront {
      assert CONST_SPACE + (body + Suffix(k.stars, 0)) == CONST_SPACE + body + Suffix(k.stars, 0);
    }
  }

  // ----- the normal form of the normal form -----

  /** The result falls short of the kept type's canonical text only by lost closers. */
  lemma TopMatchesKept(ty: CppType)
    requires WellFormed(ty)
    ensures Matches(RenderTop(ty), Write(Kept(ty)), KeepsClosers(ty))
  {
    hide RenderBody, WriteBody, KeepsClosers, Suffix, Matches, Kept, RenderTop, ShortName, MeaningAll, WellFormed;
    var k, m := Kept(ty), Meaning(ty);
    TopForm(ty);
    BodyMatches(ty);
    SameBody(m, k);
    var l := if k.place == InFront then CONST_SPACE else "";
    MatchesAround(l, RenderBody(ty, false), WriteBody(m), Suffix(k.stars, k.amps), KeepsClosers(ty));
  }

  lemma KeptIsMeaning(ty: CppType)
    requires WellFormed(ty)
    ensures var k := Kept(ty); WellFormed(k) && IsMeaning(k) && KeepsClosers(k)
  {
    hide WellFormed, IsMeaning, KeepsClosers, Kept, FormType;
    var k := Kept(ty);
    TopForm(ty);
    FormTypeIsWellFormed(k.place, ty, k.stars, k.amps);
    MeaningsKeepClosers(k);
  }

  /** Once kept, a type changes only by its names. */
  lemma KeptTwice(ty: CppType)
    ensures Kept(Kept(ty)) == Meaning(Kept(ty))
    ensures Kept(Kept(ty)) == Kept(ty) <==> NoneShortenedTwice(ty)
  {
    hide ShortName, MeaningAll, NoneShortenedTwice;
    MeaningIsSettled(ty);
  }

  /** The result is a spelling of the kept type. */
  lemma ResultSpells(ty: CppType)
    requires WellFormed(ty)
    ensures '\0' !in RenderTop(ty) && RemoveWhitespace(RenderTop(ty)) == Spell(Kept(ty))
    ensures Spells(RenderTop(ty), Kept(ty))
  {
    hide RenderTop, Kept, Spell, Squeeze, WellFormed, Form, FormType, IsMeaning, KeepsClosers, Tokens;
    var r, k := RenderTop(ty), Kept(ty);
    TopForm(ty);
    SqueezeForm(k.place, ty, false, k.stars, k.amps, "", '\0');
    NothingSqueezed();
    assert r + "" == r && Spell(k) + "" == Spell(k);
    KeptIsMeaning(ty);
    SpellIsNulFree(k);
    NulSurvives(r, '\0');
    RemoveWhitespaceKeepsTokens(r);
  }

  lemma NormalFormOfResult(ty: CppType)
    requires WellFormed(ty)
    ensures '\0' !in RenderTop(ty) && NormalizedTypeOf(RenderTop(ty)) == Write(Kept(Kept(ty)))
  {
    hide *;
    ResultSpells(ty);
    KeptIsMeaning(ty);
    NormalizedTypeIsRendered(RenderTop(ty), Kept(ty));
    TopMatchesKept(Kept(ty));
    MatchIsEqual(RenderTop(Kept(ty)), Write(Kept(Kept(ty))));
  }

  lemma MatchIsEqual(r: string, w: string)
    requires Matches(r, w, true)
    ensures r == w
  {
  }

  /** Equal canonical texts come from equal kept types. */
  lemma SameWrite(k: CppType, k': CppType)
    requires IsMeaning(k) && IsMeaning(k') && Write(k) == Write(k')
    ensures k == k'
  {
    hide *;
    EndFollows(k);
    EndFollows(k');
    assert Write(k) + "" == Write(k') + "";
    UniqueReading(k, "", k', "");
  }

  /** A result with lost closers is no canonical text at all. */
  lemma LostClosersAreRestored(ty: CppType)
    requires WellFormed(ty) && !KeepsClosers(ty)
    ensures RenderTop(ty) != Write(Kept(Kept(ty)))
  {
    hide RenderTop, Kept, Spell, Write, WellFormed, IsMeaning, KeepsClosers, Meaning, NoneShortenedTwice;
    var k := Kept(ty);
    var k2 := Kept(k);
    TopMatchesKept(ty);
    KeptTwice(ty);
    KeptIsMeaning(ty);
    KeptIsMeaning(k);
    if RenderTop(ty) == Write(k2) {
      ResultSpells(ty);
      WrittenSpells(k2);
      AnySpacingSqueezesToSpelling(Write(k2), k2);
      assert Spell(k) == Spell(k2);
      MeaningPlace(k);
      SpellShrinks(k);
    }
  }

  /**
   * For every type and spelling: normalising the normal form again changes nothing exactly when no
   * closer was lost and no name is shortened twice.
   */
  lemma NormalisedTwice(text: CString, ty: CppType)
    requires Spells(text, ty)
    ensures '\0' !in NormalizedTypeOf(text)
    ensures NormalizedTypeOf(NormalizedTypeOf(text)) == NormalizedTypeOf(text)
        <==> KeepsClosers(ty) && NoneShortenedTwice(ty)
  {
    hide *;
    SpelledIsWellFormed(text, ty);
    NormalizedTypeIsRendered(text, ty);
    NormalFormOfResult(ty);
    TopMatchesKept(ty);
    KeptTwice(ty);
    KeptIsMeaning(ty);
    KeptIsMeaning(Kept(ty));
    if !KeepsClosers(ty) {
      LostClosersAreRestored(ty);
    } else {
      MatchIsEqual(RenderTop(ty), Write(Kept(ty)));
      if Write(Kept(Kept(ty))) == Write(Kept(ty)) {
        SameWrite(Kept(Kept(ty)), Kept(ty));
      }
    }
  }
}
