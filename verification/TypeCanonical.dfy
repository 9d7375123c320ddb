/** The normal form a type ought to have, and exactly when the code produces it. */
module TypeCanonical {
  import opened CText
  import opened Whitespace
  import opened NormalizeSpec
  import opened Signature
  import opened TypeGrammar
  import opened TypeLengths
  import opened TypeRender
  import opened TypeProof

  /** The type itself, whatever the place its `const` is written at, with the short name for what has one. */
  function Meaning(ty: CppType): CppType
    decreases ty, 1
  {
    CppType(if IsConst(ty) then InFront else NoConst, ShortName(ty.base), MeaningAll(ty.args), ty.stars, ty.amps)
  }

  function MeaningAll(tys: seq<CppType>): (ms: seq<CppType>)
    ensures |ms| == |tys|
    decreases tys, 0
  {
    if tys == [] then [] else [Meaning(tys[0])] + MeaningAll(tys[1..])
  }

  /**
   * As a parameter, a constant value or reference to constant counts as the value; a reference to a constant pointer
   * counts as the pointer, while a constant pointer keeps its `const`.
   */
  function ParameterMeaning(ty: CppType): CppType {
    var m := Meaning(ty);
    if IsConst(ty) && ty.stars == [] && ty.amps <= 1 then m.(place := NoConst, amps := 0)
    else if EndsConst(ty.stars) && ty.amps == 1 then m.(stars := Unconst(ty.stars), amps := 0)
    else m
  }

  /** The canonical text: `const` first, no blanks but the one after it and those that keep two `>` apart. */
  function Write(m: CppType): string
    decreases m, 1
  {
    (if IsConst(m) then CONST_SPACE else "") + WriteBody(m) + Suffix(m.stars, m.amps)
  }

  function WriteBody(m: CppType): string
    decreases m, 0
  {
    m.base + (if m.args == [] then "" else "<" + WriteAll(m.args) + ">")
  }

  function WriteAll(ms: seq<CppType>): string
    requires ms != []
    decreases ms, 2
  {
    var w := Write(ms[0]);
    if |ms| == 1 then w + (if w != "" && w[|w| - 1] == '>' then " " else "")
    else w + ("," + WriteAll(ms[1..]))
  }

  // ----- where the code falls short of it -----

  /** A last argument such as `B<C> const`: the closing `>` that follows is not seen from inside it. */
  predicate LosesCloser(ty: CppType) {
    ConstTrails(ty) && ty.stars == [] && ty.amps == 0
  }

  predicate KeepsClosers(ty: CppType)
    decreases ty, 0
  {
    ty.args == [] || AllKeepClosers(ty.args)
  }

  predicate AllKeepClosers(tys: seq<CppType>)
    requires tys != []
    decreases tys, 1
  {
    KeepsClosers(tys[0]) && (if |tys| == 1 then !LosesCloser(tys[0]) else AllKeepClosers(tys[1..]))
  }

  /**
   * `const T*&`, `const T&&`, `A<B> const*`, `const T*const` and `T*const&&` lose a `const` that is part of the type.
   */
  predicate KeepsConst(ty: CppType) {
    && (IsConst(ty) ==>
          && ty.amps <= 1 && !EndsConst(ty.stars)
          && (ty.stars != [] ==> ty.amps == 0 && !ConstTrails(ty)))
    && (EndsConst(ty.stars) ==> ty.amps <= 1)
  }

  predicate Faithful(ty: CppType) {
    KeepsConst(ty) && KeepsClosers(ty)
  }

  // ----- texts -----

  lemma ShortNameEndsInIdent(base: string)
    requires IsBase(base)
    ensures var n := ShortName(base); n != "" && IsIdentChar(n[|n| - 1])
  {
    SimplifyKeepsTail(base);
    var p := Simplify(base);
    if p.rest != "" {
      assert p.rest[|p.rest| - 1] == base[|base| - 1];
    } else {
      assert IsSpace("struct "[6]) && IsSpace("class "[5]) && IsSpace("enum "[4]);
    }
  }

  /** What `WriteAll` puts between a last argument and the closing `>`. */
  lemma WriteEnd(ty: CppType)
    requires WellFormed(ty)
    ensures var w := Write(Meaning(ty));
      w != "" && (w[|w| - 1] == '>' <==> ty.args != [] && ty.stars == [] && ty.amps == 0)
  {
    hide Suffix, IsBase, ShortName, WriteAll, IsConst;
    var m := Meaning(ty);
    var w, s := Write(m), Suffix(ty.stars, ty.amps);
    ShortNameEndsInIdent(ty.base);
    var body := WriteBody(m);
    assert body[|body| - 1] == '>' <==> ty.args != [];
    SuffixEmpty(ty.stars, ty.amps);
    if s != "" {
      SuffixLast(ty.stars, ty.amps);
      assert w[|w| - 1] == s[|s| - 1];
    } else {
      assert s == "";
      assert w[|w| - 1] == body[|body| - 1];
    }
  }

  // ----- rendered against written -----

  /** `r` is `w` if `good`, and shorter than `w` otherwise. */
  predicate Matches(r: string, w: string, good: bool) {
    if good then r == w else |r| < |w|
  }

  lemma MatchesAround(a: string, r: string, w: string, b: string, good: bool)
    requires Matches(r, w, good)
    ensures Matches(a + r + b, a + w + b, good)
  {
  }

  /** The space behind the argument list of a last argument. */
  function CloserOf(ty: CppType): string {
    if ty.args != [] && ty.stars == [] && ty.amps == 0 then " " else ""
  }

  lemma {:induction false} BodyMatches(ty: CppType)
    requires WellFormed(ty)
    ensures Matches(RenderBody(ty, false), WriteBody(Meaning(ty)), KeepsClosers(ty))
    ensures Matches(RenderBody(ty, true), WriteBody(Meaning(ty)) + (if ty.args == [] then "" else " "),
                    KeepsClosers(ty))
    decreases ty, 0
  {
    hide RenderAll, WriteAll, ShortName, IsBase, AllKeepClosers, Matches, IsConst;
    var name, m := ShortName(ty.base), Meaning(ty);
    assert m.base == name && m.args == MeaningAll(ty.args);
    if ty.args == [] {
      assert WriteBody(m) == RenderBody(ty, false) == RenderBody(ty, true) == name + "";
      assert WriteBody(m) + "" == WriteBody(m);
      MatchesItself(WriteBody(m));
    } else {
      AllMatch(ty.args);
      var r, w := RenderAll(ty.args), WriteAll(m.args);
      MatchesAround(name + "<", r, w, ">", KeepsClosers(ty));
      MatchesAround(name + "<", r, w, "> ", KeepsClosers(ty));
      assert RenderBody(ty, false) == name + "<" + r + ">" && WriteBody(m) == name + "<" + w + ">";
      assert RenderBody(ty, true) == name + "<" + r + "> " && WriteBody(m) + " " == name + "<" + w + "> ";
    }
  }

  lemma MatchesItself(w: string)
    ensures Matches(w, w, true)
  {
  }

  lemma {:induction false} ArgMatches(ty: CppType, last: bool)
    requires WellFormed(ty)
    ensures Matches(RenderArg(ty, last), Write(Meaning(ty)) + (if last then CloserOf(ty) else ""),
                    KeepsClosers(ty) && !(last && LosesCloser(ty)))
    decreases ty, 1
  {
    hide RenderBody, WriteBody, ShortName, IsBase, KeepsClosers, Suffix, Matches;
    var m := Meaning(ty);
    var lead, s := if IsConst(ty) then CONST_SPACE else "", Suffix(ty.stars, ty.amps);
    var closer := last && SpellTail(ty) == "";
    var r := RenderBody(ty, closer);
    SuffixEmpty(ty.stars, ty.amps);
    BodyMatches(ty);
    assert RenderArg(ty, last) == lead + r + s;
    assert Write(m) == lead + WriteBody(m) + s;
    assert closer ==> s == "";
    if closer && ty.args != [] {
      MatchesAround(lead, r, WriteBody(m) + " ", s, KeepsClosers(ty));
      assert lead + (WriteBody(m) + " ") + s == Write(m) + " ";
      assert CloserOf(ty) == " " && !LosesCloser(ty);
    } else {
      assert WriteBody(m) + "" == WriteBody(m);
      MatchesAround(lead, r, WriteBody(m), s, KeepsClosers(ty));
      if last && LosesCloser(ty) {
        assert CloserOf(ty) == " ";
        ShorterByOne(RenderArg(ty, last), Write(m), KeepsClosers(ty));
      } else {
        assert last ==> CloserOf(ty) == "";
        assert Write(m) + "" == Write(m);
      }
    }
  }

  lemma ShorterByOne(r: string, w: string, good: bool)
    requires Matches(r, w, good)
    ensures Matches(r, w + " ", false)
  {
  }

  lemma {:induction false} AllMatch(tys: seq<CppType>)
    requires tys != [] && AllWellFormed(tys)
    ensures Matches(RenderAll(tys), WriteAll(MeaningAll(tys)), AllKeepClosers(tys))
    decreases tys, 2
  {
    hide RenderArg, Write, Meaning, KeepsClosers, LosesCloser;
    var ms := MeaningAll(tys);
    var r, w := RenderArg(tys[0], |tys| == 1), Write(ms[0]);
    assert ms[0] == Meaning(tys[0]);
    ArgMatches(tys[0], |tys| == 1);
    if |tys| == 1 {
      WriteEnd(tys[0]);
      assert RenderAll(tys) == r + "" == r;
      assert WriteAll(ms) == w + CloserOf(tys[0]);
    } else {
      AllMatch(tys[1..]);
      assert ms[1..] == MeaningAll(tys[1..]);
      var rs, ws := RenderAll(tys[1..]), WriteAll(ms[1..]);
      assert RenderAll(tys) == r + ("," + rs) && WriteAll(ms) == w + ("," + ws);
    }
  }

  lemma TopMatches(ty: CppType)
    requires WellFormed(ty)
    ensures Matches(RenderTop(ty), Write(ParameterMeaning(ty)), Faithful(ty))
  {
    hide RenderBody, WriteBody, ShortName, IsBase, KeepsClosers, Suffix, Matches, Settled;
    var m, pm := Meaning(ty), ParameterMeaning(ty);
    var r, w := RenderBody(ty, false), WriteBody(m);
    var good := KeepsClosers(ty);
    BodyMatches(ty);
    assert WriteBody(pm) == w by { SameBody(m, pm); }
    var l := if IsConst(pm) then CONST_SPACE else "";
    var s := Suffix(pm.stars, pm.amps);
    assert Write(pm) == l + w + s;
    SettledLength(ty.stars, ty.amps);
    if KeepsConst(ty) {
      GoodTop(ty);
      MatchesAround(l, r, w, s, good);
    } else {
      MatchesLength(r, w, good);
      BadTop(ty);
      assert Matches(RenderTop(ty), Write(pm), false) by { ShorterIsMatch(RenderTop(ty), Write(pm)); }
    }
  }

  /** Nothing is lost: the rendered text is that of the parameter's meaning but for its body. */
  lemma GoodTop(ty: CppType)
    requires KeepsConst(ty)
    ensures var pm := ParameterMeaning(ty);
      RenderTop(ty) == (if IsConst(pm) then CONST_SPACE else "") + RenderBody(ty, false) + Suffix(pm.stars, pm.amps)
  {
    hide RenderBody, Suffix, ShortName, MeaningAll;
    var pm, body := ParameterMeaning(ty), RenderBody(ty, false);
    assert "" + body == body;
    Assoc(CONST_SPACE, body, Suffix(ty.stars, 0));
    assert [] == ty.stars ==> Settled(ty.stars, 0) == Suffix([], 0);
  }

  /** A `const` is lost: the text around the body is shorter than that of the meaning. */
  lemma BadTop(ty: CppType)
    requires !KeepsConst(ty)
    ensures var pm := ParameterMeaning(ty);
      |RenderTop(ty)| < |RenderBody(ty, false)| + (if IsConst(pm) then 6 else 0) + |Suffix(pm.stars, pm.amps)|
  {
    hide RenderBody, Suffix, ShortName, MeaningAll, Settled;
    SettledLength(ty.stars, ty.amps);
    if ty.amps > 0 {
      SettledLength(ty.stars, ty.amps - 1);
      SuffixLonger(ty.stars, ty.amps);
    }
    if ty.stars == [] && ty.amps > 0 {
      SettledNothing(ty.amps - 1);
    }
    if EndsConst(ty.stars) {
      UnconstLength(ty.stars);
    }
  }

  lemma SuffixLonger(stars: seq<bool>, amps: nat)
    requires amps > 0
    ensures |Suffix(stars, amps)| == |Suffix(stars, amps - 1)| + 1
  {
    hide Suffix;
    SuffixLast(stars, amps);
  }

  lemma {:induction false} UnconstText(stars: seq<bool>)
    requires EndsConst(stars)
    ensures |StarText(stars)| == |StarText(Unconst(stars))| + 5
    decreases |stars|
  {
    var u := Unconst(stars);
    if |stars| == 1 {
      assert stars[1..] == [] && u[1..] == [];
    } else {
      UnconstText(stars[1..]);
      assert u[0] == stars[0] && u[1..] == Unconst(stars[1..]);
    }
  }

  lemma UnconstLength(stars: seq<bool>)
    requires EndsConst(stars)
    ensures forall amps: nat :: |Suffix(stars, amps)| == |Suffix(Unconst(stars), amps)| + 5
  {
    hide StarText, Unconst;
    UnconstText(stars);
  }

  /** Six characters go with a `const` and its `&`. */
  lemma SettledLength(stars: seq<bool>, amps: nat)
    ensures |Settled(stars, amps)| ==
      if EndsConst(stars) && amps > 0 then |Suffix(stars, amps)| - 6 else |Suffix(stars, amps)|
  {
    hide Suffix, Unconst;
    if EndsConst(stars) && amps > 0 {
      UnconstLength(stars);
      SuffixLonger(stars, amps);
    }
  }

  lemma SameBody(m: CppType, n: CppType)
    requires m.base == n.base && m.args == n.args
    ensures WriteBody(m) == WriteBody(n)
  {
  }

  lemma MatchesLength(r: string, w: string, good: bool)
    requires Matches(r, w, good)
    ensures |r| <= |w|
  {
  }

  lemma ShorterIsMatch(r: string, w: string)
    requires |r| < |w|
    ensures Matches(r, w, false)
  {
  }

  // ----- the normaliser as a whole -----

  /** A spelled parameter type is normalised as such, whatever ends it. */
  lemma ParameterIsRendered(s: CString, ty: CppType)
    requires WellFormed(ty) && Spell(ty) <= s
    requires |s| == |Spell(ty)| || s[|Spell(ty)|] == ',' || s[|Spell(ty)|] == ')'
    requires !(Spell(ty) == "void" && |s| > 4 && s[4] == ')')
    ensures TypeLength(s, 0) == |Spell(ty)|
    ensures Parameter(s, |Spell(ty)|) == RenderTop(ty)
  {
    hide Normalize, Spell, RenderTop, IsBase;
    var w := Spell(ty);
    var x := s[|w|..];
    assert s == w + x;
    SkipType(ty, x, 0);
    assert TypeLength(x, 0) == 0;
    NotVoid(s, w);
    assert s[..|w|] == w;
    NormalizeTop(ty, CharAt(s, |w|));
  }

  lemma VoidPrefix(s: CString, w: string)
    requires w <= s && |w| <= 4 && (|w| < |s| ==> s[|w|] == ',' || s[|w|] == ')')
    ensures StrNEqual("void)", s, |w| + 1) <==> w == "void" && |s| > 4 && s[4] == ')'
  {
    var n := |w| + 1;
    StrNEqualIsPrefix("void)", s, n);
    hide StrNEqual;
    if "void)"[..n] <= s {
      assert s[|w|] == "void)"[|w|];
      assert |w| == 4;
      assert w == s[..4] == "void)"[..5][..4] == "void";
    }
    if w == "void" && |s| > 4 && s[4] == ')' {
      assert s[..5] == "void)";
    }
  }

  /** Only `void)` itself is taken for an explicit empty list. */
  lemma NotVoid(s: CString, w: string)
    requires w <= s && TypeLength(s, 0) == |w|
    ensures StrNEqual("void)", s, |w| + 1) <==> w == "void" && |s| > 4 && s[4] == ')'
  {
    if |w| <= 4 {
      hide StrNEqual, TypeLength;
      VoidPrefix(s, w);
    } else {
      hide StrNEqual, TypeLength;
      StrNEqualWhole("void)", s, |w| + 1);
      VoidLength();
    }
  }

  lemma VoidLength()
    ensures TypeLength("void)", 0) == 4
  {
    assert "void)"[1..] == "oid)" && "oid)"[1..] == "id)" && "id)"[1..] == "d)" && "d)"[1..] == ")";
  }

  /** The text is `ty`, with any blanks that leave the tokens as they are. */
  predicate Spells(text: CString, ty: CppType) {
    WellFormed(ty) && Tokens(text) == Tokens(Spell(ty))
  }

  /** The exact result for every spelling of a type. */
  lemma NormalizedTypeIsRendered(text: CString, ty: CppType)
    requires Spells(text, ty)
    ensures NormalizedTypeOf(text) == RenderTop(ty)
  {
    hide Normalize, RenderTop, IsBase, Parameter;
    AnySpacingSqueezesToSpelling(text, ty);
    SpellIsWellSpaced(ty, '\0');
    assert text != "";
    SqueezeKeepsNulFree(text, '\0');
    ParameterIsRendered(RemoveWhitespace(text), ty);
  }

  /** The normaliser returns the canonical text of the parameter's type exactly when the type is `Faithful`. */
  lemma CanonicalExactlyWhenFaithful(text: CString, ty: CppType)
    requires Spells(text, ty)
    ensures NormalizedTypeOf(text) == Write(ParameterMeaning(ty)) <==> Faithful(ty)
  {
    NormalizedTypeIsRendered(text, ty);
    TopMatches(ty);
  }

  /** Spacing and the place of `const` make no difference. */
  lemma SpellingsAgree(text: CString, ty: CppType, text': CString, ty': CppType)
    requires Spells(text, ty) && Spells(text', ty') && Faithful(ty) && Faithful(ty')
    requires ParameterMeaning(ty) == ParameterMeaning(ty')
    ensures NormalizedTypeOf(text) == NormalizedTypeOf(text')
  {
    CanonicalExactlyWhenFaithful(text, ty);
    CanonicalExactlyWhenFaithful(text', ty');
  }
}
