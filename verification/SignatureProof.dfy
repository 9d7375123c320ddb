/** `normalizedSignature` normalises a signature parameter by parameter. */
module SignatureProof {
  import opened CText
  import opened Whitespace
  import opened NormalizeSpec
  import opened Signature
  import opened TypeGrammar
  import opened TypeLengths
  import opened TypeRender
  import opened TypeCanonical
  import opened TypeIdempotence

  predicate NoParens(s: string) {
    forall i :: 0 <= i < |s| ==> s[i] != '(' && s[i] != ')'
  }

  /** A signature's text with as little space as possible; `tail` is what follows the parameter list. */
  function SpellSignature(name: string, tys: seq<CppType>, tail: string): string {
    name + ("(" + ((if tys == [] then "" else SpellAll(tys)) + (")" + tail)))
  }

  predicate SignatureParts(name: string, tys: seq<CppType>, tail: string) {
    && NoParens(name) && WellSpaced(name, '\0') && '\0' !in name
    && AllWellFormed(tys)
    && NoParens(tail) && WellSpaced(tail, ')') && '\0' !in tail
  }

  /** An explicit `void` as the last parameter is left out. */
  function RenderParameters(tys: seq<CppType>): string {
    if tys == [] then ""
    else if |tys| == 1 then (if Spell(tys[0]) == "void" then "" else RenderTop(tys[0]))
    else RenderTop(tys[0]) + ("," + RenderParameters(tys[1..]))
  }

  lemma SignatureIsWellSpaced(name: string, tys: seq<CppType>, tail: string)
    requires SignatureParts(name, tys, tail)
    ensures WellSpaced(SpellSignature(name, tys, tail), '\0')
    ensures '\0' !in SpellSignature(name, tys, tail)
  {
    hide WellSpaced, SpellAll, Tokens, AllWellFormed;
    var list := if tys == [] then "" else SpellAll(tys);
    var close := ")" + tail;
    WellSpacedPlain(")", if list == "" then '(' else list[|list| - 1]);
    WellSpacedAppend(")", tail, if list == "" then '(' else list[|list| - 1]);
    if tys != [] {
      AllIsWellSpaced(tys, '(');
      AllSpellIsNulFree(tys);
      WellSpacedAppend(list, close, '(');
    } else {
      assert list + close == close;
    }
    var before := if name == "" then '\0' else name[|name| - 1];
    WellSpacedPlain("(", before);
    WellSpacedAppend("(", list + close, before);
    if name == "" {
      assert name + ("(" + (list + close)) == "(" + (list + close);
    } else {
      WellSpacedAppend(name, "(" + (list + close), '\0');
    }
  }

  /** Characters outside a parameter list are copied. */
  lemma {:induction false} CopyOutside(p: string, x: string, depth: int)
    requires '\0' !in p + x && NoParens(p) && depth != 1
    ensures '\0' !in x
    ensures SignatureFrom(p + x, depth) == p + SignatureFrom(x, depth)
    decreases |p|
  {
    hide Parameter, TypeLength;
    assert forall i :: 0 <= i < |x| ==> x[i] == (p + x)[|p| + i];
    if p == "" {
      assert p + x == x;
    } else {
      var s := p + x;
      assert s[1..] == p[1..] + x;
      assert s[0] == p[0] != '(';
      CopyOutside(p[1..], x, depth);
      assert [p[0]] + p[1..] == p;
      Assoc([p[0]], p[1..], SignatureFrom(x, depth));
    }
  }

  lemma ParenStep(x: string)
    requires '\0' !in x
    ensures SignatureFrom("(" + x, 0) == "(" + SignatureFrom(x, 1)
  {
    hide Parameter, TypeLength;
    assert ("(" + x)[1..] == x;
  }

  lemma EmptyListStep(x: string)
    requires '\0' !in x
    ensures SignatureFrom(")" + x, 1) == ")" + SignatureFrom(x, 0)
  {
    var s := ")" + x;
    assert s[1..] == x;
    assert s[..0] == "";
    assert !StrNEqual("void)", s, 1);
    EmptyNormalForm(')');
    assert TypeLength(s, 0) == 0;
    assert Parameter(s, 0) == "";
  }

  /** `ParameterStep` for a whole text. */
  lemma ParameterUnfolds(s: CString, n: nat)
    requires n == TypeLength(s, 0) < |s|
    ensures SignatureFrom(s, 1) ==
      Parameter(s, n) + ([s[n]] + SignatureFrom(s[n + 1..], if s[n] == ')' then 0 else 1))
  {
    hide *;
    assert s[0..] == s;
    assert 0 + n == n;
    ParameterStep(s, 0, n);
  }

  lemma ParameterSpelled(ty: CppType, x: string)
    requires WellFormed(ty) && '\0' !in Spell(ty) + x && x != "" && (x[0] == ',' || x[0] == ')')
    ensures var s: CString, n := Spell(ty) + x, |Spell(ty)|;
      TypeLength(s, 0) == n && Parameter(s, n) == if Spell(ty) == "void" && x[0] == ')' then "" else RenderTop(ty)
  {
    hide Normalize, Spell, RenderTop, WellFormed, StrNEqual, TypeLength;
    var w, s := Spell(ty), Spell(ty) + x;
    assert s[|w|] == x[0] && w <= s;
    assert |w| == 4 ==> s[4] == x[0];
    SkipType(ty, x, 0);
    StopsAtOnce(x);
    if w == "void" && x[0] == ')' {
      NotVoid(s, w);
    } else {
      ParameterIsRendered(s, ty);
    }
  }

  /** One parameter and the character that ends it. */
  lemma ParameterListStep(ty: CppType, x: string)
    requires WellFormed(ty) && '\0' !in Spell(ty) + x && x != "" && (x[0] == ',' || x[0] == ')')
    ensures SignatureFrom(Spell(ty) + x, 1) ==
      (if Spell(ty) == "void" && x[0] == ')' then "" else RenderTop(ty)) +
      ([x[0]] + SignatureFrom(x[1..], if x[0] == ')' then 0 else 1))
  {
    hide *;
    var w, s := Spell(ty), Spell(ty) + x;
    assert s[|w|] == x[0] && s[|w| + 1..] == x[1..];
    ParameterSpelled(ty, x);
    ParameterUnfolds(s, |w|);
  }

  lemma StopsAtOnce(x: string)
    requires x != "" && (x[0] == ',' || x[0] == ')')
    ensures TypeLength(x, 0) == 0
  {
  }

  lemma NulFreeAppend(a: string, b: string)
    requires '\0' !in a && '\0' !in b
    ensures '\0' !in a + b
  {
  }

  lemma CommaJoin(first: string, rest: string, z: string)
    ensures first + ([','] + (rest + z)) == first + ("," + rest) + z
  {
    assert [','] == ",";
    Assoc(",", rest, z);
    Assoc(first, "," + rest, z);
  }

  lemma {:induction false} ParameterList(tys: seq<CppType>, tail: string)
    requires tys != [] && AllWellFormed(tys) && NoParens(tail) && '\0' !in tail
    ensures '\0' !in SpellAll(tys) + (")" + tail)
    ensures SignatureFrom(SpellAll(tys) + (")" + tail), 1) == RenderParameters(tys) + (")" + tail)
    decreases |tys|
  {
    hide Normalize, Spell, RenderTop, SignatureFrom, WellFormed;
    var w := Spell(tys[0]);
    AllSpellIsNulFree(tys);
    SpellIsNulFree(tys[0]);
    NulFreeAppend(")", tail);
    NulFreeAppend(SpellAll(tys), ")" + tail);
    if |tys| == 1 {
      assert SpellAll(tys) == w + "" == w;
      ParameterListStep(tys[0], ")" + tail);
      assert (")" + tail)[1..] == tail;
      CopyTail(tail);
      assert [')'] + tail == ")" + tail;
    } else {
      var more := SpellAll(tys[1..]) + (")" + tail);
      ParameterList(tys[1..], tail);
      CommaJoin(w, SpellAll(tys[1..]), ")" + tail);
      assert [','] + more == "," + more;
      NulFreeAppend(",", more);
      NulFreeAppend(w, "," + more);
      ParameterListStep(tys[0], "," + more);
      assert ("," + more)[1..] == more;
      CommaJoin(RenderTop(tys[0]), RenderParameters(tys[1..]), ")" + tail);
    }
  }

  lemma CopyTail(tail: string)
    requires '\0' !in tail && NoParens(tail)
    ensures SignatureFrom(tail, 0) == tail
  {
    hide Parameter, TypeLength;
    assert tail + "" == tail;
    CopyOutside(tail, "", 0);
  }

  /** The exact result for every spelling of a signature. */
  lemma NormalizedSignatureIsRendered(text: CString, name: string, tys: seq<CppType>, tail: string)
    requires SignatureParts(name, tys, tail)
    requires Tokens(text) == Tokens(SpellSignature(name, tys, tail))
    ensures NormalizedSignatureOf(text) == name + ("(" + (RenderParameters(tys) + (")" + tail)))
  {
    hide WellSpaced, SpellAll, Tokens, AllWellFormed, SignatureFrom, NoParens, RenderParameters;
    var s := SpellSignature(name, tys, tail);
    SignatureIsWellSpaced(name, tys, tail);
    AnySpacingSqueezesTo(text, s);
    var list := (if tys == [] then "" else SpellAll(tys)) + (")" + tail);
    CopyOutside(name, "(" + list, 0);
    assert '\0' !in list by { assert forall c :: c in list ==> c in "(" + list; }
    ParenStep(list);
    if tys == [] {
      assert list == ")" + tail;
      EmptyListStep(tail);
      CopyTail(tail);
      assert RenderParameters(tys) + (")" + tail) == ")" + tail by { NoParameters(); }
    } else {
      ParameterList(tys, tail);
    }
  }

  lemma NoParameters()
    ensures RenderParameters([]) == ""
  {
  }

  /** Any text with the tokens of a well-spaced text is squeezed to it. */
  lemma AnySpacingSqueezesTo(text: string, s: string)
    requires WellSpaced(s, '\0') && Tokens(text) == Tokens(s)
    ensures RemoveWhitespace(text) == s
  {
    PlainAnglesLex('\0', "", s, '\0');
    SpacingIsIrrelevant(text, s);
    TightIsFixed(s, '\0');
  }

  /** The normal forms of separate parameter texts, joined by commas; a last plain `void` is left out. */
  function JoinNormalized(texts: seq<CString>): string {
    if texts == [] then ""
    else if |texts| == 1 then (if RemoveWhitespace(texts[0]) == "void" then "" else NormalizedTypeOf(texts[0]))
    else NormalizedTypeOf(texts[0]) + ("," + JoinNormalized(texts[1..]))
  }

  /** The signature's normal form is made of its parameters' normal forms. */
  lemma {:induction false} SignatureIsHomomorphic(text: CString, name: string, texts: seq<CString>, tys: seq<CppType>,
      tail: string)
    requires SignatureParts(name, tys, tail)
    requires |texts| == |tys| && forall i :: 0 <= i < |tys| ==> Spells(texts[i], tys[i])
    requires Tokens(text) == Tokens(SpellSignature(name, tys, tail))
    ensures NormalizedSignatureOf(text) == name + ("(" + (JoinNormalized(texts) + (")" + tail)))
  {
    hide *;
    NormalizedSignatureIsRendered(text, name, tys, tail);
    JoinIsRendered(texts, tys);
  }

  lemma {:induction false} JoinIsRendered(texts: seq<CString>, tys: seq<CppType>)
    requires |texts| == |tys| && forall i :: 0 <= i < |tys| ==> Spells(texts[i], tys[i])
    ensures JoinNormalized(texts) == RenderParameters(tys)
    decreases |tys|
  {
    hide Spells, NormalizedTypeOf, RenderTop, Spell, RemoveWhitespace;
    if tys != [] {
      NormalizedTypeIsRendered(texts[0], tys[0]);
      SqueezesToSpelling(texts[0], tys[0]);
      JoinIsRendered(texts[1..], tys[1..]);
    }
  }

  lemma SqueezesToSpelling(text: CString, ty: CppType)
    requires Spells(text, ty)
    ensures RemoveWhitespace(text) == Spell(ty)
  {
    AnySpacingSqueezesToSpelling(text, ty);
  }
}
