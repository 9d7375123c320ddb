/** The bracket counters of both scanners walk over a spelled type without stopping inside it. */
module TypeLengths {
  import opened CText
  import opened NormalizeSpec
  import opened Signature
  import opened TypeGrammar

  /** Nothing the scanners count or stop at. */
  predicate IsPlain(c: char) {
    c != '<' && c != '>' && c != ',' && c != '(' && c != ')' && c != '{' && c != '}' && c != '[' && c != ']'
  }

  predicate Plain(s: string) {
    forall i :: 0 <= i < |s| ==> IsPlain(s[i])
  }

  lemma {:induction false} SkipPlain(p: string, x: string, d: int)
    requires Plain(p)
    ensures d >= 1 ==> ArgLength(p + x, d, 0) == |p| + ArgLength(x, d, 0)
    ensures TypeLength(p + x, d) == |p| + TypeLength(x, d)
    decreases |p|
  {
    if p == "" {
      assert p + x == x;
    } else {
      assert (p + x)[1..] == p[1..] + x;
      assert IsPlain(p[0]);
      SkipPlain(p[1..], x, d);
    }
  }

  lemma SkipOpen(x: string, d: int)
    requires d >= 0
    ensures d >= 1 ==> ArgLength("<" + x, d, 0) == 1 + ArgLength(x, d + 1, 0)
    ensures TypeLength("<" + x, d) == 1 + TypeLength(x, d + 1)
  {
    assert ("<" + x)[1..] == x;
  }

  lemma SkipClose(x: string, d: int)
    requires d >= 1
    ensures d >= 2 ==> ArgLength(">" + x, d, 0) == 1 + ArgLength(x, d - 1, 0)
    ensures TypeLength(">" + x, d) == 1 + TypeLength(x, d - 1)
  {
    assert (">" + x)[1..] == x;
  }

  lemma SkipComma(x: string, d: int)
    requires d >= 1
    ensures d >= 2 ==> ArgLength("," + x, d, 0) == 1 + ArgLength(x, d, 0)
    ensures TypeLength("," + x, d) == 1 + TypeLength(x, d)
  {
    assert ("," + x)[1..] == x;
  }

  /** `const ` or nothing, and the name. */
  function Head(ty: CppType): string {
    (if ty.place == InFront then CONST_SPACE else "") + ty.base
  }

  lemma BareShape(ty: CppType)
    requires ty.args == []
    ensures Spell(ty) == Head(ty) + ((if ty.place == Behind then " const" else "") + SpellTail(ty))
  {
  }

  lemma TemplateShape(ty: CppType, x: string)
    requires ty.args != []
    ensures Spell(ty) + x == Head(ty) + ("<" + (SpellAll(ty.args) + (">" + (SpellTail(ty) + x))))
  {
    hide SpellTail;
    var front, inner, tail := if ty.place == InFront then CONST_SPACE else "", SpellAll(ty.args), SpellTail(ty);
    assert SpellBody(ty) == ty.base + ("<" + inner + ">");
    assert Spell(ty) == front + (ty.base + ("<" + inner + ">")) + tail;
  }

  lemma PlainParts(ty: CppType)
    requires WellFormed(ty)
    ensures Plain(Head(ty)) && Plain(SpellTail(ty)) && Plain(" const")
  {
    hide SpellTail;
    TailChars(ty);
    var b := ty.base;
    assert Plain(b) by {
      forall i | 0 <= i < |b| ensures IsPlain(b[i]) {
        assert IsIdentChar(b[i]) || b[i] == ':' || b[i] == ' ';
      }
    }
  }

  lemma PlainAppend(a: string, b: string)
    requires Plain(a) && Plain(b)
    ensures Plain(a + b)
  {
  }

  lemma {:induction false} SkipType(ty: CppType, x: string, d: int)
    requires WellFormed(ty) && d >= 0
    ensures d >= 1 ==> ArgLength(Spell(ty) + x, d, 0) == |Spell(ty)| + ArgLength(x, d, 0)
    ensures TypeLength(Spell(ty) + x, d) == |Spell(ty)| + TypeLength(x, d)
    decreases ty, 1
  {
    hide *;
    PlainParts(ty);
    if ty.args == [] {
      BareShape(ty);
      var behind := if ty.place == Behind then " const" else "";
      assert Plain("") by { EmptyIsPlain(); }
      PlainAppend(behind, SpellTail(ty));
      PlainAppend(Head(ty), behind + SpellTail(ty));
      SkipPlain(Spell(ty), x, d);
    } else {
      var inner, rest := SpellAll(ty.args), ">" + (SpellTail(ty) + x);
      TemplateShape(ty, x);
      SkipPlain(Head(ty), "<" + (inner + rest), d);
      SkipOpen(inner + rest, d);
      AllArgsWellFormed(ty);
      SkipAll(ty.args, rest, d + 1);
      SkipClose(SpellTail(ty) + x, d + 1);
      SkipPlain(SpellTail(ty), x, d);
      TemplateLength(ty);
    }
  }

  lemma EmptyIsPlain()
    ensures Plain("")
  {
  }

  lemma AllArgsWellFormed(ty: CppType)
    requires WellFormed(ty)
    ensures AllWellFormed(ty.args)
  {
  }

  lemma TemplateLength(ty: CppType)
    requires ty.args != []
    ensures |Spell(ty)| == |Head(ty)| + 1 + |SpellAll(ty.args)| + 1 + |SpellTail(ty)|
  {
    hide SpellTail;
  }

  lemma {:induction false} SkipAll(tys: seq<CppType>, x: string, d: int)
    requires tys != [] && AllWellFormed(tys) && d >= 1
    ensures d >= 2 ==> ArgLength(SpellAll(tys) + x, d, 0) == |SpellAll(tys)| + ArgLength(x, d, 0)
    ensures TypeLength(SpellAll(tys) + x, d) == |SpellAll(tys)| + TypeLength(x, d)
    decreases tys, 2
  {
    hide Spell;
    var first := Spell(tys[0]);
    if |tys| == 1 {
      assert SpellAll(tys) == first;
      SkipType(tys[0], x, d);
    } else {
      var more := SpellAll(tys[1..]);
      assert SpellAll(tys) + x == first + ("," + (more + x));
      SkipType(tys[0], "," + (more + x), d);
      SkipComma(more + x, d);
      SkipAll(tys[1..], x, d);
    }
  }
}
