/** The canonical text of a type is itself a spelling of that type, and tells it from every other. */
module TypeIdempotence {
  import opened CText
  import opened Whitespace
  import opened NormalizeSpec
  import opened Signature
  import opened TypeGrammar
  import opened TypeRender
  import opened TypeProof
  import opened TypeCanonical
  import opened TypeReading

  // ----- short names are names -----

  predicate IsNumericName(n: string) {
    n == "" || n == "uint" || n == "ulong"
  }

  /** The short name is one of the new names, or nothing, followed by the tail of the old name. */
  lemma ShortNameShape(b: string)
    requires IsBase(b)
    ensures
      var p := Simplify(b);
      IsNumericName(p.done) && |p.rest| <= |b| && p.rest == b[|b| - |p.rest|..]
      && (p.done == "" ==> p.rest == b || (|p.rest| < |b| && b[|b| - |p.rest| - 1] == ' '))
  {
    SimplifyKeepsTail(b);
  }

  lemma TailIsBase(b: string, k: nat)
    requires IsBase(b) && 0 < k < |b| && b[k - 1] == ' '
    ensures IsBase(b[k..])
  {
    var t := b[k..];
    assert TightAt(b, '\0', k - 1);
    forall i | 0 <= i < |t| ensures TightAt(t, '\0', i) {
      assert TightAt(b, '\0', k + i);
    }
    forall i | 0 <= i < |t| && StartsWithConst(t[i..]) ensures i > 0 && IsIdentChar(t[i - 1]) {
      assert t[i..] == b[k + i..];
      assert IsIdentChar(b[k + i - 1]);
    }
  }

  lemma NumericTailIsTight(n: string, b: string, k: nat)
    requires IsBase(b) && k <= |b| && (n == "uint" || n == "ulong") && NumericTight(b, k)
    ensures Tight(n + b[k..], '\0')
  {
    var t := n + b[k..];
    assert forall i :: 0 <= i < |n| ==> IsIdentChar(n[i]);
    forall i | 0 <= i < |t| ensures TightAt(t, '\0', i) {
      if i >= |n| {
        assert TightAt(b, '\0', k + i - |n|);
      }
    }
  }

  lemma NumericTailHasNoConst(n: string, b: string, k: nat)
    requires NoConstWord(b) && k <= |b| && (n == "uint" || n == "ulong")
    ensures NoConstWord(n + b[k..])
  {
    var t := n + b[k..];
    assert forall i :: 0 <= i < |n| ==> IsIdentChar(n[i]) && n[i] != 'c';
    forall i | 0 <= i < |t| && StartsWithConst(t[i..]) ensures i > 0 && IsIdentChar(t[i - 1]) {
      assert t[i..][0] == t[i] == 'c';
      if i > |n| {
        assert t[i..] == b[k + i - |n|..];
        assert IsIdentChar(b[k + i - |n| - 1]);
      }
    }
  }

  lemma NumericTailIsBase(n: string, b: string, k: nat)
    requires IsBase(b) && k <= |b| && (n == "uint" || n == "ulong")
    requires NumericTight(b, k)
    ensures IsBase(n + b[k..])
  {
    var t := n + b[k..];
    NumericTailIsTight(n, b, k);
    NumericTailHasNoConst(n, b, k);
    hide NoConstWord, Tight;
    forall i | 0 <= i < |t| ensures IsIdentChar(t[i]) || t[i] == ':' || t[i] == ' ' {
      if i >= |n| {
        assert t[i] == b[k + i - |n|];
      }
    }
  }

  /** Nothing the tail starts with depends on the character before it. */
  predicate NumericTight(b: string, k: nat)
    requires k <= |b|
  {
    k < |b| && b[k] == ' ' ==> k + 1 < |b| && IsIdentChar(b[k + 1])
  }

  lemma TailIsTight(b: string, k: nat)
    requires IsBase(b) && k <= |b|
    ensures NumericTight(b, k)
  {
    if k < |b| && b[k] == ' ' {
      assert TightAt(b, '\0', k);
    }
  }

  lemma ShortNameIsBase(b: string)
    requires IsBase(b)
    ensures IsBase(ShortName(b))
  {
    hide IsBase, Simplify;
    ShortNameShape(b);
    var p := Simplify(b);
    var k := |b| - |p.rest|;
    if p.done == "" {
      assert ShortName(b) == p.rest;
      if p.rest != b {
        assert p.rest != "" by { ShortNameEndsInIdent(b); }
        TailIsBase(b, k);
      }
    } else {
      TailIsTight(b, k);
      NumericTailIsBase(p.done, b, k);
    }
  }

  lemma BaseIsName(b: string)
    requires IsBase(b)
    ensures IsName(b)
  {
    NoConstFirst(b, "");
    assert b + "" == b;
  }

  lemma {:induction false} MeaningIsWellFormed(ty: CppType)
    requires WellFormed(ty)
    ensures WellFormed(Meaning(ty)) && IsMeaning(Meaning(ty))
    decreases ty, 1
  {
    hide IsBase, IsName, ShortName;
    ShortNameIsBase(ty.base);
    BaseIsName(ShortName(ty.base));
    AllMeaningsAreWellFormed(ty.args);
  }

  lemma {:induction false} AllMeaningsAreWellFormed(tys: seq<CppType>)
    requires AllWellFormed(tys)
    ensures AllWellFormed(MeaningAll(tys)) && AllAreMeanings(MeaningAll(tys))
    decreases tys, 0
  {
    hide WellFormed, Meaning, IsMeaning;
    if tys != [] {
      MeaningIsWellFormed(tys[0]);
      AllMeaningsAreWellFormed(tys[1..]);
      assert MeaningAll(tys)[1..] == MeaningAll(tys[1..]);
    }
  }

  lemma ParameterMeaningIsWellFormed(ty: CppType)
    requires WellFormed(ty)
    ensures WellFormed(ParameterMeaning(ty)) && IsMeaning(ParameterMeaning(ty))
  {
    hide IsBase, IsName, ShortName;
    MeaningIsWellFormed(ty);
  }

  /** Normal forms are compared instead of types, and rightly so. */
  lemma NormalFormsTellTypesApart(text: CString, ty: CppType, text': CString, ty': CppType)
    requires Spells(text, ty) && Spells(text', ty') && Faithful(ty) && Faithful(ty')
    ensures NormalizedTypeOf(text) == NormalizedTypeOf(text') <==> ParameterMeaning(ty) == ParameterMeaning(ty')
  {
    hide *;
    assert WellFormed(ty) && WellFormed(ty') by { SpelledIsWellFormed(text, ty); SpelledIsWellFormed(text', ty'); }
    var m, m' := ParameterMeaning(ty), ParameterMeaning(ty');
    CanonicalExactlyWhenFaithful(text, ty);
    CanonicalExactlyWhenFaithful(text', ty');
    ParameterMeaningIsWellFormed(ty);
    ParameterMeaningIsWellFormed(ty');
    if Write(m) == Write(m') {
      EndFollows(m);
      EndFollows(m');
      assert Write(m) + "" == Write(m') + "";
      UniqueReading(m, "", m', "");
    }
  }

  lemma SpelledIsWellFormed(text: CString, ty: CppType)
    requires Spells(text, ty)
    ensures WellFormed(ty)
  {
  }

  lemma EndFollows(m: CppType)
    ensures Follows("", m)
  {
  }

  // ----- squeezing a canonical text -----

  lemma {:induction false} SqueezePrefix(w: string, x: string, last: char)
    requires w != "" && Tight(w, last)
    ensures Squeeze(w + x, last) == w + Squeeze(x, w[|w| - 1])
    decreases |w|
  {
    var c, t := w[0], w[1..];
    assert TightAt(w, last, 0);
    TightTail(w, last);
    assert (w + x)[1..] == t + x && (w + x)[0] == c;
    if t != "" {
      SqueezePrefix(t, x, c);
      Assoc([c], t, Squeeze(x, w[|w| - 1]));
      assert [c] + t == w;
      assert Squeeze(w + x, last) == [c] + Squeeze(t + x, c) by {
        if IsSpace(c) {
          assert !IsSpace(w[1]) && (t + x)[0] == w[1];
          assert DropSpaces(w + x) == t + x;
        }
      }
    } else {
      assert t + x == x && w == [c];
    }
  }

  lemma SqueezeCharacter(c: char, x: string, last: char)
    requires !IsSpace(c)
    ensures Squeeze([c] + x, last) == [c] + Squeeze(x, c)
  {
    assert ([c] + x)[1..] == x;
  }

  /** The space between two `>` goes. */
  lemma SqueezeCloser(x: string, closes: bool, last: char)
    requires closes ==> last == '>'
    ensures Squeeze((if closes then " " else "") + (">" + x), last) == ">" + Squeeze(x, '>')
  {
    SqueezeCharacter('>', x, last);
    assert [('>')] + x == ">" + x;
    if closes {
      var s := " " + (">" + x);
      assert s[0] == ' ' && s[1..] == ">" + x;
      assert DropSpaces(s) == ">" + x;
    } else {
      assert "" + (">" + x) == ">" + x;
    }
  }

  /** The texts before the arguments and behind them are the same in both forms. */
  function Front(m: CppType): string {
    (if m.place == InFront then CONST_SPACE else "") + m.base
  }

  lemma FrontIsTight(m: CppType, last: char)
    requires WellFormed(m) && m.place != Behind
    ensures Tight(Front(m), last) && Front(m) != "" && IsIdentChar(Front(m)[|Front(m)| - 1])
  {
    hide WellSpaced, Tight;
    BaseIsWellSpaced(m.base, ' ');
    BaseIsWellSpaced(m.base, last);
    if m.place == InFront {
      ConstFirstIsWellSpaced(m.base, last);
    } else {
      assert "" + m.base == m.base;
    }
    WellSpacedIsTight(Front(m), last);
  }

  lemma WellSpacedIsTight(s: string, last: char)
    requires WellSpaced(s, last)
    ensures Tight(s, last)
  {
  }

  lemma GroupWritten(l: string, b: string, a: string, s: string, x: string)
    ensures l + (b + ("<" + a + ">")) + s + x == (l + b + "<") + (a + (">" + (s + x)))
  {
  }

  lemma GroupSpelled(l: string, b: string, i: string, s: string)
    ensures l + (b + ("<" + i + ">")) + ("" + s) == (l + b + "<") + (i + (">" + s))
  {
  }

  lemma FormsOf(m: CppType, x: string)
    requires m.place != Behind
    ensures m.args == [] ==> Write(m) + x == Front(m) + (Suffix(m.stars, m.amps) + x)
    ensures m.args == [] ==> Spell(m) == Front(m) + Suffix(m.stars, m.amps)
    ensures m.args != [] ==>
      Write(m) + x == (Front(m) + "<") + (WriteAll(m.args) + (">" + (Suffix(m.stars, m.amps) + x)))
    ensures m.args != [] ==> Spell(m) == (Front(m) + "<") + (SpellAll(m.args) + (">" + Suffix(m.stars, m.amps)))
  {
    hide Suffix, WriteAll, SpellAll;
    var l, b, s := if m.place == InFront then CONST_SPACE else "", m.base, Suffix(m.stars, m.amps);
    if m.args == [] {
      assert Write(m) + x == l + (b + "") + s + x;
      assert Spell(m) == l + (b + "") + ("" + s);
    } else {
      var a, i := WriteAll(m.args), SpellAll(m.args);
      assert Write(m) + x == l + (b + ("<" + a + ">")) + s + x;
      GroupWritten(l, b, a, s, x);
      assert Spell(m) == l + (b + ("<" + i + ">")) + ("" + s);
      GroupSpelled(l, b, i, s);
    }
  }

  /** The suffix is copied, and the last character is the spelling's. */
  lemma SqueezeSuffix(stars: seq<bool>, amps: nat, x: string, last: char)
    ensures var s := Suffix(stars, amps);
      Squeeze(s + x, last) == s + Squeeze(x, if s == "" then last else s[|s| - 1])
  {
    hide Suffix;
    var s := Suffix(stars, amps);
    if s == "" {
      assert s + x == x;
    } else {
      SuffixChars(stars, amps);
      WellSpacedPlain(s, last);
      SqueezePrefix(s, x, last);
    }
  }

  lemma {:induction false} SqueezeWritten(m: CppType, x: string, last: char)
    requires WellFormed(m) && IsMeaning(m)
    ensures Spell(m) != "" && (Spell(m)[|Spell(m)| - 1] == '>' <==> Closes(m))
    ensures Squeeze(Write(m) + x, last) == Spell(m) + Squeeze(x, Spell(m)[|Spell(m)| - 1])
    decreases m, 1
  {
    hide Suffix, WriteAll, SpellAll, Squeeze, Write, Spell, Tight, Front, IsBase, IsName;
    var s := Suffix(m.stars, m.amps);
    FormsOf(m, x);
    FrontIsTight(m, last);
    SuffixEmpty(m.stars, m.amps);
    if s != "" {
      SuffixLast(m.stars, m.amps);
    }
    if m.args == [] {
      SqueezePrefix(Front(m), s + x, last);
      SqueezeSuffix(m.stars, m.amps, x, Front(m)[|Front(m)| - 1]);
      assert s == "" ==> Spell(m) == Front(m);
      Assoc(Front(m), s, Squeeze(x, Spell(m)[|Spell(m)| - 1]));
    } else {
      var f := Front(m);
      var y := s + x;
      SqueezePrefix(f, "<" + (WriteAll(m.args) + (">" + y)), last);
      SqueezeCharacter('<', WriteAll(m.args) + (">" + y), f[|f| - 1]);
      SqueezeAllWritten(m.args, y, '<');
      SqueezeSuffix(m.stars, m.amps, x, '>');
      var z := Squeeze(x, Spell(m)[|Spell(m)| - 1]);
      SpelledParts(f, SpellAll(m.args), s, z);
      Assoc(f, "<", WriteAll(m.args) + (">" + y));
    }
  }

  lemma SpelledParts(f: string, inner: string, s: string, z: string)
    ensures f + (['<'] + (inner + (">" + (s + z)))) == (f + "<") + (inner + (">" + s)) + z
  {
    assert ['<'] == "<";
    assert f + ("<" + (inner + (">" + (s + z)))) == (f + "<") + (inner + (">" + s)) + z;
  }

  lemma {:induction false} SqueezeAllWritten(ms: seq<CppType>, x: string, last: char)
    requires ms != [] && AllWellFormed(ms) && AllAreMeanings(ms)
    ensures Squeeze(WriteAll(ms) + (">" + x), last) == SpellAll(ms) + (">" + Squeeze(x, '>'))
    decreases ms, 2
  {
    hide Squeeze, Write, Spell, IsMeaning, WellFormed, WriteAll;
    WriteAllParts(ms, x);
    var o := Others(ms, x);
    SqueezeWritten(ms[0], o, last);
    var w := Spell(ms[0]);
    if |ms| == 1 {
      SqueezeCloser(x, Closes(ms[0]), w[|w| - 1]);
      assert SpellAll(ms) == w + "" == w;
    } else {
      SqueezeCharacter(',', WriteAll(ms[1..]) + (">" + x), w[|w| - 1]);
      SqueezeAllWritten(ms[1..], x, ',');
      Assoc(w, "," + SpellAll(ms[1..]), ">" + Squeeze(x, '>'));
      Assoc(",", SpellAll(ms[1..]), ">" + Squeeze(x, '>'));
    }
  }

  lemma WrittenIsNulFree(m: CppType)
    requires WellFormed(m) && IsMeaning(m)
    ensures '\0' !in Write(m)
  {
    SqueezeWritten(m, "", '\0');
    assert Write(m) + "" == Write(m) && Spell(m) + "" == Spell(m);
    NulSurvives(Write(m), '\0');
    SpellIsNulFree(m);
  }

  /** Squeezing removes nothing but blanks. */
  lemma {:induction false} NulSurvives(s: string, last: char)
    ensures '\0' in s ==> '\0' in Squeeze(s, last)
    decreases |s|
  {
    if s != "" {
      if !IsSpace(s[0]) {
        NulSurvives(s[1..], s[0]);
        assert s == [s[0]] + s[1..];
      } else {
        var r := DropSpaces(s);
        DropSpacesIsSuffix(s);
        NulSurvives(r, ' ');
        NulSurvives(r, last);
        if '\0' in s {
          var i :| 0 <= i < |s| && s[i] == '\0';
          assert i >= |s| - |r|;
          assert r[i - (|s| - |r|)] == '\0';
        }
      }
    }
  }

  lemma {:induction false} SpellIsNulFree(ty: CppType)
    requires WellFormed(ty)
    ensures '\0' !in Spell(ty)
    decreases ty, 1
  {
    hide IsBase, SpellAll, Suffix;
    assert '\0' !in ty.base by { BaseIsNulFree(ty.base); }
    if ty.args != [] {
      AllSpellIsNulFree(ty.args);
    }
    assert '\0' !in SpellBody(ty);
    assert '\0' !in SpellTail(ty) by { SuffixIsNulFree(ty.stars, ty.amps); }
  }

  lemma SuffixIsNulFree(stars: seq<bool>, amps: nat)
    ensures '\0' !in Suffix(stars, amps)
  {
    hide Suffix;
    SuffixChars(stars, amps);
  }

  lemma BaseIsNulFree(b: string)
    requires IsBase(b)
    ensures '\0' !in b
  {
    assert forall i :: 0 <= i < |b| ==> IsIdentChar(b[i]) || b[i] == ':' || b[i] == ' ';
  }

  lemma {:induction false} AllSpellIsNulFree(tys: seq<CppType>)
    requires tys != [] && AllWellFormed(tys)
    ensures '\0' !in SpellAll(tys)
    decreases tys, 2
  {
    hide Spell;
    SpellIsNulFree(tys[0]);
    if |tys| > 1 {
      AllSpellIsNulFree(tys[1..]);
    }
  }

  /** The canonical text of a type spells it. */
  lemma WrittenSpells(m: CppType)
    requires WellFormed(m) && IsMeaning(m)
    ensures '\0' !in Write(m) && Spells(Write(m), m)
  {
    hide Squeeze, Write, Spell, Tokens, IsMeaning, WellFormed;
    WrittenIsNulFree(m);
    SqueezeWritten(m, "", '\0');
    assert Write(m) + "" == Write(m) && Spell(m) + Squeeze("", Spell(m)[|Spell(m)| - 1]) == Spell(m)
      by { NothingSqueezed(); }
    RemoveWhitespaceKeepsTokens(Write(m));
  }

  lemma NothingSqueezed()
    ensures forall last :: Squeeze("", last) == ""
  {
  }

  lemma {:induction false} MeaningsKeepClosers(m: CppType)
    requires IsMeaning(m)
    ensures KeepsClosers(m)
    decreases m, 1
  {
    hide IsName;
    if m.args != [] {
      AllMeaningsKeepClosers(m.args);
    }
  }

  lemma {:induction false} AllMeaningsKeepClosers(ms: seq<CppType>)
    requires ms != [] && AllAreMeanings(ms)
    ensures AllKeepClosers(ms)
    decreases ms, 0
  {
    hide IsName;
    MeaningsKeepClosers(ms[0]);
    if |ms| > 1 {
      AllMeaningsKeepClosers(ms[1..]);
    }
  }
}
