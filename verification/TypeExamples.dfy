/** One concrete type from each family on which the normal form is not the canonical text. */
module TypeExamples {
  import opened CText
  import opened Whitespace
  import opened NormalizeSpec
  import opened Signature
  import opened TypeGrammar
  import opened TypeRender
  import opened TypeCanonical
  import opened TypeIdempotence

  function Plain1(base: string): CppType {
    CppType(NoConst, base, [], [], 0)
  }

  lemma LetterIsBase(b: string)
    requires |b| == 1 && IsIdentChar(b[0])
    ensures IsBase(b) && ShortName(b) == b
  {
    assert forall i :: 0 <= i < |b| ==> TightAt(b, '\0', i);
  }

  /** A spelling is a text of its own type. */
  lemma SpellSpells(ty: CppType)
    requires WellFormed(ty)
    ensures '\0' !in Spell(ty) && Spells(Spell(ty), ty)
  {
    SpellIsNulFree(ty);
  }

  /** A template with a single argument. */
  lemma OneArgument(ty: CppType, arg: CppType, s: string, r: string)
    requires ty.args == [arg] && ShortName(ty.base) == ty.base && Spell(arg) == s && RenderArg(arg, true) == r
    ensures SpellBody(ty) == ty.base + "<" + s + ">"
    ensures RenderBody(ty, false) == ty.base + "<" + r + ">" && RenderBody(ty, true) == ty.base + "<" + r + "> "
  {
    hide Spell, RenderArg, ShortName;
    assert SpellAll(ty.args) == s + "" == s;
    assert RenderAll(ty.args) == r + "" == r;
  }

  /** The texts of a type, from the texts of its body. */
  lemma FromBody(ty: CppType)
    ensures Spell(ty) == (if ty.place == InFront then CONST_SPACE else "") + SpellBody(ty) + SpellTail(ty)
    ensures RenderArg(ty, true) == (if IsConst(ty) then CONST_SPACE else "")
      + RenderBody(ty, SpellTail(ty) == "") + Suffix(ty.stars, ty.amps)
  {
  }

  lemma LetterForms(b: string)
    requires |b| == 1 && IsIdentChar(b[0])
    ensures WellFormed(Plain1(b)) && Spell(Plain1(b)) == b && RenderArg(Plain1(b), true) == b
  {
    hide ShortName, IsBase;
    LetterIsBase(b);
    OneStar();
  }

  lemma TemplateIsWellFormed(ty: CppType, arg: CppType)
    requires ty.args == [arg] && IsBase(ty.base) && WellFormed(arg)
    ensures WellFormed(ty)
  {
    hide IsBase;
    assert ty.args[0] == arg && ty.args[1..] == [];
    assert AllWellFormed([]);
    assert AllWellFormed(ty.args);
  }

  /** `A<B> *` with a `const` in one of two places. */
  function PointerToConst(place: ConstPlace): CppType {
    CppType(place, "A", [Plain1("B")], [false], 0)
  }

  lemma PointerForms(place: ConstPlace)
    requires place != NoConst
    ensures var ty := PointerToConst(place);
      WellFormed(ty)
      && Spell(ty) == (if place == InFront then "const A<B>*" else "A<B>const*")
      && RenderTop(ty) == (if place == InFront then "const A<B>*" else "A<B>*")
  {
    hide Spell, WellFormed, RenderTop;
    PointerTexts(place);
    var body := "A" + "<" + "B" + ">";
    assert body == "A<B>";
    assert CONST_SPACE + body + "*" == "const A<B>*" && CONST_SPACE + (body + "*") == "const A<B>*";
    assert "" + body + (CONST + "*") == "A<B>const*" && body + "*" == "A<B>*";
  }

  lemma PointerTexts(place: ConstPlace)
    requires place != NoConst
    ensures var ty, body := PointerToConst(place), "A" + "<" + "B" + ">";
      WellFormed(ty)
      && Spell(ty) == (if place == InFront then CONST_SPACE + body + "*" else "" + body + (CONST + "*"))
      && RenderTop(ty) == (if place == InFront then CONST_SPACE + (body + "*") else body + "*")
  {
    hide IsBase, ShortName, Suffix, SpellBody, RenderBody, Spell, WellFormed;
    var ty := PointerToConst(place);
    LetterIsBase("A");
    LetterForms("B");
    OneStar();
    OneArgument(ty, Plain1("B"), "B", "B");
    FromBody(ty);
    TemplateIsWellFormed(ty, Plain1("B"));
    assert SpellTail(ty) == (if place == Behind then CONST + "*" else "" + "*");
  }

  /** `const` behind template arguments and before a `*` is lost; the same type with `const` in front keeps it. */
  lemma ConstBehindArgumentsIsLost()
    ensures var ty := PointerToConst(Behind);
      '\0' !in Spell(ty) && Spell(ty) == "A<B>const*" && NormalizedTypeOf(Spell(ty)) == "A<B>*"
    ensures var ty := PointerToConst(InFront);
      '\0' !in Spell(ty) && Spell(ty) == "const A<B>*" && NormalizedTypeOf(Spell(ty)) == "const A<B>*"
    ensures ParameterMeaning(PointerToConst(Behind)) == ParameterMeaning(PointerToConst(InFront))
  {
    hide Spell, RenderTop, ShortName, WellFormed, NormalizedTypeOf, Tokens;
    PointerForms(Behind);
    PointerForms(InFront);
    SpellSpells(PointerToConst(Behind));
    SpellSpells(PointerToConst(InFront));
    NormalizedTypeIsRendered(Spell(PointerToConst(Behind)), PointerToConst(Behind));
    NormalizedTypeIsRendered(Spell(PointerToConst(InFront)), PointerToConst(InFront));
  }

  lemma OneStar()
    ensures Suffix([false], 0) == "*" && Suffix([false], 1) == "*&" && Suffix([], 0) == "" && Suffix([], 1) == "&"
  {
  }

  /** A reference to a pointer to constant is taken for a constant reference. */
  lemma ConstPointerReferenceIsLost()
    ensures NormalizedTypeOf("const T*&") == "T*"
  {
    hide IsBase, ShortName, NormalizedTypeOf;
    LetterIsBase("T");
    OneStar();
    var ty := CppType(InFront, "T", [], [false], 1);
    assert RenderTop(ty) == "T*";
    assert Spell(ty) == "const T*&";
    SpellSpells(ty);
    NormalizedTypeIsRendered(Spell(ty), ty);
  }

  /** So is the `const` of an rvalue reference, which becomes an lvalue reference. */
  lemma ConstRvalueReferenceIsLost()
    ensures NormalizedTypeOf("const T&&") == "T&"
  {
    hide IsBase, ShortName, NormalizedTypeOf;
    LetterIsBase("T");
    var ty := CppType(InFront, "T", [], [], 2);
    assert Suffix([], 2) == "&&" && Suffix([], 1) == "&";
    assert RenderTop(ty) == "T&";
    assert Spell(ty) == "const T&&";
    SpellSpells(ty);
    NormalizedTypeIsRendered(Spell(ty), ty);
  }

  /** Two spellings of one C++ type that are two names here. */
  lemma UnsignedLongIntKeepsItsName()
    ensures ShortName("unsigned long") == "ulong" && ShortName("unsigned long int") == "unsigned long int"
  {
    LongIsShortened();
    LongIntIsNot();
  }

  lemma StarTexts()
    ensures Suffix([true], 0) == "*const" && Suffix([true], 1) == "*const&"
    ensures Suffix([true, false], 0) == "*const*" && Suffix([false], 0) == "*"
  {
    assert [true][1..] == [] && [false][1..] == [] && [true, false][1..] == [false];
    assert StarText([]) == "" && StarText([true]) == "*const" && StarText([false]) == "*";
    assert StarText([true, false]) == "*" + (CONST + "*");
  }

  lemma StarType(place: ConstPlace, stars: seq<bool>, amps: nat, s: string, r: string)
    requires place != Behind
    requires var ty := CppType(place, "T", [], stars, amps); Spell(ty) == s && RenderTop(ty) == r
    ensures '\0' !in s && NormalizedTypeOf(s) == r
  {
    hide IsBase, NormalizedTypeOf, Spell, RenderTop;
    var ty := CppType(place, "T", [], stars, amps);
    LetterIsBase("T");
    SpellSpells(ty);
    NormalizedTypeIsRendered(Spell(ty), ty);
  }

  const CONST_POINTER: CString := "T*const"
  const POINTER_TO_CONST_POINTER: CString := "const T*const*"
  const CONST_POINTER_TO_CONST: CString := "const T*const"
  const CONST_POINTER_REFERENCE: CString := "T*const&"

  /** A `const` behind a star stays, and the one in front of the type only if the last star has none. */
  lemma ConstBehindStarStays()
    ensures NormalizedTypeOf(CONST_POINTER) == "T*const"
    ensures NormalizedTypeOf(POINTER_TO_CONST_POINTER) == "const T*const*"
    ensures NormalizedTypeOf(CONST_POINTER_TO_CONST) == "T*const"
  {
    hide NormalizedTypeOf;
    ConstPointerForms();
    ConstPointerToConstForms();
    PointerToConstPointerForms();
    StarType(NoConst, [true], 0, "T*const", "T*const");
    StarType(InFront, [true], 0, "const T*const", "T*const");
    StarType(InFront, [true, false], 0, "const T*const*", "const T*const*");
  }

  lemma ConstPointerForms()
    ensures var ty := CppType(NoConst, "T", [], [true], 0); Spell(ty) == "T*const" && RenderTop(ty) == "T*const"
  {
    hide IsBase, Suffix, ShortName;
    LetterIsBase("T");
    StarTexts();
    assert "T" + "" == "T" && "" + "T" == "T" && "T" + "*const" == "T*const";
  }

  lemma ConstPointerToConstForms()
    ensures var ty := CppType(InFront, "T", [], [true], 0); Spell(ty) == "const T*const" && RenderTop(ty) == "T*const"
  {
    hide IsBase, Suffix, ShortName;
    LetterIsBase("T");
    StarTexts();
    assert "T" + "" == "T" && "T" + "*const" == "T*const";
    assert CONST_SPACE + "T" == "const T" && "const T" + "*const" == "const T*const";
  }

  lemma PointerToConstPointerForms()
    ensures var ty := CppType(InFront, "T", [], [true, false], 0);
      Spell(ty) == "const T*const*" && RenderTop(ty) == "const T*const*"
  {
    hide IsBase, Suffix, ShortName;
    LetterIsBase("T");
    StarTexts();
    assert "T" + "" == "T" && CONST_SPACE + "T" == "const T";
    assert "const T" + "*const*" == "const T*const*" && CONST_SPACE + ("T" + "*const*") == "const T*const*";
  }

  /** Before an `&` it goes, and the `&` with it. */
  lemma ConstBehindStarIsLostInReference()
    ensures NormalizedTypeOf(CONST_POINTER_REFERENCE) == "T*"
  {
    hide IsBase, NormalizedTypeOf, Suffix, ShortName;
    LetterIsBase("T");
    StarTexts();
    assert Unconst([true]) == [false];
    assert "T" + "" == "T" && "" + "T" == "T" && "T" + "*const&" == "T*const&" && "T" + "*" == "T*";
    StarType(NoConst, [true], 1, "T*const&", "T*");
  }

  lemma LongIsShortened()
    ensures ShortName("unsigned long") == "ulong"
  {
    var b := "unsigned long";
    assert b[..8] == "unsigned" && b[8..] == " long" && b[13..] == "";
    assert UnsignedName(" long") == ("ulong", 5) by {
      assert " long"[5..] == "" && " long"[1] == 'l' && " int"[1] == 'i';
    }
    assert Simplify(b) == Step("ulong", "");
  }

  lemma LongIntIsNot()
    ensures ShortName("unsigned long int") == "unsigned long int"
  {
    var b := "unsigned long int";
    assert b[..8] == "unsigned" && b[8..] == " long int";
    assert UnsignedName(" long int") == ("", 0) by {
      var u := " long int";
      assert u[..5] == " long" && u[5..] == " int" && u[1] == 'l' && " int"[1] == 'i';
    }
    assert Simplify(b) == Step("", b);
    assert "" + b == b;
  }

  /** `B<C>`, constant, as a last template argument. */
  function ConstArgument(place: ConstPlace): CppType {
    CppType(place, "B", [Plain1("C")], [], 0)
  }

  function Nested(place: ConstPlace): CppType {
    CppType(NoConst, "A", [ConstArgument(place)], [], 0)
  }

  lemma ConstArgumentForms(place: ConstPlace)
    requires place != NoConst
    ensures var b := ConstArgument(place);
      WellFormed(b)
      && Spell(b) == (if place == InFront then "const B<C>" else "B<C>const")
      && RenderArg(b, true) == (if place == InFront then "const B<C> " else "const B<C>")
  {
    hide Spell, RenderArg, WellFormed;
    ConstArgumentText(place);
    var text := "B" + "<" + "C" + ">";
    assert text == "B<C>";
    assert CONST_SPACE + text + "" == CONST_SPACE + text;
    assert "" + text + CONST == text + CONST == "B<C>const";
    assert CONST_SPACE + ("B" + "<" + "C" + "> ") == "const B<C> ";
    assert CONST_SPACE + ("B" + "<" + "C" + ">") == "const B<C>";
  }

  lemma ConstArgumentText(place: ConstPlace)
    requires place != NoConst
    ensures var b := ConstArgument(place);
      WellFormed(b)
      && Spell(b) == (if place == InFront then CONST_SPACE else "") + ("B" + "<" + "C" + ">")
                     + (if place == Behind then CONST else "")
      && RenderArg(b, true) == CONST_SPACE + ("B" + "<" + "C" + (if place == InFront then "> " else ">"))
  {
    hide IsBase, ShortName, Suffix, SpellBody, RenderBody, Spell, WellFormed;
    var b := ConstArgument(place);
    LetterIsBase("B");
    LetterForms("C");
    OneStar();
    OneArgument(b, Plain1("C"), "C", "C");
    FromBody(b);
    TemplateIsWellFormed(b, Plain1("C"));
    assert SpellTail(b) == (if place == Behind then CONST else "") && Suffix([], 0) == "";
  }

  lemma NestedText(place: ConstPlace, s: string, r: string)
    requires var b := ConstArgument(place); WellFormed(b) && Spell(b) == s && RenderArg(b, true) == r
    ensures var ty := Nested(place);
      WellFormed(ty) && Spell(ty) == "A" + "<" + s + ">" && RenderTop(ty) == "A" + "<" + r + ">"
  {
    hide IsBase, ShortName, Suffix, SpellBody, RenderBody, Spell, WellFormed, RenderArg;
    var ty := Nested(place);
    LetterIsBase("A");
    OneStar();
    OneArgument(ty, ConstArgument(place), s, r);
    FromBody(ty);
    TemplateIsWellFormed(ty, ConstArgument(place));
    assert SpellTail(ty) == "" && Suffix([], 0) == "";
    assert Spell(ty) == SpellBody(ty) && RenderTop(ty) == RenderBody(ty, false);
  }

  lemma NestedForms(place: ConstPlace)
    requires place != NoConst
    ensures var ty := Nested(place);
      WellFormed(ty)
      && Spell(ty) == (if place == InFront then "A<const B<C>>" else "A<B<C>const>")
      && RenderTop(ty) == (if place == InFront then "A<const B<C> >" else "A<const B<C>>")
  {
    hide *;
    ConstArgumentForms(place);
    var b := ConstArgument(place);
    NestedText(place, Spell(b), RenderArg(b, true));
  }

  /** A last template argument with `const` behind its own arguments leaves `>>`, which a second pass splits. */
  lemma LostCloserIsNotIdempotent()
    ensures var ty := Nested(Behind);
      '\0' !in Spell(ty) && Spell(ty) == "A<B<C>const>" && NormalizedTypeOf(Spell(ty)) == "A<const B<C>>"
    ensures var ty := Nested(InFront);
      '\0' !in Spell(ty) && Spell(ty) == "A<const B<C>>" && NormalizedTypeOf(Spell(ty)) == "A<const B<C> >"
  {
    hide Spell, RenderTop, ShortName, WellFormed, NormalizedTypeOf, Tokens;
    NestedForms(Behind);
    NestedForms(InFront);
    SpellSpells(Nested(Behind));
    SpellSpells(Nested(InFront));
    NormalizedTypeIsRendered(Spell(Nested(Behind)), Nested(Behind));
    NormalizedTypeIsRendered(Spell(Nested(InFront)), Nested(InFront));
  }
}
