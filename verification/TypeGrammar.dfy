/** The types of the grammar, how they are spelled, and when spacing cannot change them. */
module TypeGrammar {
  import opened CText
  import opened Whitespace
  import opened NormalizeSpec

  /** Where a type's `const` is written: nowhere, before the name, or behind the name or its template arguments. */
  datatype ConstPlace = NoConst | InFront | Behind

  /**
   * A type: the words of its name, template arguments (none if the list is empty), pointer stars, then ampersands.
   * `stars` tells for each `*` whether a `const` follows it, `amps` counts `&` (one for an lvalue, two for an rvalue
   * reference).
   */
  datatype CppType = CppType(place: ConstPlace, base: string, args: seq<CppType>, stars: seq<bool>, amps: nat)

  /** No whole word of `b` is `const`. */
  predicate NoConstWord(b: string) {
    forall i :: 0 <= i < |b| && StartsWithConst(b[i..]) ==> i > 0 && IsIdentChar(b[i - 1])
  }

  /** Names such as `int`, `QList`, `Qt::Key`, `unsigned long long` or `struct Foo`: words, single spaces and colons. */
  predicate IsBase(b: string) {
    && b != "" && IsIdentChar(b[0]) && IsIdentChar(b[|b| - 1])
    && (forall i :: 0 <= i < |b| ==> IsIdentChar(b[i]) || b[i] == ':' || b[i] == ' ')
    && Tight(b, '\0')
    && NoConstWord(b)
  }

  predicate WellFormed(ty: CppType)
    decreases ty, 1
  {
    IsBase(ty.base) && AllWellFormed(ty.args)
  }

  predicate AllWellFormed(tys: seq<CppType>)
    decreases tys, 0
  {
    tys == [] || (WellFormed(tys[0]) && AllWellFormed(tys[1..]))
  }

  function StarText(stars: seq<bool>): string {
    if stars == [] then "" else "*" + ((if stars[0] then CONST else "") + StarText(stars[1..]))
  }

  /** Stars, each with its `const` if there is one, then ampersands. */
  function Suffix(stars: seq<bool>, amps: nat): string {
    StarText(stars) + Repeat('&', amps)
  }

  lemma SuffixEmpty(stars: seq<bool>, amps: nat)
    ensures Suffix(stars, amps) == "" <==> stars == [] && amps == 0
  {
    assert |Suffix(stars, amps)| == |StarText(stars)| + amps;
  }

  /** The last `*` has a `const` behind it. */
  predicate EndsConst(stars: seq<bool>) {
    stars != [] && stars[|stars| - 1]
  }

  /** The stars without that `const`. */
  function Unconst(stars: seq<bool>): seq<bool>
    requires stars != []
  {
    stars[..|stars| - 1] + [false]
  }

  /** The characters of a suffix. */
  predicate IsSuffixChar(c: char) {
    c == '*' || c == '&' || c in CONST
  }

  lemma {:induction false} StarTextChars(stars: seq<bool>)
    ensures forall i :: 0 <= i < |StarText(stars)| ==> IsSuffixChar(StarText(stars)[i])
    decreases |stars|
  {
    if stars != [] {
      StarTextChars(stars[1..]);
      assert forall c :: c in StarText(stars) ==> c == '*' || c in CONST || c in StarText(stars[1..]);
    }
  }

  lemma SuffixChars(stars: seq<bool>, amps: nat)
    ensures forall i :: 0 <= i < |Suffix(stars, amps)| ==> IsSuffixChar(Suffix(stars, amps)[i])
  {
    StarTextChars(stars);
  }

  lemma TailChars(ty: CppType)
    ensures forall i :: 0 <= i < |SpellTail(ty)| ==> IsSuffixChar(SpellTail(ty)[i])
  {
    hide Suffix;
    SuffixChars(ty.stars, ty.amps);
  }

  /** The type's text with as little space as possible. */
  function Spell(ty: CppType): (s: string)
    decreases ty, 1
  {
    (if ty.place == InFront then CONST_SPACE else "") + SpellBody(ty) + SpellTail(ty)
  }

  /** The name with its template arguments, or with the ` const` that may follow a bare name. */
  function SpellBody(ty: CppType): (s: string)
    decreases ty, 0
  {
    ty.base + (if ty.args != [] then "<" + SpellAll(ty.args) + ">" else if ty.place == Behind then " const" else "")
  }

  function SpellTail(ty: CppType): string {
    (if ty.args != [] && ty.place == Behind then CONST else "") + Suffix(ty.stars, ty.amps)
  }

  function SpellAll(tys: seq<CppType>): (s: string)
    requires tys != []
    decreases tys, 2
  {
    Spell(tys[0]) + (if |tys| == 1 then "" else "," + SpellAll(tys[1..]))
  }

  // ----- a spelling is already free of superfluous space -----

  /** Tight, and without a colon or blank behind `<`. */
  predicate WellSpaced(s: string, last: char) {
    Tight(s, last) && PlainAngles(s, last)
  }

  lemma WellSpacedAppend(a: string, b: string, last: char)
    requires a != "" && WellSpaced(a, last) && WellSpaced(b, a[|a| - 1])
    ensures WellSpaced(a + b, last)
  {
    forall i | 0 <= i < |a + b| ensures TightAt(a + b, last, i) && PlainAngleAt(a + b, last, i) {
      if i < |a| {
        assert TightAt(a, last, i) && PlainAngleAt(a, last, i);
      } else {
        assert TightAt(b, a[|a| - 1], i - |a|) && PlainAngleAt(b, a[|a| - 1], i - |a|);
      }
    }
  }

  /** The first character is no blank, so what comes before it matters only if it is `<` before a colon. */
  lemma WellSpacedAnywhere(s: string, last: char, last': char)
    requires WellSpaced(s, last) && s != "" && !IsSpace(s[0]) && s[0] != ':'
    ensures WellSpaced(s, last')
  {
    forall i | 0 <= i < |s| ensures TightAt(s, last', i) && PlainAngleAt(s, last', i) {
      assert TightAt(s, last, i) && PlainAngleAt(s, last, i);
    }
  }

  /** No blank, `<` or `:` at all. */
  lemma WellSpacedPlain(s: string, last: char)
    requires forall i :: 0 <= i < |s| ==> !IsSpace(s[i]) && s[i] != ':'
    ensures WellSpaced(s, last)
  {
    forall i | 0 <= i < |s| ensures TightAt(s, last, i) && PlainAngleAt(s, last, i) {
    }
  }

  /** One space between two identifiers. */
  lemma WellSpacedBlank(s: string, last: char)
    requires IsIdentChar(last) && s != "" && IsIdentChar(s[0]) && WellSpaced(s, ' ')
    ensures WellSpaced([' '] + s, last)
  {
    TightCons(' ', s, last);
    var t := [' '] + s;
    forall i | 0 <= i < |t| ensures PlainAngleAt(t, last, i) {
      if i > 0 {
        assert PlainAngleAt(s, ' ', i - 1);
      }
    }
  }

  lemma BaseIsWellSpaced(b: string, last: char)
    requires IsBase(b)
    ensures WellSpaced(b, last)
  {
    forall i | 0 <= i < |b| ensures PlainAngleAt(b, '\0', i) {
      assert i > 0 ==> IsIdentChar(b[i - 1]) || b[i - 1] == ':' || b[i - 1] == ' ';
    }
    WellSpacedAnywhere(b, '\0', last);
  }

  lemma {:induction false} BodyIsWellSpaced(ty: CppType, last: char)
    requires WellFormed(ty)
    ensures WellSpaced(SpellBody(ty), last) && SpellBody(ty) != "" && SpellBody(ty)[0] == ty.base[0]
    ensures ty.args != [] ==> SpellBody(ty)[|SpellBody(ty)| - 1] == '>'
    decreases ty, 0
  {
    hide WellSpaced;
    var b := ty.base;
    BaseIsWellSpaced(b, last);
    if ty.args != [] {
      var inner := SpellAll(ty.args);
      AllIsWellSpaced(ty.args, '<');
      WellSpacedPlain("<", b[|b| - 1]);
      WellSpacedAppend("<", inner, b[|b| - 1]);
      WellSpacedPlain(">", ("<" + inner)[|"<" + inner| - 1]);
      WellSpacedAppend("<" + inner, ">", b[|b| - 1]);
      WellSpacedAppend(b, "<" + inner + ">", last);
    } else if ty.place == Behind {
      WellSpacedPlain(CONST, ' ');
      WellSpacedBlank(CONST, b[|b| - 1]);
      assert [' '] + CONST == " const";
      WellSpacedAppend(b, " const", last);
    } else {
      assert b + "" == b;
    }
  }

  lemma ConstFirstIsWellSpaced(body: string, last: char)
    requires body != "" && IsIdentChar(body[0]) && WellSpaced(body, ' ')
    ensures WellSpaced(CONST_SPACE + body, last)
  {
    hide WellSpaced;
    WellSpacedPlain(CONST, last);
    WellSpacedBlank(body, 't');
    WellSpacedAppend(CONST, [' '] + body, last);
    assert CONST + ([' '] + body) == CONST_SPACE + body;
  }

  lemma {:induction false} SpellIsWellSpaced(ty: CppType, last: char)
    requires WellFormed(ty)
    ensures WellSpaced(Spell(ty), last) && Spell(ty) != "" && IsIdentChar(Spell(ty)[0])
    decreases ty, 1
  {
    hide WellSpaced;
    var body, tail := SpellBody(ty), SpellTail(ty);
    var front := (if ty.place == InFront then CONST_SPACE else "") + body;
    BodyIsWellSpaced(ty, ' ');
    BodyIsWellSpaced(ty, last);
    TailChars(ty);
    WellSpacedPlain(tail, body[|body| - 1]);
    if ty.place == InFront {
      ConstFirstIsWellSpaced(body, last);
    } else {
      assert front == body;
    }
    WellSpacedAppend(front, tail, last);
  }

  lemma {:induction false} AllIsWellSpaced(tys: seq<CppType>, last: char)
    requires tys != [] && AllWellFormed(tys)
    ensures WellSpaced(SpellAll(tys), last) && SpellAll(tys) != "" && IsIdentChar(SpellAll(tys)[0])
    decreases tys, 2
  {
    hide WellSpaced;
    var first := Spell(tys[0]);
    SpellIsWellSpaced(tys[0], last);
    if |tys| > 1 {
      var more := SpellAll(tys[1..]);
      AllIsWellSpaced(tys[1..], ',');
      WellSpacedPlain(",", first[|first| - 1]);
      WellSpacedAppend(",", more, first[|first| - 1]);
      WellSpacedAppend(first, "," + more, last);
    } else {
      assert first + "" == first;
    }
  }

  /** Any text with the tokens of `ty`'s spelling is squeezed to that spelling. */
  lemma AnySpacingSqueezesToSpelling(text: string, ty: CppType)
    requires WellFormed(ty) && Tokens(text) == Tokens(Spell(ty))
    ensures RemoveWhitespace(text) == Spell(ty)
  {
    SpellIsWellSpaced(ty, '\0');
    PlainAnglesLex('\0', "", Spell(ty), '\0');
    SpacingIsIrrelevant(text, Spell(ty));
    TightIsFixed(Spell(ty), '\0');
  }
}
