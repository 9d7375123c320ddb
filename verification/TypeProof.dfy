/** The normaliser computes `RenderArg` and `RenderTop` on every spelled type. */
module TypeProof {
  import opened CText
  import opened NormalizeSpec
  import opened NormalizeType
  import opened TypeGrammar
  import opened TypeLengths
  import opened TypeRender

  // ----- the substitutions see the name only -----

  lemma UnsignedNameExtends(u: string, y: string)
    requires FollowsName(y)
    ensures UnsignedName(u + y) == UnsignedName(u)
  {
    hide FollowsName;
    WordInName(" int", u, y);
    WordInName(" long", u, y);
    WordInName(" short", u, y);
    WordInName(" char", u, y);
    if " long" <= u {
      assert (u + y)[5..] == u[5..] + y;
      WordInName(" int", u[5..], y);
      WordInName(" long", u[5..], y);
    }
  }

  lemma SimplifyUnsignedExtends(b: string, y: string)
    requires FollowsName(y) && "unsigned" <= b
    ensures Simplify(b + y) == Step(Simplify(b).done, Simplify(b).rest + y)
  {
    hide UnsignedName, FollowsName;
    WordInName("unsigned", b, y);
    WordEnds(b, y);
    UnsignedNameExtends(b[8..], y);
    assert (b + y)[8..] == b[8..] + y;
    var (name, covered) := UnsignedName(b[8..]);
    assert (b + y)[8 + covered..] == b[8 + covered..] + y;
  }

  /** A name of eight characters ends there, whatever follows it. */
  lemma WordEnds(b: string, y: string)
    requires FollowsName(y) && |b| >= 8
    ensures (|b + y| > 8 && IsIdentChar((b + y)[8])) <==> (|b| > 8 && IsIdentChar(b[8]))
  {
    assert |b + y| > 8 ==> (b + y)[8] == if |b| > 8 then b[8] else y[0];
  }

  lemma StructInName(b: string, y: string)
    requires FollowsName(y)
    ensures "struct " <= b + y <==> "struct " <= b
    ensures "struct " <= b ==> (b + y)[7..] == b[7..] + y
  {
    hide FollowsName;
    WordInName("struct ", b, y);
  }

  lemma ClassInName(b: string, y: string)
    requires FollowsName(y)
    ensures "class " <= b + y <==> "class " <= b
    ensures "class " <= b ==> (b + y)[6..] == b[6..] + y
  {
    hide FollowsName;
    WordInName("class ", b, y);
  }

  lemma EnumInName(b: string, y: string)
    requires FollowsName(y)
    ensures "enum " <= b + y <==> "enum " <= b
    ensures "enum " <= b ==> (b + y)[5..] == b[5..] + y
  {
    hide FollowsName;
    WordInName("enum ", b, y);
  }

  lemma SimplifyElaborated(s: string)
    requires !("unsigned" <= s)
    ensures Simplify(s) ==
      Step("", if "struct " <= s then s[7..] else if "class " <= s then s[6..] else if "enum " <= s then s[5..] else s)
  {
  }

  lemma SimplifyElaboratedExtends(b: string, y: string)
    requires FollowsName(y) && !("unsigned" <= b) && !("unsigned" <= b + y)
    ensures Simplify(b + y) == Step(Simplify(b).done, Simplify(b).rest + y)
  {
    hide Simplify, FollowsName;
    SimplifyElaborated(b);
    SimplifyElaborated(b + y);
    StructInName(b, y);
    ClassInName(b, y);
    EnumInName(b, y);
  }

  lemma SimplifyExtends(b: string, y: string)
    requires FollowsName(y)
    ensures Simplify(b + y) == Step(Simplify(b).done, Simplify(b).rest + y)
  {
    hide Simplify, FollowsName;
    WordInName("unsigned", b, y);
    if "unsigned" <= b {
      SimplifyUnsignedExtends(b, y);
    } else {
      SimplifyElaboratedExtends(b, y);
    }
  }

  /** What the substitutions leave of a name is its tail. */
  lemma SimplifyKeepsTail(b: string)
    ensures var r := Simplify(b).rest; |r| <= |b| && r == b[|b| - |r|..]
  {
    hide UnsignedName;
  }

  // ----- the character loop -----

  /** A character that opens no argument list and is not followed by `const` is copied. */
  lemma EmitCopies(s: string, stop: char, adjustConst: bool, star: bool, out: string)
    requires s != "" && s[0] != '<' && (IsIdentChar(s[0]) || !StartsWithConst(s[1..]))
    ensures Emit(s, stop, adjustConst, star, out) == Emit(s[1..], stop, adjustConst, star || s[0] == '*', out + [s[0]])
  {
    hide StartsWithConst;
    assert out + [s[0]] + "" == out + [s[0]];
  }

  /** The characters of a name are copied one by one. */
  lemma {:induction false} EmitName(b: string, m: nat, y: string, stop: char, adjustConst: bool, out: string)
    requires IsBase(b) && FollowsName(y) && m <= |b|
    ensures Emit(b[m..] + y, stop, adjustConst, false, out) == Emit(y, stop, adjustConst, false, out + b[m..])
    decreases |b| - m
  {
    hide Emit, FollowsName, StartsWithConst;
    if m == |b| {
      assert b[m..] + y == y && out + b[m..] == out;
    } else {
      var s := b[m..] + y;
      assert IsIdentChar(b[m]) || b[m] == ':' || b[m] == ' ';
      assert s[0] == b[m] && s[1..] == b[m + 1..] + y;
      NoConstAfter(b, m, y);
      EmitCopies(s, stop, adjustConst, false, out);
      EmitName(b, m + 1, y, stop, adjustConst, out + [b[m]]);
      assert out + [b[m]] + b[m + 1..] == out + b[m..];
    }
  }

  lemma NoConstAfter(b: string, m: nat, y: string)
    requires IsBase(b) && FollowsName(y) && m < |b|
    ensures !IsIdentChar(b[m]) ==> !StartsWithConst(b[m + 1..] + y)
  {
    if !IsIdentChar(b[m]) {
      ConstInName(b[m + 1..], y);
      assert m + 1 < |b|;
      assert NoConstWord(b);
    }
  }

  lemma SuffixHead(stars: seq<bool>, amps: nat)
    ensures var s := Suffix(stars, amps);
      (s == "" || s[0] == '*' || s[0] == '&') && !StartsWithConst(s) && DropSpaces(s) == s
      && (stars != [] ==> s == ['*'] + ((if stars[0] then CONST else "") + Suffix(stars[1..], amps)))
      && (stars == [] && amps > 0 ==> s == ['&'] + Suffix([], amps - 1))
      && (stars == [] && amps == 0 ==> s == "")
  {
    var s := Suffix(stars, amps);
    if stars == [] {
      if amps > 0 {
        assert Repeat('&', amps) == ['&'] + Repeat('&', amps - 1);
        assert "" + Repeat('&', amps - 1) == Repeat('&', amps - 1);
      }
    } else {
      var k, rest, e := if stars[0] then CONST else "", StarText(stars[1..]), Repeat('&', amps);
      assert "*" + (k + rest) + e == ['*'] + (k + (rest + e));
    }
    assert CONST[0] == 'c';
  }

  /** `const` at the head of a suffix's rest is a word of its own. */
  lemma ConstInSuffix(stars: seq<bool>, amps: nat)
    ensures var s := Suffix(stars, amps);
      StartsWithConst(CONST + s) && (CONST + s)[5..] == s && DropSpaces((CONST + s)[5..]) == s
  {
    hide Suffix, DropSpaces;
    var s := Suffix(stars, amps);
    SuffixHead(stars, amps);
    assert (CONST + s)[5..] == s;
    assert |s| > 0 ==> (CONST + s)[5] == s[0];
  }

  /** What the character loop writes for a suffix. */
  function Emitted(stars: seq<bool>, amps: nat, adjustConst: bool): string {
    if adjustConst then Settled(stars, amps) else Suffix(stars, amps)
  }

  /** One `*` with its `const`, kept: the loop goes on behind them. */
  lemma EmitStar(stars: seq<bool>, amps: nat, stop: char, adjustConst: bool, star: bool, out: string)
    requires stars != [] && !(adjustConst && stars == [true] && amps > 0)
    ensures Emit(Suffix(stars, amps), stop, adjustConst, star, out)
         == Emit(Suffix(stars[1..], amps), stop, adjustConst, true, out + ("*" + (if stars[0] then CONST else "")))
  {
    hide Emit, Suffix, StartsWithConst, DropSpaces;
    var rest, s := Suffix(stars[1..], amps), Suffix(stars, amps);
    SuffixHead(stars, amps);
    SuffixHead(stars[1..], amps);
    assert stars[1..] == [] ==> stars == [stars[0]];
    if stars[0] {
      ConstInSuffix(stars[1..], amps);
      assert s[0] == '*' && s[1..] == CONST + rest;
      EmitPlaces(s, stop, adjustConst, star, out);
      assert out + ['*'] + CONST == out + ("*" + CONST);
    } else {
      assert s == ['*'] + rest by { assert "" + rest == rest; }
      assert s[0] == '*' && s[1..] == rest;
      EmitCopies(s, stop, adjustConst, star, out);
      assert out + ['*'] == out + ("*" + "");
    }
  }

  /** A `*` followed by whatever `PlaceConst` makes of the text behind it. */
  lemma EmitPlaces(s: string, stop: char, adjustConst: bool, star: bool, out: string)
    requires s != "" && s[0] == '*'
    ensures var p := PlaceConst(s[1..], adjustConst, true, out + ['*']);
      Emit(s, stop, adjustConst, star, out) == Emit(p.rest, stop, adjustConst, true, p.done)
  {
    hide PlaceConst;
    assert out + [s[0]] + "" == out + ['*'];
  }

  /** The last `*` of a parameter with `const` and `&` behind it: both go. */
  lemma EmitConstReference(amps: nat, stop: char, star: bool, out: string)
    requires amps > 0
    ensures Emit(Suffix([true], amps), stop, true, star, out) == Emit(Suffix([], amps - 1), stop, true, true, out + "*")
  {
    hide Emit, Suffix, StartsWithConst, DropSpaces;
    var s, rest := Suffix([true], amps), Suffix([], amps);
    SuffixHead([true], amps);
    SuffixHead([], amps);
    assert [true][1..] == [];
    ConstInSuffix([], amps);
    assert s[0] == '*' && s[1..] == CONST + rest && rest[1..] == Suffix([], amps - 1);
    EmitPlaces(s, stop, true, star, out);
    assert out + ['*'] == out + "*";
  }

  /** The ampersands are copied. */
  lemma {:induction false} EmitAmps(amps: nat, stop: char, adjustConst: bool, star: bool, out: string)
    ensures Emit(Suffix([], amps), stop, adjustConst, star, out) == out + Suffix([], amps)
    decreases amps
  {
    hide Emit, Suffix, StartsWithConst;
    var s := Suffix([], amps);
    SuffixHead([], amps);
    if amps == 0 {
      EmitNothing(stop, adjustConst, star, out);
    } else {
      SuffixHead([], amps - 1);
      assert s[1..] == Suffix([], amps - 1);
      EmitCopies(s, stop, adjustConst, star, out);
      EmitAmps(amps - 1, stop, adjustConst, star, out + [s[0]]);
      Assoc(out, [s[0]], s[1..]);
    }
  }

  lemma SettledStep(stars: seq<bool>, amps: nat)
    requires stars != [] && stars[1..] != []
    ensures Settled(stars, amps) == "*" + (if stars[0] then CONST else "") + Settled(stars[1..], amps)
  {
    hide Suffix;
    var t := stars[1..];
    SuffixHead(stars, amps);
    Assoc("*", if stars[0] then CONST else "", Suffix(t, amps));
    if EndsConst(stars) && amps > 0 {
      var u := Unconst(stars);
      assert u[0] == stars[0] && u[1..] == Unconst(t);
      SuffixHead(u, amps - 1);
      Assoc("*", if stars[0] then CONST else "", Suffix(Unconst(t), amps - 1));
    }
  }

  lemma SettledOne(star: bool, amps: nat)
    ensures Settled([star], amps) ==
      if star && amps > 0 then "*" + Suffix([], amps - 1) else "*" + (if star then CONST else "") + Suffix([], amps)
  {
    hide Suffix;
    assert [star][1..] == [] && [false][1..] == [];
    SuffixHead([star], amps);
    Assoc("*", if star then CONST else "", Suffix([], amps));
    if star && amps > 0 {
      assert Unconst([star]) == [false];
      SuffixHead([false], amps - 1);
      assert "" + Suffix([], amps - 1) == Suffix([], amps - 1);
    }
  }

  /** A whole suffix: as written, but for a constant reference of a parameter. */
  lemma {:induction false} EmitSuffix(stars: seq<bool>, amps: nat, stop: char, adjustConst: bool, star: bool,
      out: string)
    ensures Emit(Suffix(stars, amps), stop, adjustConst, star, out) == out + Emitted(stars, amps, adjustConst)
    decreases |stars|
  {
    hide Emit, Suffix, Settled;
    if stars == [] {
      EmitAmps(amps, stop, adjustConst, star, out);
      SettledNothing(amps);
    } else if adjustConst && stars == [true] && amps > 0 {
      EmitConstReference(amps, stop, star, out);
      EmitAmps(amps - 1, stop, true, true, out + "*");
      SettledOne(true, amps);
      Assoc(out, "*", Suffix([], amps - 1));
    } else {
      var k := "*" + (if stars[0] then CONST else "");
      EmitStar(stars, amps, stop, adjustConst, star, out);
      EmitSuffix(stars[1..], amps, stop, adjustConst, true, out + k);
      EmittedStep(stars, amps, adjustConst);
      Assoc(out, k, Emitted(stars[1..], amps, adjustConst));
    }
  }

  lemma SettledNothing(amps: nat)
    ensures Settled([], amps) == Suffix([], amps)
  {
  }

  lemma EmittedStep(stars: seq<bool>, amps: nat, adjustConst: bool)
    requires stars != [] && !(adjustConst && stars == [true] && amps > 0)
    ensures Emitted(stars, amps, adjustConst) ==
      "*" + (if stars[0] then CONST else "") + Emitted(stars[1..], amps, adjustConst)
  {
    hide Suffix, Settled;
    if adjustConst {
      if stars[1..] == [] {
        assert stars == [stars[0]];
        SettledOne(stars[0], amps);
        SettledNothing(amps);
      } else {
        SettledStep(stars, amps);
      }
    } else {
      SuffixHead(stars, amps);
      Assoc("*", if stars[0] then CONST else "", Suffix(stars[1..], amps));
    }
  }

  lemma EmitNothing(stop: char, adjustConst: bool, star: bool, out: string)
    ensures Emit(Suffix([], 0), stop, adjustConst, star, out) == out + Suffix([], 0)
  {
  }

  /** The suffix behind the template arguments, without or with a `const` before it. */
  lemma PlaceAfterArguments(stars: seq<bool>, amps: nat, adjustConst: bool, out: string)
    ensures PlaceConst(Suffix(stars, amps), adjustConst, false, out) == Step(out, Suffix(stars, amps))
    ensures PlaceConst(CONST + Suffix(stars, amps), adjustConst, false, out) ==
      if !adjustConst then Step(CONST_SPACE + out, Suffix(stars, amps))
      else if stars == [] && amps > 0 then Step(out, Suffix([], amps - 1))
      else Step(out, Suffix(stars, amps))
  {
    hide Suffix, DropSpaces, StartsWithConst;
    SuffixHead(stars, amps);
    ConstInSuffix(stars, amps);
  }

  // ----- a name, its arguments and its suffix -----

  /** The text behind the name once a `const` behind a bare name has moved. */
  function After(ty: CppType, stars: seq<bool>, amps: nat): string {
    (if ty.args == [] then "" else "<" + (SpellAll(ty.args) + (">" + (if ConstTrails(ty) then CONST else ""))))
    + Suffix(stars, amps)
  }

  /** What the character loop makes of a name and the text after it. */
  function Finish(ty: CppType, stars: seq<bool>, amps: nat, stop: char, adjustConst: bool, lead: string): string {
    var out := lead + RenderBody(ty, !ConstTrails(ty) && stars == [] && amps == 0 && stop == '>');
    if ConstTrails(ty) && !adjustConst then CONST_SPACE + out + Suffix(stars, amps)
    else if ConstTrails(ty) && stars == [] && amps > 0 then out + Suffix([], amps - 1)
    else out + Emitted(stars, amps, adjustConst)
  }

  function Closer(tail: string, stop: char): string {
    if Next(tail, stop) == '>' then " " else ""
  }

  lemma AfterFollowsName(ty: CppType, stars: seq<bool>, amps: nat)
    ensures FollowsName(After(ty, stars, amps))
    ensures ty.args == [] ==> After(ty, stars, amps) == Suffix(stars, amps)
    ensures ty.args != [] ==>
      After(ty, stars, amps) ==
        "<" + (SpellAll(ty.args) + (">" + ((if ConstTrails(ty) then CONST else "") + Suffix(stars, amps))))
  {
    hide Suffix, SpellAll;
    SuffixHead(stars, amps);
    if ty.args == [] {
      assert "" + Suffix(stars, amps) == Suffix(stars, amps);
    } else {
      var inner, k, s := SpellAll(ty.args), if ConstTrails(ty) then CONST else "", Suffix(stars, amps);
      assert "<" + (inner + (">" + k)) + s == "<" + (inner + (">" + (k + s)));
    }
  }

  /** A `<` hands over to the argument loop and then to a `const` behind the closing `>`. */
  lemma EmitOpens(t: string, stop: char, adjustConst: bool, out: string)
    ensures
      var a := Arguments(t, stop);
      var p := PlaceConst(a.rest, adjustConst, false, out + ("<" + a.done));
      Emit("<" + t, stop, adjustConst, false, out) == Emit(p.rest, stop, adjustConst, false, p.done)
  {
    hide Arguments, PlaceConst;
    var s := "<" + t;
    assert s[0] == '<' && s[1..] == t;
    assert out + [s[0]] + Arguments(t, stop).done == out + ("<" + Arguments(t, stop).done);
  }

  /** The bare name has been copied. */
  lemma EmitRestName(ty: CppType, stars: seq<bool>, amps: nat, stop: char, adjustConst: bool, lead: string)
    requires WellFormed(ty)
    ensures Emit(Simplify(ty.base).rest + After(ty, stars, amps), stop, adjustConst, false,
                 lead + Simplify(ty.base).done)
         == Emit(After(ty, stars, amps), stop, adjustConst, false, lead + ShortName(ty.base))
  {
    hide Emit, After, Simplify, IsBase;
    AfterFollowsName(ty, stars, amps);
    SimplifyKeepsTail(ty.base);
    var p := Simplify(ty.base);
    EmitName(ty.base, |ty.base| - |p.rest|, After(ty, stars, amps), stop, adjustConst, lead + p.done);
    Assoc(lead, p.done, p.rest);
  }

  /** The argument list has been copied. */
  lemma EmitRestArguments(ty: CppType, stars: seq<bool>, amps: nat, stop: char, adjustConst: bool, out: string)
    requires WellFormed(ty) && ty.args != []
    requires var tail := (if ConstTrails(ty) then CONST else "") + Suffix(stars, amps);
      Arguments(SpellAll(ty.args) + (">" + tail), stop) == Step(RenderAll(ty.args) + ">" + Closer(tail, stop), tail)
    ensures
      var closer := if !ConstTrails(ty) && stars == [] && amps == 0 && stop == '>' then " " else "";
      var done := out + ("<" + (RenderAll(ty.args) + ">" + closer));
      Emit(After(ty, stars, amps), stop, adjustConst, false, out) ==
        if ConstTrails(ty) && !adjustConst then CONST_SPACE + done + Suffix(stars, amps)
        else if ConstTrails(ty) && stars == [] && amps > 0 then done + Suffix([], amps - 1)
        else done + Emitted(stars, amps, adjustConst)
  {
    hide Emit, After, Arguments, SpellAll, RenderAll, Suffix, PlaceConst;
    AfterFollowsName(ty, stars, amps);
    var tail := (if ConstTrails(ty) then CONST else "") + Suffix(stars, amps);
    EmitOpens(SpellAll(ty.args) + (">" + tail), stop, adjustConst, out);
    SuffixHead(stars, amps);
    var done := out + ("<" + (RenderAll(ty.args) + ">" + Closer(tail, stop)));
    PlaceAfterArguments(stars, amps, adjustConst, done);
    assert !ConstTrails(ty) ==> tail == Suffix(stars, amps);
    EmitSuffix(stars, amps, stop, adjustConst, false, done);
    EmitSuffix(stars, amps, stop, adjustConst, false, CONST_SPACE + done);
    if amps > 0 {
      EmitAmps(amps - 1, stop, adjustConst, false, done);
    }
  }

  /** What may stop a type: the end, or what ends an argument or a parameter. */
  predicate IsStop(stop: char) {
    stop == '\0' || stop == ',' || stop == '>' || stop == ')'
  }

  lemma {:induction false} EmitRest(ty: CppType, stars: seq<bool>, amps: nat, stop: char, adjustConst: bool,
      lead: string)
    requires WellFormed(ty)
    ensures Emit(Simplify(ty.base).rest + After(ty, stars, amps), stop, adjustConst, false,
                 lead + Simplify(ty.base).done)
         == Finish(ty, stars, amps, stop, adjustConst, lead)
    decreases ty, 0
  {
    hide Emit, After, Simplify, IsBase, Arguments, SpellAll, RenderAll, Suffix, ShortName, Closer;
    EmitRestName(ty, stars, amps, stop, adjustConst, lead);
    var out := lead + ShortName(ty.base);
    if ty.args == [] {
      AfterFollowsName(ty, stars, amps);
      EmitSuffix(stars, amps, stop, adjustConst, false, out);
      assert ShortName(ty.base) + "" == ShortName(ty.base);
    } else {
      ArgumentsOfAll(ty.args, (if ConstTrails(ty) then CONST else "") + Suffix(stars, amps), stop);
      EmitRestArguments(ty, stars, amps, stop, adjustConst, out);
      var closer := if !ConstTrails(ty) && stars == [] && amps == 0 && stop == '>' then " " else "";
      Assoc(lead, ShortName(ty.base), "<" + (RenderAll(ty.args) + ">" + closer));
      assert "<" + (RenderAll(ty.args) + ">" + closer) == "<" + RenderAll(ty.args) + ">" + closer;
    }
  }

  /** The text as it stands once a `const` behind a bare name is in front. */
  lemma HoistSpelling(ty: CppType, stop: char)
    requires WellFormed(ty)
    ensures HoistConst(Range(Spell(ty), stop)) ==
      Range((if ConstLeads(ty) then CONST_SPACE else "") + (ty.base + After(ty, ty.stars, ty.amps)),
            if ty.place == Behind && ty.args == [] then '\0' else stop)
  {
    hide ConstIndex, ConstWordAt, Suffix, SpellAll, IsBase;
    var b, y := ty.base, After(ty, ty.stars, ty.amps);
    var l := if ty.place == InFront then CONST_SPACE else "";
    AfterFollowsName(ty, ty.stars, ty.amps);
    if ty.place == Behind && ty.args == [] {
      assert Spell(ty) == b + " const" + y;
      ConstBehindNameHoisted(b, y);
    } else {
      SpellingParts(ty);
      assert Spell(ty) == l + b + y;
      NothingToHoist(l, b, y);
      Assoc(l, b, y);
    }
  }

  lemma SpellingParts(ty: CppType)
    requires !(ty.place == Behind && ty.args == [])
    ensures Spell(ty) == (if ty.place == InFront then CONST_SPACE else "") + ty.base + After(ty, ty.stars, ty.amps)
  {
    hide Suffix, SpellAll;
    var l, b, s := if ty.place == InFront then CONST_SPACE else "", ty.base, Suffix(ty.stars, ty.amps);
    if ty.args == [] {
      assert Spell(ty) == l + (b + "") + ("" + s);
    } else {
      var inner, k := SpellAll(ty.args), if ConstTrails(ty) then CONST else "";
      assert Spell(ty) == l + (b + ("<" + inner + ">")) + (k + s);
      assert l + (b + ("<" + inner + ">")) + (k + s) == l + b + ("<" + (inner + (">" + k)) + s);
    }
  }

  lemma ConstSpaceIsConst(s: string)
    ensures CONST_SPACE <= s ==> StartsWithConst(s)
  {
    if CONST_SPACE <= s {
      assert s[5] == CONST_SPACE[5];
      assert CONST == CONST_SPACE[..5] == s[..5];
    }
  }

  /** A name does not start with `const `. */
  lemma NoConstFirst(b: string, y: string)
    requires IsBase(b) && FollowsName(y)
    ensures !(CONST_SPACE <= b + y)
    ensures TakeConst(b + y) == Step("", b + y)
    ensures TakeConst(CONST_SPACE + (b + y)) == Step(CONST_SPACE, b + y)
  {
    ConstInName(b, y);
    ConstSpaceIsConst(b + y);
    assert b[0..] == b;
    assert !StartsWithConst(b);
  }

  /** The normal form once `const` is where it stays. */
  lemma NormalizeRest(ty: CppType, stars: seq<bool>, amps: nat, leads: bool, stop: char, adjustConst: bool)
    requires WellFormed(ty)
    ensures
      var c := TakeConst((if leads then CONST_SPACE else "") + (ty.base + After(ty, stars, amps)));
      var p := Simplify(c.rest);
      Emit(p.rest, stop, adjustConst, false, c.done + p.done)
        == Finish(ty, stars, amps, stop, adjustConst, if leads then CONST_SPACE else "")
    decreases ty, 1
  {
    hide Emit, After, Simplify, IsBase, Finish, TakeConst;
    var y := After(ty, stars, amps);
    AfterFollowsName(ty, stars, amps);
    NoConstFirst(ty.base, y);
    SimplifyExtends(ty.base, y);
    assert "" + (ty.base + y) == ty.base + y;
    EmitRest(ty, stars, amps, stop, adjustConst, if leads then CONST_SPACE else "");
  }

  lemma StopsHere(x: string)
    requires x != "" && (x[0] == ',' || x[0] == '>')
    ensures ArgLength(x, 1, 0) == 0
  {
  }

  lemma {:induction false} NormalizeArg(ty: CppType, stop: char)
    requires WellFormed(ty) && IsStop(stop)
    ensures Normalize(Spell(ty), stop, false) == RenderArg(ty, stop == '>')
    decreases ty, 2
  {
    hide Emit, After, Simplify, TakeConst, HoistConst, RenderBody, Suffix;
    HoistSpelling(ty, stop);
    var leads := ConstLeads(ty);
    var stop' := if ty.place == Behind && ty.args == [] then '\0' else stop;
    NormalizeRest(ty, ty.stars, ty.amps, leads, stop', false);
    FinishIsRenderArg(ty, stop);
  }

  lemma FinishIsRenderArg(ty: CppType, stop: char)
    ensures Finish(ty, ty.stars, ty.amps, if ty.place == Behind && ty.args == [] then '\0' else stop, false,
                   if ConstLeads(ty) then CONST_SPACE else "") == RenderArg(ty, stop == '>')
  {
    var last := stop == '>' && SpellTail(ty) == "";
    PlainBody(ty, last);
    hide Suffix, RenderBody;
    SuffixEmpty(ty.stars, ty.amps);
    assert "" + RenderBody(ty, last) == RenderBody(ty, last) && "" + RenderBody(ty, false) == RenderBody(ty, false);
  }

  /** A bare name is followed by no closer. */
  lemma PlainBody(ty: CppType, last: bool)
    ensures ty.args == [] ==> RenderBody(ty, last) == RenderBody(ty, false)
  {
  }

  lemma SplitAfter(w: string, x: string)
    requires x != ""
    ensures (w + x)[..|w|] == w && (w + x)[|w|] == x[0] && (w + x)[|w| + 1..] == x[1..]
  {
  }

  /** The first argument and what follows it. */
  lemma SpellAllSplit(tys: seq<CppType>, tail: string)
    requires tys != []
    ensures
      var w := Spell(tys[0]);
      var x := if |tys| == 1 then ">" + tail else "," + (SpellAll(tys[1..]) + (">" + tail));
      var s := SpellAll(tys) + (">" + tail);
      s == w + x && |w| < |s| && s[..|w|] == w && s[|w|] == x[0] && s[|w| + 1..] == x[1..]
  {
    hide Spell;
    var w := Spell(tys[0]);
    var x := if |tys| == 1 then ">" + tail else "," + (SpellAll(tys[1..]) + (">" + tail));
    if |tys| == 1 {
      assert SpellAll(tys) == w + "";
      assert w + "" == w;
    } else {
      var more := SpellAll(tys[1..]);
      assert SpellAll(tys) == w + ("," + more);
      Assoc(w, "," + more, ">" + tail);
      Assoc(",", more, ">" + tail);
    }
    SplitAfter(w, x);
  }

  lemma JoinArguments(first: string, others: string, closer: string)
    ensures first + [','] + (others + ">" + closer) == first + ("," + others) + ">" + closer
  {
    assert first + [','] + (others + ">" + closer) == first + ("," + (others + (">" + closer)));
  }

  /** The argument loop on a list of spelled arguments. */
  lemma {:induction false} ArgumentsOfAll(tys: seq<CppType>, tail: string, stop: char)
    requires tys != [] && AllWellFormed(tys)
    ensures Arguments(SpellAll(tys) + (">" + tail), stop) == Step(RenderAll(tys) + ">" + Closer(tail, stop), tail)
    decreases tys, 3
  {
    hide Normalize, Spell, RenderArg, ArgLength, SpellAll, Arguments;
    var w, last := Spell(tys[0]), |tys| == 1;
    var x := if last then ">" + tail else "," + (SpellAll(tys[1..]) + (">" + tail));
    var s := SpellAll(tys) + (">" + tail);
    SpellAllSplit(tys, tail);
    SkipType(tys[0], x, 1);
    StopsHere(x);
    NormalizeArg(tys[0], x[0]);
    if last {
      assert x[1..] == tail;
      LastArgument(s, stop, |w|);
      assert RenderAll(tys) == RenderArg(tys[0], true);
    } else {
      var more := SpellAll(tys[1..]) + (">" + tail);
      assert x[1..] == more;
      NextArgument(s, stop, |w|);
      ArgumentsOfAll(tys[1..], tail, stop);
      var first, others := RenderArg(tys[0], false), RenderAll(tys[1..]);
      assert RenderAll(tys) == first + ("," + others);
      JoinArguments(first, others, Closer(tail, stop));
    }
  }

  // ----- whole parameter types -----

  lemma {:induction false} StarTextLast(stars: seq<bool>)
    requires stars != []
    ensures var s := StarText(stars); s != "" && s[|s| - 1] == (if EndsConst(stars) then 't' else '*')
    decreases |stars|
  {
    var t := StarText(stars[1..]);
    if stars[1..] == [] {
      assert stars == [stars[0]];
      assert CONST[4] == 't';
    } else {
      StarTextLast(stars[1..]);
      var s := StarText(stars);
      assert s[|s| - 1] == t[|t| - 1];
    }
  }

  lemma SuffixLast(stars: seq<bool>, amps: nat)
    requires stars != [] || amps > 0
    ensures var s := Suffix(stars, amps);
      s != "" && s[|s| - 1] == (if amps > 0 then '&' else if EndsConst(stars) then 't' else '*')
    ensures amps > 0 ==> Suffix(stars, amps) == Suffix(stars, amps - 1) + ['&']
  {
    hide StarText;
    if amps > 0 {
      assert Repeat('&', amps) == Repeat('&', amps - 1) + ['&'];
      assert Suffix(stars, amps) == Suffix(stars, amps - 1) + ['&'];
    } else {
      StarTextLast(stars);
      assert StarText(stars) + "" == StarText(stars);
    }
  }

  /** The last character of a type tells a value, a pointer and a reference apart. */
  lemma LastCharacter(ty: CppType)
    requires WellFormed(ty) && !ConstTrails(ty)
    ensures var s := ty.base + After(ty, ty.stars, ty.amps);
      s != "" && (var last := s[|s| - 1];
        if ty.amps > 0 then last == '&'
        else if ty.stars != [] && !EndsConst(ty.stars) then last == '*'
        else last == '>' || IsIdentChar(last))
    ensures ty.amps > 0 ==>
      ty.base + After(ty, ty.stars, ty.amps) == ty.base + After(ty, ty.stars, ty.amps - 1) + ['&']
  {
    hide Suffix, SpellAll;
    var x := if ty.args == [] then "" else "<" + (SpellAll(ty.args) + (">" + ""));
    var s := Suffix(ty.stars, ty.amps);
    assert After(ty, ty.stars, ty.amps) == x + s;
    if ty.stars != [] || ty.amps > 0 {
      SuffixLast(ty.stars, ty.amps);
      if ty.amps > 0 {
        Assoc(x, Suffix(ty.stars, ty.amps - 1), ['&']);
        Assoc(ty.base, x + Suffix(ty.stars, ty.amps - 1), ['&']);
      }
    } else {
      SuffixHead([], 0);
      assert x + s == x;
    }
  }

  lemma DropLeading(rest: string, stop: char)
    requires rest != ""
    ensures var last := rest[|rest| - 1];
      DropValueConst(Range(CONST_SPACE + rest, stop)) ==
        if last == '&' then Range(rest[..|rest| - 1], '&')
        else if IsIdentChar(last) || last == '>' then Range(rest, stop)
        else Range(CONST_SPACE + rest, stop)
  {
    var s := CONST_SPACE + rest;
    assert |s| > 6 && CONST_SPACE <= s;
    assert s[|s| - 1] == rest[|rest| - 1];
    assert s[6..] == rest;
    assert s[6..|s| - 1] == rest[..|rest| - 1];
  }

  lemma DropNothing(ty: CppType, stop: char)
    requires WellFormed(ty)
    ensures var s := ty.base + After(ty, ty.stars, ty.amps); DropValueConst(Range(s, stop)) == Range(s, stop)
  {
    hide After, IsBase;
    AfterFollowsName(ty, ty.stars, ty.amps);
    NoConstFirst(ty.base, After(ty, ty.stars, ty.amps));
  }

  /** A type that ends in a `*` keeps its leading `const`. */
  predicate KeepsLead(stars: seq<bool>) {
    stars != [] && !EndsConst(stars)
  }

  lemma DropLeads(ty: CppType, stop: char)
    requires WellFormed(ty) && ConstLeads(ty)
    ensures
      var rest := ty.base + After(ty, ty.stars, ty.amps);
      var d := DropValueConst(Range(CONST_SPACE + rest, stop));
      && (ty.amps > 0 ==> d == Range(ty.base + After(ty, ty.stars, ty.amps - 1), '&'))
      && (ty.amps == 0 && KeepsLead(ty.stars) ==> d == Range(CONST_SPACE + rest, stop))
      && (ty.amps == 0 && !KeepsLead(ty.stars) ==> d == Range(rest, stop))
  {
    hide After, WellFormed, DropValueConst, IsBase;
    LastCharacter(ty);
    DropLeading(ty.base + After(ty, ty.stars, ty.amps), stop);
  }

  /** What is left of a leading `const`, and of the `&` of a constant reference. */
  lemma DropFromSpelling(ty: CppType, stop: char)
    requires WellFormed(ty)
    ensures
      var rest := ty.base + After(ty, ty.stars, ty.amps);
      DropValueConst(Range((if ConstLeads(ty) then CONST_SPACE else "") + rest, stop)) ==
        if !ConstLeads(ty) then Range("" + rest, stop)
        else if ty.amps > 0 then Range("" + (ty.base + After(ty, ty.stars, ty.amps - 1)), '&')
        else if KeepsLead(ty.stars) then Range(CONST_SPACE + rest, stop)
        else Range("" + rest, stop)
  {
    hide *;
    var rest := ty.base + After(ty, ty.stars, ty.amps);
    EmptyFirst(rest);
    if ConstLeads(ty) {
      DropLeads(ty, stop);
      if ty.amps > 0 {
        EmptyFirst(ty.base + After(ty, ty.stars, ty.amps - 1));
      }
    } else {
      DropNothing(ty, stop);
    }
  }

  lemma EmptyFirst(s: string)
    ensures "" + s == s
  {
  }

  lemma NormalizeTop(ty: CppType, stop: char)
    requires WellFormed(ty) && IsStop(stop) && stop != '>'
    ensures Normalize(Spell(ty), stop, true) == RenderTop(ty)
  {
    hide Emit, After, Simplify, TakeConst, HoistConst, DropValueConst, RenderBody, Suffix;
    HoistSpelling(ty, stop);
    var stop' := if ty.place == Behind && ty.args == [] then '\0' else stop;
    DropFromSpelling(ty, stop');
    var amps := if ConstLeads(ty) && ty.amps > 0 then ty.amps - 1 else ty.amps;
    var leads := ConstLeads(ty) && ty.amps == 0 && KeepsLead(ty.stars);
    var stop'' := if ConstLeads(ty) && ty.amps > 0 then '&' else stop';
    NormalizeRest(ty, ty.stars, amps, leads, stop'', true);
    FinishIsRenderTop(ty, amps, leads, stop'');
  }

  lemma FinishIsRenderTop(ty: CppType, amps: nat, leads: bool, stop: char)
    requires stop != '>'
    requires amps == (if ConstLeads(ty) && ty.amps > 0 then ty.amps - 1 else ty.amps)
    requires leads == (ConstLeads(ty) && ty.amps == 0 && KeepsLead(ty.stars))
    ensures Finish(ty, ty.stars, amps, stop, true, if leads then CONST_SPACE else "") == RenderTop(ty)
  {
    hide RenderBody, Suffix;
    var body := RenderBody(ty, false);
    assert "" + body == body;
    Assoc(CONST_SPACE, body, Suffix(ty.stars, amps));
  }
}
