/** Canonical texts can be read back: different types have different texts. */
module TypeReading {
  import opened CText
  import opened NormalizeSpec
  import opened TypeGrammar
  import opened TypeRender
  import opened TypeProof
  import opened TypeCanonical

  predicate IsNameChar(c: char) {
    IsIdentChar(c) || c == ':' || c == ' '
  }

  /** A name as it stands in a canonical text. */
  predicate IsName(n: string) {
    && n != "" && IsIdentChar(n[|n| - 1])
    && (forall i :: 0 <= i < |n| ==> IsNameChar(n[i]))
    && !(CONST_SPACE <= n)
  }

  predicate IsMeaning(m: CppType)
    decreases m, 1
  {
    m.place != Behind && IsName(m.base) && AllAreMeanings(m.args)
  }

  predicate AllAreMeanings(ms: seq<CppType>)
    decreases ms, 0
  {
    ms == [] || (IsMeaning(ms[0]) && AllAreMeanings(ms[1..]))
  }

  /** The text of `m` ends in the `>` of its arguments. */
  predicate Closes(m: CppType) {
    m.args != [] && m.stars == [] && m.amps == 0
  }

  /** What may follow a type in a canonical text. */
  predicate Follows(x: string, m: CppType) {
    x == "" || x[0] == ',' || x[0] == '>' || (x[0] == ' ' && Closes(m))
  }

  /** What may follow a name. */
  predicate EndsName(x: string) {
    x == "" || !IsNameChar(x[0])
  }

  lemma {:induction false} NameIsTheRun(n: string, x: string, n': string, x': string)
    requires forall i :: 0 <= i < |n| ==> IsNameChar(n[i])
    requires forall i :: 0 <= i < |n'| ==> IsNameChar(n'[i])
    requires EndsName(x) && EndsName(x') && n + x == n' + x'
    ensures n == n' && x == x'
  {
    var s := n + x;
    assert |n| < |s| ==> s[|n|] == x[0];
    assert |n'| < |s| ==> s[|n'|] == x'[0];
    assert forall i :: 0 <= i < |n| ==> s[i] == n[i];
    assert forall i :: 0 <= i < |n'| ==> s[i] == n'[i];
    assert |n| == |n'|;
    assert n == s[..|n|] == n' && x == s[|n|..] == x';
  }

  /** A suffix is read off until something else comes. */
  lemma {:induction false} SuffixIsTheRun(stars: seq<bool>, amps: nat, x: string, stars': seq<bool>, amps': nat,
      x': string)
    requires EndsSuffix(x) && EndsSuffix(x')
    requires Suffix(stars, amps) + x == Suffix(stars', amps') + x'
    ensures stars == stars' && amps == amps' && x == x'
    decreases |stars|
  {
    hide Suffix;
    var s := Suffix(stars, amps) + x;
    FirstOfSuffix(stars, amps, x);
    FirstOfSuffix(stars', amps', x');
    if stars == [] {
      AmpsAreTheRun(amps, x, amps', x');
    } else {
      var t, t' := Suffix(stars[1..], amps) + x, Suffix(stars'[1..], amps') + x';
      assert s[1..] == (if stars[0] then CONST else "") + t == (if stars'[0] then CONST else "") + t';
      FirstOfSuffix(stars[1..], amps, x);
      FirstOfSuffix(stars'[1..], amps', x');
      assert stars[0] ==> s[1..][0] == 'c';
      assert stars'[0] ==> s[1..][0] == 'c';
      assert stars[0] == stars'[0];
      assert t == s[1..][if stars[0] then 5 else 0..] == t';
      SuffixIsTheRun(stars[1..], amps, x, stars'[1..], amps', x');
      assert stars == [stars[0]] + stars[1..] && stars' == [stars'[0]] + stars'[1..];
    }
  }

  /** What cannot be part of a suffix. */
  predicate EndsSuffix(x: string) {
    x == "" || (x[0] != '*' && x[0] != '&' && x[0] != 'c')
  }

  /** The first characters of a suffix and what follows it. */
  lemma FirstOfSuffix(stars: seq<bool>, amps: nat, x: string)
    requires EndsSuffix(x)
    ensures var s := Suffix(stars, amps) + x;
      && (stars != [] <==> s != "" && s[0] == '*')
      && (s != "" ==> s[0] != 'c')
      && (stars != [] ==> s[1..] == (if stars[0] then CONST else "") + (Suffix(stars[1..], amps) + x))
  {
    hide Suffix;
    SuffixHead(stars, amps);
    if stars != [] {
      var k, t := if stars[0] then CONST else "", Suffix(stars[1..], amps);
      assert ['*'] + (k + t) + x == ['*'] + (k + (t + x));
    } else if amps > 0 {
      assert (Suffix([], amps) + x)[0] == '&';
    } else {
      assert "" + x == x;
    }
  }

  lemma {:induction false} AmpsAreTheRun(amps: nat, x: string, amps': nat, x': string)
    requires EndsSuffix(x) && EndsSuffix(x') && Suffix([], amps) + x == Suffix([], amps') + x'
    ensures amps == amps' && x == x'
    decreases amps
  {
    hide Suffix;
    AmpsHead(amps, x);
    AmpsHead(amps', x');
    if amps > 0 {
      AmpsAreTheRun(amps - 1, x, amps' - 1, x');
    }
  }

  lemma AmpsHead(amps: nat, x: string)
    requires EndsSuffix(x)
    ensures var s := Suffix([], amps) + x;
      && (amps > 0 <==> s != "" && s[0] == '&')
      && (if amps > 0 then s[1..] == Suffix([], amps - 1) + x else s == x)
  {
    hide Suffix;
    SuffixHead([], amps);
    if amps > 0 {
      assert ['&'] + Suffix([], amps - 1) + x == ['&'] + (Suffix([], amps - 1) + x);
    } else {
      assert "" + x == x;
    }
  }

  /** The text of a type and what follows it, part by part. */
  function Rest(m: CppType, x: string): string {
    (if m.args == [] then "" else "<" + (WriteAll(m.args) + ">")) + (Suffix(m.stars, m.amps) + x)
  }

  lemma WriteParts(m: CppType, x: string)
    requires m.place != Behind
    ensures Write(m) + x == (if m.place == InFront then CONST_SPACE else "") + (m.base + Rest(m, x))
  {
    hide Suffix, WriteAll;
    var l, s := if m.place == InFront then CONST_SPACE else "", Suffix(m.stars, m.amps);
    if m.args == [] {
      assert Write(m) + x == l + (m.base + "") + s + x;
      assert l + (m.base + "") + s + x == l + (m.base + ("" + (s + x)));
    } else {
      var a := WriteAll(m.args);
      assert Write(m) + x == l + (m.base + ("<" + a + ">")) + s + x;
      assert l + (m.base + ("<" + a + ">")) + s + x == l + (m.base + ("<" + (a + ">") + (s + x)));
    }
  }

  lemma RestHead(m: CppType, x: string)
    requires Follows(x, m)
    ensures EndsName(Rest(m, x))
    ensures m.args != [] <==> Rest(m, x) != "" && Rest(m, x)[0] == '<'
  {
    hide Suffix;
    SuffixHead(m.stars, m.amps);
    var s := Suffix(m.stars, m.amps);
    SuffixEmpty(m.stars, m.amps);
    if m.args == [] {
      assert Rest(m, x) == s + x;
    }
  }

  lemma ConstSpaceInName(n: string, r: string)
    requires EndsName(r)
    ensures CONST_SPACE <= n + r ==> CONST_SPACE <= n
  {
    var s := n + r;
    assert forall i :: 0 <= i < 6 ==> IsNameChar(CONST_SPACE[i]);
    assert |n| < |s| ==> s[|n|] == r[0];
    if CONST_SPACE <= s {
      assert forall i :: 0 <= i < 6 ==> s[i] == CONST_SPACE[i];
      assert |n| >= 6;
      assert n[..6] == s[..6];
    }
  }

  /** `const ` in front is read off before the name. */
  lemma ConstIsTheLead(n: string, r: string, w: string)
    requires IsName(n) && EndsName(r)
    ensures n + r != CONST_SPACE + w
  {
    ConstSpaceInName(n, r);
    assert CONST_SPACE <= CONST_SPACE + w;
  }

  /** The last character of a canonical text. */
  lemma MeaningEnd(m: CppType)
    requires IsMeaning(m)
    ensures var w := Write(m); w != "" && (w[|w| - 1] == '>' <==> Closes(m))
  {
    hide Suffix, WriteAll, IsConst;
    var w, s := Write(m), Suffix(m.stars, m.amps);
    var body := WriteBody(m);
    assert body[|body| - 1] == '>' <==> m.args != [];
    SuffixEmpty(m.stars, m.amps);
    if s != "" {
      SuffixLast(m.stars, m.amps);
      assert w[|w| - 1] == s[|s| - 1];
    } else {
      assert s == "";
      assert w[|w| - 1] == body[|body| - 1];
    }
  }

  /** What follows the first of several written types. */
  function Others(ms: seq<CppType>, x: string): string
    requires ms != []
  {
    if |ms| == 1 then (if Closes(ms[0]) then " " else "") + (">" + x) else "," + (WriteAll(ms[1..]) + (">" + x))
  }

  lemma WriteAllParts(ms: seq<CppType>, x: string)
    requires ms != [] && AllAreMeanings(ms)
    ensures WriteAll(ms) + (">" + x) == Write(ms[0]) + Others(ms, x)
    ensures Follows(Others(ms, x), ms[0])
  {
    hide Write, IsMeaning, Closes;
    MeaningEnd(ms[0]);
    var w := Write(ms[0]);
    if |ms| == 1 {
      Assoc(w, if Closes(ms[0]) then " " else "", ">" + x);
    } else {
      Assoc(w, "," + WriteAll(ms[1..]), ">" + x);
      Assoc(",", WriteAll(ms[1..]), ">" + x);
    }
  }

  /** A canonical text determines its type and where it ends. */
  lemma {:induction false} UniqueReading(m: CppType, x: string, m': CppType, x': string)
    requires IsMeaning(m) && IsMeaning(m') && Follows(x, m) && Follows(x', m')
    requires Write(m) + x == Write(m') + x'
    ensures m == m' && x == x'
    decreases m, 1
  {
    hide Write, WriteAll, Suffix, IsName, Follows, Rest;
    WriteParts(m, x);
    WriteParts(m', x');
    RestHead(m, x);
    RestHead(m', x');
    var n, n' := m.base + Rest(m, x), m'.base + Rest(m', x');
    ConstIsTheLead(m.base, Rest(m, x), n');
    ConstIsTheLead(m'.base, Rest(m', x'), n);
    assert "" + n == n && "" + n' == n';
    assert m.place == m'.place;
    assert (CONST_SPACE + n)[6..] == n && (CONST_SPACE + n')[6..] == n';
    assert n == n';
    NamesOf(m);
    NamesOf(m');
    NameIsTheRun(m.base, Rest(m, x), m'.base, Rest(m', x'));
    RestsAgree(m, x, m', x');
  }

  lemma NamesOf(m: CppType)
    requires IsMeaning(m)
    ensures forall i :: 0 <= i < |m.base| ==> IsNameChar(m.base[i])
  {
  }

  lemma {:induction false} RestsAgree(m: CppType, x: string, m': CppType, x': string)
    requires IsMeaning(m) && IsMeaning(m') && Follows(x, m) && Follows(x', m')
    requires Rest(m, x) == Rest(m', x')
    ensures m.args == m'.args && m.stars == m'.stars && m.amps == m'.amps && x == x'
    decreases m, 0
  {
    hide WriteAll, Suffix, IsName;
    RestHead(m, x);
    RestHead(m', x');
    var s, s' := Suffix(m.stars, m.amps) + x, Suffix(m'.stars, m'.amps) + x';
    if m.args == [] {
      assert Rest(m, x) == s && Rest(m', x') == s';
      SuffixIsTheRun(m.stars, m.amps, x, m'.stars, m'.amps, x');
    } else {
      var a, a' := WriteAll(m.args), WriteAll(m'.args);
      assert Rest(m, x)[1..] == a + (">" + s);
      assert Rest(m', x')[1..] == a' + (">" + s');
      AllUniqueReading(m.args, s, m'.args, s');
      SuffixIsTheRun(m.stars, m.amps, x, m'.stars, m'.amps, x');
    }
  }

  lemma BehindTheLast(ms: seq<CppType>, x: string, ms': seq<CppType>, x': string)
    requires |ms| == 1 && |ms'| == 1 && ms[0] == ms'[0] && Others(ms, x) == Others(ms', x')
    ensures x == x'
  {
    var o, o' := Others(ms, x), Others(ms', x');
    var skip := if Closes(ms[0]) then 2 else 1;
    assert o[skip..] == x && o'[skip..] == x';
  }

  lemma {:induction false} AllUniqueReading(ms: seq<CppType>, x: string, ms': seq<CppType>, x': string)
    requires ms != [] && ms' != [] && AllAreMeanings(ms) && AllAreMeanings(ms')
    requires WriteAll(ms) + (">" + x) == WriteAll(ms') + (">" + x')
    ensures ms == ms' && x == x'
    decreases ms, 2
  {
    hide Write, IsMeaning, WriteAll;
    WriteAllParts(ms, x);
    WriteAllParts(ms', x');
    UniqueReading(ms[0], Others(ms, x), ms'[0], Others(ms', x'));
    var o, o' := Others(ms, x), Others(ms', x');
    assert o[0] == o'[0];
    assert (o[0] == ',') == (|ms| > 1) && (o'[0] == ',') == (|ms'| > 1);
    if |ms| > 1 {
      assert o[1..] == WriteAll(ms[1..]) + (">" + x);
      assert o'[1..] == WriteAll(ms'[1..]) + (">" + x');
      AllUniqueReading(ms[1..], x, ms'[1..], x');
      assert ms == [ms[0]] + ms[1..] && ms' == [ms'[0]] + ms'[1..];
    } else {
      assert ms == [ms[0]] && ms' == [ms'[0]];
      BehindTheLast(ms, x, ms', x');
    }
  }
}
