/**
 * The pointer code of `normalizeTypeInternal`.  `t` and `e` are offsets into the text they point
 * into; every read is shown to stay at or before the terminator and `t` never passes `e`.
 */
module NormalizeType {
  import opened CText
  import opened NormalizeSpec

  /** `e` points to the terminator or to a character no keyword test can match. */
  predicate Stops(buf: CString, e: nat) {
    e <= |buf| && !IsIdentChar(CharAt(buf, e)) && !IsSpace(CharAt(buf, e))
  }

  function RangeOf(buf: CString, t: nat, e: nat): Range
    requires t <= e <= |buf|
  {
    Range(buf[t..e], CharAt(buf, e))
  }

  lemma SubRange(buf: string, t: nat, e: nat, a: nat, b: nat)
    requires t <= a <= b <= e <= |buf|
    ensures buf[t..e][a - t..b - t] == buf[a..b]
    ensures t < e ==> buf[t..e][e - t - 1] == buf[e - 1]
  {
    var s := buf[t..e];
    forall i | 0 <= i < b - a ensures s[a - t..b - t][i] == buf[a..b][i] {
      assert s[a - t..b - t][i] == s[a - t + i] == buf[a + i];
    }
  }

  predicate IsWords(lit: string) {
    forall i :: 0 <= i < |lit| ==> IsIdentChar(lit[i]) || IsSpace(lit[i])
  }

  /** A keyword test at `t` that succeeds has not looked behind `e`. */
  lemma KeywordInRange(lit: string, buf: CString, t: nat, e: nat)
    requires t <= e && Stops(buf, e) && IsWords(lit)
    ensures lit <= buf[t..] <==> lit <= buf[t..e]
    ensures StrNEqual(lit, buf[t..], |lit|) <==> lit <= buf[t..e]
    ensures lit <= buf[t..] ==> t + |lit| <= e && buf[t + |lit|..e] == buf[t..e][|lit|..]
  {
    StrNEqualIsPrefix(lit, buf[t..], |lit|);
    assert lit[..|lit|] == lit;
    if lit <= buf[t..] {
      assert t + |lit| <= e;
      assert lit == buf[t..][..|lit|] == buf[t..e][..|lit|];
    }
    if lit <= buf[t..e] {
      assert lit == buf[t..e][..|lit|] == buf[t..][..|lit|];
    }
  }

  /** `constbuf`: the word at `i` and one blank before it erased in place, `const ` put in front. */
  method Rebuild(s: CString, i: nat) returns (constbuf: CString)
    requires 1 <= i < |s| && ConstWordAt(s, i)
    ensures constbuf == Hoist(s, i)
  {
    constbuf := s;
    if IsSpace(s[i - 1]) {
      constbuf := constbuf[..i - 1] + constbuf[i + 5..];
    } else {
      constbuf := constbuf[..i] + constbuf[i + 5..];
    }
    assert '\0' !in CONST_SPACE;
    constbuf := CONST_SPACE + constbuf;
  }

  lemma ConstLetters(buf: CString, p: nat)
    requires p < |buf|
    ensures CONST <= buf[p..] <==> buf[p] == 'c' && StrNEqual("onst", buf[p + 1..], 4)
  {
    StrNEqualIsPrefix("onst", buf[p + 1..], 4);
    assert "onst"[..4] == "onst";
    var s := buf[p..];
    assert s[1..] == buf[p + 1..];
    if CONST <= s {
      assert "onst" == CONST[1..] == s[..5][1..] == s[1..][..4];
    }
    if s[0] == 'c' && "onst" <= s[1..] {
      assert s[..5] == [s[0]] + s[1..][..4] == CONST;
    }
  }

  /** The character tests on `t[i - 1]` to `t[i + 5]` decide `ConstWordAt`. */
  lemma ConstTest(buf: CString, t: nat, e: nat, i: nat)
    requires t <= e && Stops(buf, e) && 1 <= i < e - t
    ensures buf[t..e][i] == buf[t + i]
    ensures ConstWordAt(buf[t..e], i) <==>
      buf[t + i] == 'c' && StrNEqual("onst", buf[t + i + 1..], 4)
      && (i + 5 >= e - t || !IsIdentChar(buf[t + i + 5])) && !IsIdentChar(buf[t + i - 1])
  {
    var s := buf[t..e];
    KeywordInRange(CONST, buf, t + i, e);
    ConstLetters(buf, t + i);
    assert s[i..] == buf[t + i..e];
    assert s[i - 1] == buf[t + i - 1];
    if CONST <= s[i..] && |s[i..]| > 5 {
      assert s[i..][5] == buf[t + i + 5];
    }
  }

  /** The loop that rebuilds the text in `constbuf` with a later `const` in front. */
  method MoveConstToFront(buf: CString, t: nat, e: nat) returns (buf': CString, t': nat, e': nat)
    requires t <= e && Stops(buf, e)
    ensures t' <= e' && Stops(buf', e')
    ensures RangeOf(buf', t', e') == HoistConst(RangeOf(buf, t, e))
  {
    hide StrNEqual, ConstIndex, ConstWordAt, Hoist;
    buf', t', e' := buf, t, e;
    var s := buf[t..e];
    var len := e - t;
    var i := 1;
    while i < len
      invariant 1 <= i && (i <= len || len == 0)
      invariant buf' == buf && t' == t && e' == e
      invariant ConstIndex(s, 1) == ConstIndex(s, i)
    {
      ConstTest(buf, t, e, i);
      ConstIndexStep(s, i);
      if buf[t + i] == 'c' && StrNEqual("onst", buf[t + i + 1..], 4)
         && (i + 5 >= len || !IsIdentChar(buf[t + i + 5])) && !IsIdentChar(buf[t + i - 1]) {
        buf' := Rebuild(s, i);
        t', e' := 0, |buf'|;
        assert buf'[0..|buf'|] == buf';
        return;
      }
      if buf[t + i] == '&' || buf[t + i] == '*' || buf[t + i] == '<' {
        return;
      }
      i := i + 1;
    }
    ConstIndexEnds(s, i);
  }

  /** A leading `const` of a value or reference is skipped, and the `&` of the reference cut off. */
  method SkipValueConst(buf: CString, t: nat, e: nat) returns (t': nat, e': nat)
    requires t <= e && Stops(buf, e)
    ensures t' <= e' && Stops(buf, e')
    ensures RangeOf(buf, t', e') == DropValueConst(RangeOf(buf, t, e))
  {
    t', e' := t, e;
    KeywordInRange(CONST_SPACE, buf, t, e);
    if e > t + 6 && StrNEqual(CONST_SPACE, buf[t..], 6) {
      SubRange(buf, t, e, t + 6, e);
      SubRange(buf, t, e, t + 6, e - 1);
      if buf[e - 1] == '&' {
        t' := t' + 6;
        e' := e' - 1;
      } else if IsIdentChar(buf[e - 1]) || buf[e - 1] == '>' {
        t' := t' + 6;
      }
    }
  }

  /** The keyword stands at `t`, inside the range. */
  predicate KeywordAt(lit: string, buf: CString, t: nat, e: nat) {
    t + |lit| <= e <= |buf| && buf[t..t + |lit|] == lit
  }

  /** A keyword test at `t` succeeds exactly if the keyword stands there inside the range. */
  lemma KeywordTest(lit: string, buf: CString, t: nat, e: nat)
    requires t <= e && Stops(buf, e) && IsWords(lit)
    ensures StrNEqual(lit, buf[t..], |lit|) <==> KeywordAt(lit, buf, t, e)
    ensures KeywordAt(lit, buf, t, e) <==> lit <= buf[t..e]
  {
    hide StrNEqual;
    KeywordInRange(lit, buf, t, e);
    if t + |lit| <= e {
      SubRange(buf, t, e, t, t + |lit|);
    }
  }

  /** The tests behind ` long`, which look at the rest of the text first, see the range only. */
  predicate BehindLong(buf: CString, t: nat, e: nat)
    requires t <= |buf|
  {
    && ((|buf| - t >= 4 && StrNEqual(" int", buf[t..], 4)) == KeywordAt(" int", buf, t, e))
    && ((|buf| - t >= 5 && StrNEqual(" long", buf[t..], 5)) == KeywordAt(" long", buf, t, e))
  }

  lemma UnsignedWordsInRange(buf: CString, p: nat, e: nat)
    requires p <= e && Stops(buf, e)
    ensures StrNEqual(" int", buf[p..], 4) <==> KeywordAt(" int", buf, p, e)
    ensures StrNEqual(" long", buf[p..], 5) <==> KeywordAt(" long", buf, p, e)
    ensures StrNEqual(" short", buf[p..], 6) <==> KeywordAt(" short", buf, p, e)
    ensures StrNEqual(" char", buf[p..], 5) <==> KeywordAt(" char", buf, p, e)
    ensures KeywordAt(" int", buf, p, e) ==> p + 4 <= e
    ensures KeywordAt(" long", buf, p, e) ==> p + 5 <= e && BehindLong(buf, p + 5, e)
  {
    hide StrNEqual;
    KeywordTest(" int", buf, p, e);
    KeywordTest(" long", buf, p, e);
    KeywordTest(" short", buf, p, e);
    KeywordTest(" char", buf, p, e);
    if KeywordAt(" long", buf, p, e) {
      KeywordTest(" int", buf, p + 5, e);
      KeywordTest(" long", buf, p + 5, e);
    }
  }

  /** The short name behind `unsigned`, in terms of the tests on the range. */
  lemma UnsignedNameByTests(buf: CString, p: nat, e: nat)
    requires p <= e && Stops(buf, e)
    ensures UnsignedName(buf[p..e]) ==
      if KeywordAt(" int", buf, p, e) then ("uint", 4)
      else if KeywordAt(" long", buf, p, e) then
        if KeywordAt(" int", buf, p + 5, e) || KeywordAt(" long", buf, p + 5, e) then ("", 0) else ("ulong", 5)
      else if KeywordAt(" short", buf, p, e) || KeywordAt(" char", buf, p, e) then ("", 0)
      else ("uint", 0)
  {
    hide StrNEqual, KeywordAt;
    KeywordTest(" int", buf, p, e);
    KeywordTest(" long", buf, p, e);
    KeywordTest(" short", buf, p, e);
    KeywordTest(" char", buf, p, e);
    if " long" <= buf[p..e] {
      SubRange(buf, p, e, p + 5, e);
      KeywordTest(" int", buf, p + 5, e);
      KeywordTest(" long", buf, p + 5, e);
    }
  }

  /** The keyword tests behind `unsigned`, which ends at `p`. */
  method ReplaceUnsigned(buf: CString, p: nat, e: nat) returns (t: nat, result: string)
    requires p <= e && Stops(buf, e)
    ensures p <= t <= e && (result, t - p) == UnsignedName(buf[p..e])
  {
    hide StrNEqual, KeywordAt;
    t, result := p, "";
    UnsignedWordsInRange(buf, p, e);
    UnsignedNameByTests(buf, p, e);
    if StrNEqual(" int", buf[p..], 4) {
      t := t + 4;
      result := "uint";
    } else if StrNEqual(" long", buf[p..], 5) {
      if (|buf| - (p + 5) < 4 || !StrNEqual(" int", buf[p + 5..], 4))
         && (|buf| - (p + 5) < 5 || !StrNEqual(" long", buf[p + 5..], 5)) {
        t := t + 5;
        result := "ulong";
      }
    } else if !StrNEqual(" short", buf[p..], 6) && !StrNEqual(" char", buf[p..], 5) {
      result := "uint";
    }
  }

  /** `struct `, `class ` or `enum ` is skipped; the first keyword that matches ends the search. */
  method SkipElaboration(buf: CString, t: nat, e: nat) returns (t': nat)
    requires t <= e && Stops(buf, e) && !("unsigned" <= buf[t..e])
    ensures t' <= e && Step("", buf[t'..e]) == Simplify(buf[t..e])
  {
    t' := t;
    var optional := ["struct ", "class ", "enum "];
    var i := 0;
    while i < |optional|
      invariant 0 <= i <= 3 && t' == t
      invariant forall k :: 0 <= k < i ==> !(optional[k] <= buf[t..e])
    {
      assert IsWords(optional[i]);
      KeywordInRange(optional[i], buf, t, e);
      if StrNEqual(optional[i], buf[t..], |optional[i]|) {
        t' := t + |optional[i]|;
        return;
      }
      i := i + 1;
    }
    assert optional[0] == "struct " && optional[1] == "class " && optional[2] == "enum ";
  }

  /** The `const` that may follow a character other than an identifier's. */
  method PlaceTrailingConst(buf: CString, t: nat, e: nat, adjustConst: bool, star: bool, out: string)
    returns (t': nat, result: string)
    requires t <= e && Stops(buf, e)
    ensures t <= t' <= e && Step(result, buf[t'..e]) == PlaceConst(buf[t..e], adjustConst, star, out)
  {
    hide StrNEqual;
    t', result := t, out;
    ghost var s := buf[t..e];
    KeywordInRange(CONST, buf, t, e);
    if t != e && e - t >= 5 && StrNEqual(CONST, buf[t..], 5) && (e - t == 5 || !IsIdentChar(buf[t + 5])) {
      assert |s| > 5 ==> s[5] == buf[t + 5];
      t' := t + 5;
      assert s[5..] == buf[t'..e];
      while t' != e && IsSpace(buf[t'])
        invariant t <= t' <= e
        invariant DropSpaces(s[5..]) == DropSpaces(buf[t'..e])
      {
        assert buf[t'..e][1..] == buf[t' + 1..e];
        t' := t' + 1;
      }
      assert DropSpaces(buf[t'..e]) == buf[t'..e];
      assert t' < e ==> buf[t'..e][1..] == buf[t' + 1..e];
      if adjustConst && t' != e && buf[t'] == '&' {
        t' := t' + 1;
      } else if adjustConst && !star {
      } else if !star {
        result := CONST_SPACE + result;
      } else {
        result := result + CONST;
      }
    }
  }

  /** The type substitutions at the head of the text. */
  method ReplaceNames(buf: CString, begin: nat, e: nat) returns (t: nat, result: string)
    requires begin <= e && Stops(buf, e)
    ensures t <= e && Step(result, buf[t..e]) == Simplify(buf[begin..e])
  {
    t, result := begin, "";
    ghost var s := buf[t..e];
    KeywordInRange("unsigned", buf, t, e);
    if StrNEqual("unsigned", buf[t..], 8) {
      assert |s| > 8 ==> s[8] == buf[t + 8];
      if t + 8 == |buf| || !IsIdentChar(buf[t + 8]) {
        var behind, short := ReplaceUnsigned(buf, t + 8, e);
        if short != "" {
          SubRange(buf, t, e, behind, e);
          t := behind;
          result := short;
        }
      }
    } else {
      t := SkipElaboration(buf, t, e);
    }
  }

  /** What precedes the character loop, once `const` stands where it stays: `const ` and the keywords. */
  method ConsumePrefix(buf: CString, begin: nat, e: nat) returns (t: nat, result: string)
    requires begin <= e && Stops(buf, e)
    ensures t <= e && buf[t..e] == Simplify(TakeConst(buf[begin..e]).rest).rest
    ensures result == TakeConst(buf[begin..e]).done + Simplify(TakeConst(buf[begin..e]).rest).done
  {
    t, result := begin, "";
    KeywordInRange(CONST_SPACE, buf, t, e);
    if StrNEqual(CONST_SPACE, buf[t..], 6) {
      t := t + 6;
      result := CONST_SPACE;
    }
    assert Step(result, buf[t..e]) == TakeConst(buf[begin..e]);
    var name;
    t, name := ReplaceNames(buf, t, e);
    result := result + name;
  }

  /** `normalizeTypeInternal` */
  method NormalizeTypeInternal(buf: CString, begin: nat, end: nat, adjustConst: bool) returns (result: string)
    requires begin <= end && Stops(buf, end)
    ensures result == Normalize(buf[begin..end], CharAt(buf, end), adjustConst)
    decreases end - begin, 1
  {
    var text, t, e := MoveConstToFront(buf, begin, end);
    if adjustConst {
      t, e := SkipValueConst(text, t, e);
    }
    t, result := ConsumePrefix(text, t, e);
    result := CopyCharacters(text, t, e, adjustConst, result);
  }

  /** The character loop. */
  method CopyCharacters(buf: CString, begin: nat, e: nat, adjustConst: bool, prefix: string) returns (result: string)
    requires begin <= e && Stops(buf, e)
    ensures result == Emit(buf[begin..e], CharAt(buf, e), adjustConst, false, prefix)
    decreases e - begin, 0
  {
    var t, star := begin, false;
    result := prefix;
    ghost var whole := Emit(buf[begin..e], CharAt(buf, e), adjustConst, false, prefix);
    while t != e
      invariant begin <= t <= e
      invariant Emit(buf[t..e], CharAt(buf, e), adjustConst, star, result) == whole
      decreases e - t
    {
      ghost var s := buf[t..e];
      var c := buf[t];
      t := t + 1;
      assert s[1..] == buf[t..e];
      star := star || c == '*';
      result := result + [c];
      if c == '<' {
        var copied;
        t, c, copied := CopyArguments(buf, t, e);
        result := result + copied;
      } else {
        assert result + "" == result;
      }
      if !IsIdentChar(c) {
        t, result := PlaceTrailingConst(buf, t, e, adjustConst, star, result);
      }
    }
  }

  lemma Slices(buf: string, a: nat, p: nat, b: nat)
    requires a <= p < b <= |buf|
    ensures buf[a..b][..p - a] == buf[a..p]
    ensures buf[a..b][p - a + 1..] == buf[p + 1..b]
    ensures buf[a..b][p - a] == buf[p]
  {
  }

  lemma LastArgument(s: string, stop: char, n: nat)
    requires n == ArgLength(s, 1, 0) < |s| && s[n] == '>'
    ensures Arguments(s, stop) ==
      Step(Normalize(s[..n], s[n], false) + [s[n]] + (if Next(s[n + 1..], stop) == '>' then " " else ""), s[n + 1..])
  {
    hide Normalize, ArgLength;
  }

  lemma NextArgument(s: string, stop: char, n: nat)
    requires n == ArgLength(s, 1, 0) < |s| && s[n] != '>'
    ensures Arguments(s, stop) ==
      var more := Arguments(s[n + 1..], stop); Step(Normalize(s[..n], s[n], false) + [s[n]] + more.done, more.rest)
  {
    hide Normalize, ArgLength;
    var rest := s[n + 1..];
    assert Arguments(s, stop) ==
      Step(Normalize(s[..n], s[n], false) + [s[n]] + Arguments(rest, stop).done, Arguments(rest, stop).rest);
  }

  /** One more character of an argument is read. */
  lemma ArgumentGoesOn(buf: CString, t: nat, e: nat, depth: int, scope: int, depth': int, scope': int)
    requires t < e <= |buf|
    requires scope' == (if buf[t] in "{([" then scope + 1 else if buf[t] in "})]" then scope - 1 else scope)
    requires depth' == (if scope' != 0 then depth
                        else if buf[t] == '<' then depth + 1 else if buf[t] == '>' then depth - 1 else depth)
    ensures ArgLength(buf[t..e], depth, scope) ==
      if scope' == 0 && ((buf[t] == '>' && depth' == 0) || (buf[t] == ',' && depth' == 1)) then 0
      else 1 + ArgLength(buf[t + 1..e], depth', scope')
  {
    var s := buf[t..e];
    assert s[1..] == buf[t + 1..e];
    assert s[0] == buf[t];
  }

  /** The counters of the template loop, one character further. */
  method CountBrackets(c: char, depth: int, scope: int) returns (templDepth: int, scopeDepth: int)
    ensures scopeDepth == (if c in "{([" then scope + 1 else if c in "})]" then scope - 1 else scope)
    ensures templDepth == (if scopeDepth != 0 then depth
                           else if c == '<' then depth + 1 else if c == '>' then depth - 1 else depth)
  {
    templDepth, scopeDepth := depth, scope;
    if c == '{' || c == '(' || c == '[' {
      scopeDepth := scopeDepth + 1;
    }
    if c == '}' || c == ')' || c == ']' {
      scopeDepth := scopeDepth - 1;
    }
    if scopeDepth == 0 {
      if c == '<' {
        templDepth := templDepth + 1;
      }
      if c == '>' {
        templDepth := templDepth - 1;
      }
    }
  }

  /** The argument from `tt` to `p` is normalised and appended with the character that ends it. */
  method AppendArgument(buf: CString, tt: nat, p: nat, e: nat, before: string) returns (result: string)
    requires tt <= p < e && Stops(buf, e)
    requires ArgLength(buf[tt..e], 1, 0) == p - tt
    ensures buf[p] == '>' || buf[p] == ','
    ensures buf[p] == '>' ==>
      Step(result, buf[p + 1..e]) == Step(before + Arguments(buf[tt..e], CharAt(buf, e)).done,
                                          Arguments(buf[tt..e], CharAt(buf, e)).rest)
    ensures buf[p] == ',' ==>
      var all, more := Arguments(buf[tt..e], CharAt(buf, e)), Arguments(buf[p + 1..e], CharAt(buf, e));
      Step(result + more.done, more.rest) == Step(before + all.done, all.rest)
    decreases p - tt, 2
  {
    hide Normalize, Emit, Arguments, ArgLength;
    ArgumentEnd(buf, tt, p, e);
    var arg := NormalizeTypeInternal(buf, tt, p, false);
    var piece := arg + [buf[p]];
    result := before + piece;
    if buf[p] == '>' {
      AppendedLast(buf, tt, p, e, before);
      if CharAt(buf, p + 1) == '>' {
        result := result + " ";
      } else {
        assert result + "" == result;
      }
    } else {
      AppendedNext(buf, tt, p, e, before);
    }
  }

  /** The range of an argument ends as a range must. */
  lemma ArgumentEnd(buf: CString, tt: nat, p: nat, e: nat)
    requires tt <= p < e <= |buf| && ArgLength(buf[tt..e], 1, 0) == p - tt
    ensures (buf[p] == '>' || buf[p] == ',') && Stops(buf, p) && CharAt(buf, p) == buf[p]
  {
    hide ArgLength;
    Slices(buf, tt, p, e);
  }

  lemma AppendedLast(buf: CString, tt: nat, p: nat, e: nat, before: string)
    requires tt <= p < e <= |buf| && ArgLength(buf[tt..e], 1, 0) == p - tt
    ensures buf[p] == '>' ==>
      var arg, all := Normalize(buf[tt..p], buf[p], false), Arguments(buf[tt..e], CharAt(buf, e));
      before + (arg + [buf[p]]) + (if CharAt(buf, p + 1) == '>' then " " else "") == before + all.done
      && buf[p + 1..e] == all.rest
  {
    hide Normalize, Emit, ArgLength, Arguments;
    if buf[p] == '>' {
      Slices(buf, tt, p, e);
      LastArgument(buf[tt..e], CharAt(buf, e), p - tt);
      assert Next(buf[p + 1..e], CharAt(buf, e)) == CharAt(buf, p + 1);
      Assoc(before, Normalize(buf[tt..p], buf[p], false) + [buf[p]], if CharAt(buf, p + 1) == '>' then " " else "");
    }
  }

  lemma AppendedNext(buf: CString, tt: nat, p: nat, e: nat, before: string)
    requires tt <= p < e <= |buf| && ArgLength(buf[tt..e], 1, 0) == p - tt
    ensures buf[p] != '>' ==>
      var arg := Normalize(buf[tt..p], buf[p], false);
      var all, more := Arguments(buf[tt..e], CharAt(buf, e)), Arguments(buf[p + 1..e], CharAt(buf, e));
      before + (arg + [buf[p]]) + more.done == before + all.done && more.rest == all.rest
  {
    hide Normalize, Emit, ArgLength, Arguments;
    if buf[p] != '>' {
      Slices(buf, tt, p, e);
      NextArgument(buf[tt..e], CharAt(buf, e), p - tt);
      Assoc(before, Normalize(buf[tt..p], buf[p], false) + [buf[p]], Arguments(buf[p + 1..e], CharAt(buf, e)).done);
    }
  }

  lemma NoMoreArguments(s: string, stop: char)
    requires ArgLength(s, 1, 0) == |s|
    ensures Arguments(s, stop) == Step("", "")
  {
  }

  /** The template loop: each argument is normalised on its own, between commas and the closing `>`. */
  method CopyArguments(buf: CString, first: nat, e: nat) returns (t: nat, c: char, result: string)
    requires first <= e <= |buf| && Stops(buf, e)
    ensures first <= t <= e && (t == e || c == '>')
    ensures Step(result, buf[t..e]) == Arguments(buf[first..e], CharAt(buf, e))
    decreases e - first, 0
  {
    hide *;
    t, c, result := first, '<', "";
    var tt := t;
    var templDepth, scopeDepth := 1, 0;
    ghost var stop := CharAt(buf, e);
    ghost var all := Arguments(buf[first..e], stop);
    ghost var more := all;
    while t != e
      invariant first <= tt <= t <= e && templDepth >= 1
      invariant more == Arguments(buf[tt..e], stop)
      invariant all == Step(result + more.done, more.rest)
      invariant ArgLength(buf[tt..e], 1, 0) == t - tt + ArgLength(buf[t..e], templDepth, scopeDepth)
      decreases e - t
    {
      ghost var depth, scope := templDepth, scopeDepth;
      c := buf[t];
      t := t + 1;
      templDepth, scopeDepth := CountBrackets(c, templDepth, scopeDepth);
      ArgumentGoesOn(buf, t - 1, e, depth, scope, templDepth, scopeDepth);
      if scopeDepth == 0 && (templDepth == 0 || (templDepth == 1 && c == ',')) {
        result := AppendArgument(buf, tt, t - 1, e, result);
        if templDepth == 0 {
          return;
        }
        more := Arguments(buf[t..e], stop);
        tt := t;
      }
    }
    assert buf[t..e] == "";
    NoMoreArguments(buf[tt..e], stop);
  }
}
