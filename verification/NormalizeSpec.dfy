/** The normal form of one type, on texts: what the pointer code of `normalizeTypeInternal` is proved to compute. */
module NormalizeSpec {
  import opened CText

  const CONST := "const"
  const CONST_SPACE := "const "

  /** `const` stands at the head of `s` as a whole word. */
  predicate StartsWithConst(s: string) {
    CONST <= s && (|s| == 5 || !IsIdentChar(s[5]))
  }

  /** `const` stands at `i > 0` as a whole word. */
  predicate ConstWordAt(s: string, i: nat)
    requires 1 <= i <= |s|
  {
    StartsWithConst(s[i..]) && !IsIdentChar(s[i - 1])
  }

  /** Behind these characters `const` stays where it is. */
  predicate EndsScan(c: char) {
    c == '&' || c == '*' || c == '<'
  }

  /** The first later `const` that may move to the front, or `|s|`. */
  function ConstIndex(s: string, i: nat): (r: nat)
    requires 1 <= i
    ensures r < |s| ==> i <= r && ConstWordAt(s, r)
    ensures r <= |s|
    decreases |s| - i
  {
    if i >= |s| then |s|
    else if ConstWordAt(s, i) then i
    else if EndsScan(s[i]) then |s|
    else ConstIndex(s, i + 1)
  }

  lemma ConstIndexStep(s: string, i: nat)
    requires 1 <= i < |s|
    ensures ConstIndex(s, i) ==
      if ConstWordAt(s, i) then i else if EndsScan(s[i]) then |s| else ConstIndex(s, i + 1)
  {
    hide ConstWordAt;
  }

  lemma ConstIndexEnds(s: string, i: nat)
    requires i >= 1 && i >= |s|
    ensures ConstIndex(s, i) == |s|
  {
  }

  /** `char const *` becomes `const char *`. */
  function Hoist(s: string, i: nat): (r: string)
    requires 1 <= i < |s| && ConstWordAt(s, i)
    ensures CONST_SPACE <= r && |r| <= |s| + 1
  {
    if IsSpace(s[i - 1]) then CONST_SPACE + (s[..i - 1] + s[i + 5..])
    else CONST_SPACE + (s[..i] + s[i + 5..])
  }

  /** A range of text together with the character that stops it. */
  datatype Range = Range(text: string, stop: char)

  function HoistConst(r: Range): (h: Range)
    ensures |h.text| <= |r.text| + (if CONST_SPACE <= h.text then 1 else 0)
  {
    var i := ConstIndex(r.text, 1);
    if i < |r.text| then Range(Hoist(r.text, i), '\0') else r
  }

  /** A leading `const` of a value or of a reference is dropped, a reference with its `&`. */
  function DropValueConst(r: Range): (d: Range)
    ensures d == r || |d.text| <= |r.text| - 6
  {
    if |r.text| > 6 && CONST_SPACE <= r.text then
      var last := r.text[|r.text| - 1];
      if last == '&' then Range(r.text[6..|r.text| - 1], '&')
      else if IsIdentChar(last) || last == '>' then Range(r.text[6..], r.stop)
      else r
    else r
  }

  /** Result text already produced, and the text still to be read. */
  datatype Step = Step(done: string, rest: string)

  function TakeConst(s: string): (p: Step)
    ensures |p.rest| <= |s| && (CONST_SPACE <= s ==> |p.rest| == |s| - 6)
  {
    if CONST_SPACE <= s then Step(CONST_SPACE, s[6..]) else Step("", s)
  }

  /** The short name for `unsigned` followed by `u`, and how much of `u` it covers; no name keeps the text. */
  function UnsignedName(u: string): (p: (string, nat))
    ensures p.1 <= |u|
  {
    if " int" <= u then ("uint", 4)
    else if " long" <= u then
      if " int" <= u[5..] || " long" <= u[5..] then ("", 0) else ("ulong", 5)
    else if " short" <= u || " char" <= u then ("", 0)
    else ("uint", 0)
  }

  /** `unsigned` variants get their short names; `struct`, `class` and `enum` are dropped. */
  function Simplify(s: string): (p: Step)
    ensures |p.rest| <= |s|
  {
    if "unsigned" <= s then
      var (name, covered) := UnsignedName(s[8..]);
      if (|s| > 8 && IsIdentChar(s[8])) || name == "" then Step("", s)
      else Step(name, s[8 + covered..])
    else if "struct " <= s then Step("", s[7..])
    else if "class " <= s then Step("", s[6..])
    else if "enum " <= s then Step("", s[5..])
    else Step("", s)
  }

  /**
   * How many characters of `s` come before the end of the template argument that starts here: a
   * comma of its own list or the closing `>`, both outside other brackets.  `|s|` if it never ends.
   */
  function ArgLength(s: string, depth: int, scope: int): (n: nat)
    ensures n <= |s|
    ensures n < |s| ==> s[n] == ',' || s[n] == '>'
    decreases |s|
  {
    if s == "" then 0
    else
      var c := s[0];
      var scope' := if c == '{' || c == '(' || c == '[' then scope + 1
                    else if c == '}' || c == ')' || c == ']' then scope - 1 else scope;
      if scope' != 0 then 1 + ArgLength(s[1..], depth, scope')
      else
        var depth' := if c == '<' then depth + 1 else if c == '>' then depth - 1 else depth;
        if (c == '>' && depth' == 0) || (depth' == 1 && c == ',') then 0
        else 1 + ArgLength(s[1..], depth', scope')
  }

  /** The character after the range's text, or the one that stops it. */
  function Next(s: string, stop: char): char {
    if s == "" then stop else s[0]
  }

  /** What happens to a `const` behind a character that is no part of an identifier. */
  function PlaceConst(rest: string, adjustConst: bool, star: bool, result: string): (p: Step)
    ensures |p.rest| <= |rest|
  {
    if !StartsWithConst(rest) then Step(result, rest)
    else
      var behind := DropSpaces(rest[5..]);
      if adjustConst && behind != "" && behind[0] == '&' then Step(result, behind[1..])
      else if star then Step(result + CONST, behind)
      else if adjustConst then Step(result, behind)
      else Step(CONST_SPACE + result, behind)
  }

  /** `normalizeTypeInternal(t, e, false, adjustConst)` for the text from `t` to `e`; `stop` is `*e`. */
  function Normalize(s: string, stop: char, adjustConst: bool): string
    decreases |s|, 1
  {
    var h := HoistConst(Range(s, stop));
    var r := if adjustConst then DropValueConst(h) else h;
    var c := TakeConst(r.text);
    var p := Simplify(c.rest);
    Emit(p.rest, r.stop, adjustConst, false, c.done + p.done)
  }

  /** The character loop, with the result so far in `result`. */
  function Emit(s: string, stop: char, adjustConst: bool, star: bool, result: string): string
    decreases |s|, 0
  {
    if s == "" then result
    else
      var c := s[0];
      var star' := star || c == '*';
      var a := if c == '<' then Arguments(s[1..], stop) else Step("", s[1..]);
      var out := result + [c] + a.done;
      var p := if IsIdentChar(c) then Step(out, a.rest) else PlaceConst(a.rest, adjustConst, star', out);
      Emit(p.rest, stop, adjustConst, star', p.done)
  }

  /** The template arguments up to and including the closing `>`; text without one is dropped. */
  function Arguments(s: string, stop: char): (p: Step)
    ensures |p.rest| <= |s|
    decreases |s|, 0
  {
    var n := ArgLength(s, 1, 0);
    if n == |s| then Step("", "")
    else
      var arg := Normalize(s[..n], s[n], false) + [s[n]];
      var rest := s[n + 1..];
      if s[n] == '>' then Step(arg + (if Next(rest, stop) == '>' then " " else ""), rest)
      else
        var more := Arguments(rest, stop);
        Step(arg + more.done, more.rest)
  }
}
