/** What the comments of a file suppress: parsing of NOLINT and clazy comments. */
module Suppression {
  import opened TextUtils
  import opened Glob

  type LineNumber = nat

  /** The clazy pattern found in a comment, with the text of its check list. */
  datatype Directive = NoDirective | ExcludeAll(checks: string) | Exclude(checks: string)
    | ExcludeNextLine(checks: string)

  datatype Comment = Comment(line: LineNumber, text: string, directive: Directive)

  /** `CheckBeginAndEnd` */
  datatype Range = Range(regexes: seq<string>, begin: LineNumber, end: LineNumber)

  datatype Suppressions = Suppressions(
    skipEntireFile: bool,
    skipNextLine: set<LineNumber>,
    checksToSkip: set<string>,
    checksToSkipByLine: set<(LineNumber, string)>,
    wildcardsByLine: map<LineNumber, string>,
    ranges: seq<Range>)

  const NO_SUPPRESSIONS := Suppressions(false, {}, {}, {}, map[], [])

  // ----- check lists -----

  /** The text between the parentheses that open at `pos`, or nothing. */
  function ParseDisabledChecks(comment: string, pos: nat): string {
    if pos < |comment| && comment[pos] == '(' then
      var end := Find(comment, ")", pos);
      if end == -1 then ""
      else
        assert comment[pos..pos + 1] == "(";
        comment[pos + 1..end]
    else ""
  }

  predicate IsTrimmed(c: char) {
    c == ' ' || c == '\t' || c == '\n' || c == '\r' || c == '\U{0b}' || c == '\U{0c}'
  }

  /** `StringRef::rtrim` */
  function RTrim(s: string): string {
    if s != "" && IsTrimmed(s[|s| - 1]) then RTrim(s[..|s| - 1]) else s
  }

  const CLAZY := "clazy-"

  /** The globs of a comma-separated list; items that do not start exactly with `clazy-` are dropped. */
  function GlobsOf(items: seq<string>): seq<string> {
    if items == [] then []
    else (if CLAZY <= items[0] then [RTrim(items[0][6..])] else []) + GlobsOf(items[1..])
  }

  function RegexesOf(globs: seq<string>): (r: seq<string>)
    ensures |r| == |globs| && forall i :: 0 <= i < |globs| ==> r[i] == RegexText(globs[i])
  {
    seq(|globs|, i requires 0 <= i < |globs| => RegexText(globs[i]))
  }

  function DisabledRegexes(text: string): seq<string> {
    RegexesOf(GlobsOf(Split(text, ',')))
  }

  lemma NothingDisabled()
    ensures RegexesOf([]) == [] && GlobsOf([]) == []
  {
  }

  lemma OneMoreGlob(globs: seq<string>, g: string)
    ensures RegexesOf(globs + [g]) == RegexesOf(globs) + [RegexText(g)]
  {
    hide RegexText;
  }

  lemma NextItem(items: seq<string>, k: nat, globs: seq<string>)
    requires k < |items|
    ensures var more := if CLAZY <= items[k] then [RTrim(items[k][6..])] else [];
      globs + more + GlobsOf(items[k + 1..]) == globs + GlobsOf(items[k..])
  {
    hide RTrim;
    assert items[k..][1..] == items[k + 1..];
  }

  /** `splitDisabledChecksText` */
  method SplitDisabledChecksText(text: string) returns (regexes: seq<string>)
    ensures regexes == DisabledRegexes(text)
  {
    hide RegexesOf, RegexText, GlobsOf, RTrim, Split;
    regexes := [];
    var items := SplitString(text, ',');
    ghost var globs := [];
    NothingDisabled();
    assert items[0..] == items && [] + GlobsOf(items) == GlobsOf(items);
    for k := 0 to |items|
      invariant globs + GlobsOf(items[k..]) == GlobsOf(items)
      invariant regexes == RegexesOf(globs)
    {
      NextItem(items, k, globs);
      if CLAZY <= items[k] {
        var sanitized := RTrim(items[k][6..]);
        var regex := CreateRegexFromGlob(sanitized);
        OneMoreGlob(globs, sanitized);
        regexes := regexes + [regex];
        globs := globs + [sanitized];
      } else {
        assert globs + [] == globs;
      }
    }
    assert items[|items|..] == [] && globs + [] == globs;
  }

  predicate AnyMatches(regexes: seq<string>, check: string) {
    exists i :: 0 <= i < |regexes| && RegexMatches(regexes[i], check)
  }

  lemma {:induction false} GlobsOfItems(items: seq<string>, g: string)
    ensures g in GlobsOf(items) <==> exists k :: 0 <= k < |items| && CLAZY <= items[k] && g == RTrim(items[k][6..])
    decreases |items|
  {
    if items != [] {
      GlobsOfItems(items[1..], g);
      forall k | 0 <= k < |items| - 1 ensures items[1..][k] == items[k + 1] {
      }
      if g in GlobsOf(items[1..]) {
        var k :| 0 <= k < |items[1..]| && CLAZY <= items[1..][k] && g == RTrim(items[1..][k][6..]);
        assert items[k + 1] == items[1..][k];
      }
      if k :| 0 <= k < |items| && CLAZY <= items[k] && g == RTrim(items[k][6..]) {
        if k > 0 {
          assert items[1..][k - 1] == items[k];
        }
      }
    }
  }

  /** A list item that counts, and whose glob accepts the check. */
  predicate ItemDisables(item: string, check: string) {
    CLAZY <= item && GlobMatches(RTrim(item[6..]), check)
  }

  predicate AnyItemDisables(items: seq<string>, check: string) {
    exists k :: 0 <= k < |items| && ItemDisables(items[k], check)
  }

  lemma ItemsOfGlobs(items: seq<string>, check: string)
    ensures AnyItemDisables(items, check) <==> exists g :: g in GlobsOf(items) && GlobMatches(g, check)
  {
    hide GlobMatches, RTrim, GlobsOf;
    if k :| 0 <= k < |items| && ItemDisables(items[k], check) {
      GlobsOfItems(items, RTrim(items[k][6..]));
    }
    if g :| g in GlobsOf(items) && GlobMatches(g, check) {
      GlobsOfItems(items, g);
      var k :| 0 <= k < |items| && CLAZY <= items[k] && g == RTrim(items[k][6..]);
      assert ItemDisables(items[k], check);
    }
  }

  lemma RegexesOfGlobs(globs: seq<string>, check: string)
    ensures AnyMatches(RegexesOf(globs), check) <==> exists g :: g in globs && GlobMatches(g, check)
  {
    hide GlobMatches, RegexMatches, RegexText;
    forall i | 0 <= i < |globs| ensures RegexMatches(RegexesOf(globs)[i], check) <==> GlobMatches(globs[i], check) {
      RegexAcceptsWhatGlobAccepts(globs[i], check);
    }
    if g :| g in globs && GlobMatches(g, check) {
      var i :| 0 <= i < |globs| && globs[i] == g;
      assert RegexMatches(RegexesOf(globs)[i], check);
    }
  }

  /** A list suppresses a check exactly if one of its `clazy-` items, as a glob, matches the check's name. */
  lemma ListSuppresses(text: string, check: string)
    ensures AnyMatches(DisabledRegexes(text), check) <==> AnyItemDisables(Split(text, ','), check)
  {
    ItemsOfGlobs(Split(text, ','), check);
    RegexesOfGlobs(GlobsOf(Split(text, ',')), check);
  }

  // ----- comments -----

  /** What a comment says to clang-tidy. */
  datatype Nolint = NoNolint | Begin(checks: string) | End(checks: string) | Line(line: LineNumber, checks: string)

  function Classify(c: Comment): Nolint {
    var found := Find(c.text, "NOLINT", 0);
    if found == -1 then NoNolint
    else
      var nextLine := At(c.text, "NEXTLINE", found + 6);
      var begin, end := Find(c.text, "NOLINTBEGIN", found), Find(c.text, "NOLINTEND", found);
      if begin != -1 then Begin(ParseDisabledChecks(c.text, begin + 11))
      else if end != -1 then End(ParseDisabledChecks(c.text, end + 9))
      else Line(if nextLine then c.line + 1 else c.line,
                ParseDisabledChecks(c.text, found + 6 + (if nextLine then 8 else 0)))
  }

  /** Only the first expression for a line is kept. */
  function AddWildcards(m: map<LineNumber, string>, line: LineNumber, regexes: seq<string>): map<LineNumber, string> {
    if regexes == [] || line in m then m else m[line := regexes[0]]
  }

  /**
   * The state after some comments: the open NOLINTBEGIN comments, innermost last, the begin and end
   * comments of every range found, in the order found, and whether `clazy:skip` ended the parse.
   */
  datatype ParseState = ParseState(supp: Suppressions, stack: seq<nat>, pairs: seq<(nat, nat)>, stopped: bool)

  /** The NOLINT part of comment `i`. */
  function StepNolint(st: ParseState, comments: seq<Comment>, i: nat): (st': ParseState)
    requires i < |comments| && forall k :: 0 <= k < |st.stack| ==> st.stack[k] < i
    ensures forall k :: 0 <= k < |st'.stack| ==> st'.stack[k] <= i
  {
    match Classify(comments[i])
    case NoNolint => st
    case Begin(_) => st.(stack := st.stack + [i])
    case End(checks) =>
      if st.stack == [] then st
      else
        var top := st.stack[|st.stack| - 1];
        if Classify(comments[top]) != Begin(checks) then st
        else
          var range := Range(DisabledRegexes(checks), comments[top].line, comments[i].line);
          st.(stack := st.stack[..|st.stack| - 1], pairs := st.pairs + [(top, i)],
              supp := st.supp.(ranges := st.supp.ranges + [range]))
    case Line(line, checks) =>
      if checks == "" then st.(supp := st.supp.(skipNextLine := st.supp.skipNextLine + {line}))
      else
        st.(supp := st.supp.(wildcardsByLine := AddWildcards(st.supp.wildcardsByLine, line, DisabledRegexes(checks))))
  }

  /** The clazy part of comment `c`. */
  function StepClazy(st: ParseState, c: Comment): (st': ParseState)
    ensures st'.stack == st.stack && st'.pairs == st.pairs && st'.supp.ranges == st.supp.ranges
  {
    if Find(c.text, "clazy:", 0) == -1 then st
    else if Find(c.text, "clazy:skip", 0) != -1 then st.(supp := st.supp.(skipEntireFile := true), stopped := true)
    else
      match c.directive
      case NoDirective => st
      case ExcludeAll(checks) =>
        st.(supp := st.supp.(checksToSkip := st.supp.checksToSkip + (set x | x in Split(checks, ','))))
      case Exclude(checks) =>
        st.(supp := st.supp.(checksToSkipByLine :=
          st.supp.checksToSkipByLine + (set x | x in Split(checks, ',') :: (c.line, x))))
      case ExcludeNextLine(checks) =>
        st.(supp := st.supp.(checksToSkipByLine :=
          st.supp.checksToSkipByLine + (set x | x in Split(checks, ',') :: (c.line + 1, x))))
  }

  /** The state after the first `n` comments. */
  function Run(comments: seq<Comment>, n: nat): (st: ParseState)
    requires n <= |comments|
    ensures forall k :: 0 <= k < |st.stack| ==> st.stack[k] < n
  {
    if n == 0 then ParseState(NO_SUPPRESSIONS, [], [], false)
    else
      var st := Run(comments, n - 1);
      if st.stopped then st else StepClazy(StepNolint(st, comments, n - 1), comments[n - 1])
  }

  /** The suppressions of a file with these comments. */
  function Parsed(comments: seq<Comment>): Suppressions {
    Run(comments, |comments|).supp
  }
}
