/** The per-file cache of suppressions, which queries consume. */
module SuppressionManagers {
  import opened Options
  import opened TextUtils
  import opened Glob
  import opened Suppression
  import opened SuppressionRanges
  import opened SuppressionLines
  import opened SuppressionMatching

  type FileId = nat

  /** A check asks about a place: the file and line its expansion location resolves to, if they are valid. */
  datatype Query = Query(check: string, file: Option<FileId>, line: Option<LineNumber>)

  /** The suppressions of a file as parsed; a file without a buffer has none. */
  function Fresh(buffers: map<FileId, seq<Comment>>, f: FileId): Suppressions {
    if f in buffers then Parsed(buffers[f]) else NO_SUPPRESSIONS
  }

  /** Skipped with its file, whatever the line. */
  predicate SkippedEverywhere(supp: Suppressions, check: string) {
    supp.skipEntireFile || check in supp.checksToSkip
  }

  /** The query hits a bare NOLINT and uses it up. */
  predicate UsesBareNolint(supp: Suppressions, q: Query) {
    !SkippedEverywhere(supp, q.check) && q.line.Some? && q.line.value in supp.skipNextLine
  }

  /** What is left once the bare NOLINT comments are put aside. */
  predicate SuppressedByLists(supp: Suppressions, check: string, line: LineNumber) {
    (line, check) in supp.checksToSkipByLine ||
    (if line in supp.wildcardsByLine then RegexMatches(supp.wildcardsByLine[line], check)
     else SuppressedByRange(supp.ranges, check, line))
  }

  /** The answer while `supp` is what is cached for the file. */
  predicate Verdict(supp: Suppressions, q: Query) {
    SkippedEverywhere(supp, q.check) || UsesBareNolint(supp, q)
    || (q.line.Some? && SuppressedByLists(supp, q.check, q.line.value))
  }

  /** The bare NOLINT lines of `f` that the queries so far have used up. */
  function Consumed(buffers: map<FileId, seq<Comment>>, history: seq<Query>, f: FileId): set<LineNumber>
    decreases |history|
  {
    if history == [] then {}
    else
      var before, q := history[..|history| - 1], history[|history| - 1];
      var used := Consumed(buffers, before, f);
      if q.file == Some(f) && UsesBareNolint(Left(Fresh(buffers, f), used), q) then used + {q.line.value} else used
  }

  /** One more query. */
  lemma ConsumedStep(buffers: map<FileId, seq<Comment>>, history: seq<Query>, q: Query, f: FileId)
    ensures
      var used := Consumed(buffers, history, f);
      Consumed(buffers, history + [q], f) ==
        if q.file == Some(f) && UsesBareNolint(Left(Fresh(buffers, f), used), q) then used + {q.line.value} else used
  {
    hide Fresh, UsesBareNolint;
    assert (history + [q])[..|history|] == history;
  }

  /** A fresh parse minus the lines used up. */
  function Left(supp: Suppressions, used: set<LineNumber>): Suppressions {
    supp.(skipNextLine := supp.skipNextLine - used)
  }

  function Cached(buffers: map<FileId, seq<Comment>>, history: seq<Query>, f: FileId): Suppressions {
    Left(Fresh(buffers, f), Consumed(buffers, history, f))
  }

  /** The answer as a function of the comments and the earlier queries. */
  predicate Answer(buffers: map<FileId, seq<Comment>>, history: seq<Query>, q: Query) {
    q.file.Some? && Verdict(Cached(buffers, history, q.file.value), q)
  }

  // ----- properties of every run of queries -----

  /** A file with `clazy:skip` in any comment is suppressed for every check and line, at any time. */
  lemma SkippedFileAlwaysAnswersTrue(buffers: map<FileId, seq<Comment>>, history: seq<Query>, q: Query, i: nat)
    requires q.file.Some? && q.file.value in buffers
    requires i < |buffers[q.file.value]| && SaysSkip(buffers[q.file.value][i])
    ensures Answer(buffers, history, q)
  {
    hide Run, SaysSkip;
    SkipIsFound(buffers[q.file.value], |buffers[q.file.value]|);
  }

  /** The query could use up the bare NOLINT of line `line` in file `f`. */
  predicate AsksAbout(buffers: map<FileId, seq<Comment>>, q: Query, f: FileId, line: LineNumber) {
    q.file == Some(f) && q.line == Some(line) && !SkippedEverywhere(Fresh(buffers, f), q.check)
  }

  /** A bare NOLINT line is used up exactly when some earlier query asked about it. */
  lemma {:induction false} ConsumedExactly(buffers: map<FileId, seq<Comment>>, history: seq<Query>, f: FileId,
      line: LineNumber)
    ensures line in Consumed(buffers, history, f) <==>
      && line in Fresh(buffers, f).skipNextLine
      && exists i :: 0 <= i < |history| && AsksAbout(buffers, history[i], f, line)
    decreases |history|
  {
    hide Fresh;
    if history != [] {
      var n := |history| - 1;
      var before := history[..n];
      ConsumedExactly(buffers, before, f, line);
      if i :| 0 <= i < |before| && AsksAbout(buffers, before[i], f, line) {
        assert AsksAbout(buffers, history[i], f, line);
      }
      if i :| 0 <= i < |history| && AsksAbout(buffers, history[i], f, line) {
        assert i < n ==> AsksAbout(buffers, before[i], f, line);
      }
    }
  }

  /** So the same bare NOLINT answers for one query only; later ones fall back to the check lists. */
  lemma BareNolintServesOnce(buffers: map<FileId, seq<Comment>>, history: seq<Query>, i: nat, q: Query)
    requires i < |history| && q.file.Some? && q.line.Some?
    requires AsksAbout(buffers, history[i], q.file.value, q.line.value)
    ensures Answer(buffers, history, q) <==>
      SkippedEverywhere(Fresh(buffers, q.file.value), q.check)
      || SuppressedByLists(Fresh(buffers, q.file.value), q.check, q.line.value)
  {
    hide Fresh, SuppressedByLists, Consumed;
    var f, line := q.file.value, q.line.value;
    ConsumedExactly(buffers, history, f, line);
    var parsed := Fresh(buffers, f);
    var left := Left(parsed, Consumed(buffers, history, f));
    assert line !in left.skipNextLine;
    assert SuppressedByLists(left, q.check, line) == SuppressedByLists(parsed, q.check, line)
      by { ListsStay(parsed, left, q.check, line); }
  }

  lemma ListsStay(a: Suppressions, b: Suppressions, check: string, line: LineNumber)
    requires a.(skipNextLine := {}) == b.(skipNextLine := {})
    ensures SuppressedByLists(a, check, line) == SuppressedByLists(b, check, line)
  {
  }

  /** The queries about one file. */
  function About(history: seq<Query>, f: FileId): seq<Query>
    decreases |history|
  {
    if history == [] then []
    else
      var n := |history| - 1;
      About(history[..n], f) + (if history[n].file == Some(f) then [history[n]] else [])
  }

  lemma {:induction false} ConsumedByOwnQueries(buffers: map<FileId, seq<Comment>>, history: seq<Query>, f: FileId)
    ensures Consumed(buffers, history, f) == Consumed(buffers, About(history, f), f)
    decreases |history|
  {
    hide Fresh, UsesBareNolint, Consumed;
    if history != [] {
      var before, q := history[..|history| - 1], history[|history| - 1];
      assert history == before + [q];
      ConsumedByOwnQueries(buffers, before, f);
      ConsumedStep(buffers, before, q, f);
      ConsumedStep(buffers, About(before, f), q, f);
      assert q.file != Some(f) ==> About(history, f) == About(before, f);
    }
  }

  /** Queries about other files do not change an answer. */
  lemma OtherFilesDoNotMatter(buffers: map<FileId, seq<Comment>>, history: seq<Query>, q: Query)
    requires q.file.Some?
    ensures Answer(buffers, history, q) == Answer(buffers, About(history, q.file.value), q)
  {
    hide Consumed, Verdict;
    ConsumedByOwnQueries(buffers, history, q.file.value);
  }

  // ----- answers, from the comments -----

  /** What the comments say of a check on a line, bare NOLINT comments aside. */
  ghost predicate CommentsSuppress(comments: seq<Comment>, check: string, line: LineNumber) {
    || (exists i :: 0 <= i < |comments| && ExcludesOn(comments[i], line, check))
    || (exists i: nat :: FirstListing(comments, i, line) && GlobMatches(GlobFor(comments[i], line), check))
    || ((forall i :: 0 <= i < |comments| ==> !ListsFor(comments[i], line))
        && SuppressedByPair(comments, check, line))
  }

  /**
   * The list of a line decides alone, and by its first `clazy-` item: further items, further lists for the line and
   * ranges around it are not consulted.
   */
  lemma LineListDecides(comments: seq<Comment>, i: nat, check: string, line: LineNumber)
    requires !Parsed(comments).skipEntireFile
    ensures FirstListing(comments, i, line) ==>
      (SuppressedByLists(Parsed(comments), check, line) <==>
       GlobMatches(GlobFor(comments[i], line), check)
       || exists k :: 0 <= k < |comments| && ExcludesOn(comments[k], line, check))
  {
    hide Run, GlobMatches, RegexMatches, RegexText, GlobFor, Classify, ListsFor, ExcludesOn, SuppressedByRange;
    if FirstListing(comments, i, line) {
      SkipIsFound(comments, |comments|);
      EntryIsFirst(comments, |comments|, line);
      LineExclusionsAreFound(comments, |comments|, line, check);
      assert ListsFor(comments[i], line);
      RegexAcceptsWhatGlobAccepts(GlobFor(comments[i], line), check);
    }
  }

  /** Without a list for the line the ranges decide. */
  lemma RangesDecide(comments: seq<Comment>, check: string, line: LineNumber)
    requires !Parsed(comments).skipEntireFile && forall i :: 0 <= i < |comments| ==> !ListsFor(comments[i], line)
    ensures SuppressedByLists(Parsed(comments), check, line) <==>
      SuppressedByPair(comments, check, line)
      || exists k :: 0 <= k < |comments| && ExcludesOn(comments[k], line, check)
  {
    hide Run, RegexMatches, RegexText, GlobFor, Classify, ListsFor, ExcludesOn, SuppressedByRange, SuppressedByPair;
    RangeDecides(comments, check, line);
    SkipIsFound(comments, |comments|);
    EntryIsFirst(comments, |comments|, line);
    LineExclusionsAreFound(comments, |comments|, line, check);
  }

  lemma ListsFromComments(comments: seq<Comment>, check: string, line: LineNumber)
    requires !Parsed(comments).skipEntireFile
    ensures SuppressedByLists(Parsed(comments), check, line) <==> CommentsSuppress(comments, check, line)
  {
    hide Run, GlobMatches, SuppressedByLists, SuppressedByPair, GlobFor, Classify, ListsFor, ExcludesOn;
    if i :| 0 <= i < |comments| && ListsFor(comments[i], line) {
      var f := SomeListingIsFirst(comments, i, line);
      assert FirstListing(comments, f, line);
      forall f' | FirstListing(comments, f', line) ensures f' == f {
      }
      LineListDecides(comments, f, check, line);
    } else {
      RangesDecide(comments, check, line);
    }
  }

  /**
   * Every answer, from the comments of the file and the earlier queries: the whole-file comments, a bare NOLINT for
   * the line no earlier query has asked about, or what the other comments say of the check on the line.
   */
  lemma AnswerFromComments(buffers: map<FileId, seq<Comment>>, history: seq<Query>, q: Query)
    requires q.file.Some? && q.file.value in buffers
    ensures
      var f, comments := q.file.value, buffers[q.file.value];
      Answer(buffers, history, q) <==>
        || (exists i :: 0 <= i < |comments| && (SaysSkip(comments[i]) || ExcludesInFile(comments[i], q.check)))
        || (q.line.Some? &&
            (((exists i :: 0 <= i < |comments| && IsBareFor(comments[i], q.line.value))
              && !exists i :: 0 <= i < |history| && AsksAbout(buffers, history[i], f, q.line.value))
             || CommentsSuppress(comments, q.check, q.line.value)))
  {
    var f, comments := q.file.value, buffers[q.file.value];
    hide Run, Consumed, SuppressedByLists, SaysSkip, ExcludesInFile, ExcludesOn, IsBareFor, AsksAbout, CommentsSuppress;
    SkipIsFound(comments, |comments|);
    if !Parsed(comments).skipEntireFile {
      var line := if q.line.Some? then q.line.value else 0;
      FileExclusionsAreFound(comments, |comments|, q.check);
      BareIsFound(comments, |comments|, line);
      ConsumedExactly(buffers, history, f, line);
      ListsFromComments(comments, q.check, line);
      ListsStay(Fresh(buffers, f), Cached(buffers, history, f), q.check, line);
    }
  }

  // ----- the manager -----

  /** An open NOLINTBEGIN comment as the code stacks it: its line and its check list. */
  type OpenRange = (LineNumber, string)

  /** The stack holds the open comments of `st`. */
  predicate Stacks(comments: seq<Comment>, stack: seq<OpenRange>, st: ParseState)
  {
    && |stack| == |st.stack|
    && forall k :: 0 <= k < |stack| ==>
         st.stack[k] < |comments| && Classify(comments[st.stack[k]]) == Begin(stack[k].1)
         && stack[k].0 == comments[st.stack[k]].line
  }

  /** The NOLINT part of the parse loop. */
  method ParseNolint(comments: seq<Comment>, i: nat, supp: Suppressions, stack: seq<OpenRange>, ghost st: ParseState)
    returns (supp': Suppressions, stack': seq<OpenRange>)
    requires i < |comments| && supp == st.supp && Stacks(comments, stack, st)
    requires forall k :: 0 <= k < |st.stack| ==> st.stack[k] < i
    ensures supp' == StepNolint(st, comments, i).supp
    ensures Stacks(comments, stack', StepNolint(st, comments, i))
  {
    hide Find, ParseDisabledChecks, DisabledRegexes;
    supp', stack' := supp, stack;
    var comment, line := comments[i].text, comments[i].line;
    var foundNolint := Find(comment, "NOLINT", 0);
    if foundNolint != -1 {
      var nextLine := At(comment, "NEXTLINE", foundNolint + 6);
      var begin := Find(comment, "NOLINTBEGIN", foundNolint);
      var end := Find(comment, "NOLINTEND", foundNolint);
      if begin != -1 {
        var beginChecks := ParseDisabledChecks(comment, begin + 11);
        stack' := stack + [(line, beginChecks)];
      } else if end != -1 {
        var endChecks := ParseDisabledChecks(comment, end + 9);
        if stack != [] && stack[|stack| - 1].1 == endChecks {
          var (beginLine, disabledChecks) := stack[|stack| - 1];
          stack' := stack[..|stack| - 1];
          var regexes := SplitDisabledChecksText(disabledChecks);
          supp' := supp.(ranges := supp.ranges + [Range(regexes, beginLine, line)]);
        }
      } else {
        var target := if nextLine then line + 1 else line;
        var disableText := ParseDisabledChecks(comment, foundNolint + 6 + (if nextLine then 8 else 0));
        if disableText == "" {
          supp' := supp.(skipNextLine := supp.skipNextLine + {target});
        } else {
          var regexes := SplitDisabledChecksText(disableText);
          var wildcards := InsertAll(supp.wildcardsByLine, target, regexes);
          supp' := supp.(wildcardsByLine := wildcards);
        }
      }
    }
  }

  /** `insert` for every expression: it leaves an entry that is already there alone. */
  method InsertAll(m: map<LineNumber, string>, line: LineNumber, regexes: seq<string>)
      returns (r: map<LineNumber, string>)
    ensures r == AddWildcards(m, line, regexes)
  {
    r := m;
    for k := 0 to |regexes|
      invariant r == AddWildcards(m, line, regexes[..k])
    {
      if line !in r {
        r := r[line := regexes[k]];
      }
    }
    assert regexes[..|regexes|] == regexes;
  }

  /** The clazy part of the parse loop; `stop` ends it. */
  method ParseClazy(c: Comment, supp: Suppressions, ghost st: ParseState) returns (supp': Suppressions, stop: bool)
    requires supp == st.supp && !st.stopped
    ensures supp' == StepClazy(st, c).supp && stop == StepClazy(st, c).stopped
  {
    hide Find, Split;
    supp', stop := supp, false;
    if Find(c.text, "clazy:", 0) == -1 {
      return;
    }
    if Find(c.text, "clazy:skip", 0) != -1 {
      return supp.(skipEntireFile := true), true;
    }
    if c.directive.ExcludeAll? {
      var checks := SplitString(c.directive.checks, ',');
      supp' := supp.(checksToSkip := supp.checksToSkip + set x | x in checks);
    } else if c.directive.Exclude? {
      var checks := SplitString(c.directive.checks, ',');
      supp' := supp.(checksToSkipByLine := supp.checksToSkipByLine + set x | x in checks :: (c.line, x));
    } else if c.directive.ExcludeNextLine? {
      var checks := SplitString(c.directive.checks, ',');
      supp' := supp.(checksToSkipByLine := supp.checksToSkipByLine + set x | x in checks :: (c.line + 1, x));
    }
  }

  lemma {:induction false} StoppedStays(comments: seq<Comment>, i: nat, n: nat)
    requires i <= n <= |comments| && Run(comments, i).stopped
    ensures Run(comments, n) == Run(comments, i)
    decreases n
  {
    hide StepNolint, StepClazy;
    if i < n {
      StoppedStays(comments, i, n - 1);
    }
  }

  /** The comment loop of `parseFile`. */
  method ParseComments(comments: seq<Comment>) returns (supp: Suppressions)
    ensures supp == Parsed(comments)
  {
    hide StepNolint, StepClazy, Classify;
    supp := NO_SUPPRESSIONS;
    var stack: seq<OpenRange> := [];
    var i := 0;
    while i < |comments|
      invariant 0 <= i <= |comments|
      invariant supp == Run(comments, i).supp && !Run(comments, i).stopped
      invariant Stacks(comments, stack, Run(comments, i))
    {
      ghost var st := Run(comments, i);
      ghost var mid := StepNolint(st, comments, i);
      supp, stack := ParseNolint(comments, i, supp, stack, st);
      StopOnlyInClazy(st, comments, i);
      var stop;
      supp, stop := ParseClazy(comments[i], supp, mid);
      assert Run(comments, i + 1) == StepClazy(mid, comments[i]);
      i := i + 1;
      if stop {
        StoppedStays(comments, i, |comments|);
        return;
      }
    }
  }

  /** The cases of `isSuppressed`, in their order; `hit` asks for the bare NOLINT line to be erased. */
  method Decide(supp: Suppressions, q: Query) returns (answer: bool, hit: bool)
    ensures answer == Verdict(supp, q) && hit == UsesBareNolint(supp, q)
  {
    if supp.skipEntireFile {
      return true, false;
    }
    if q.check in supp.checksToSkip {
      return true, false;
    }
    if q.line.None? {
      return false, false;
    }
    var line := q.line.value;
    if line in supp.skipNextLine {
      return true, true;
    }
    if (line, q.check) in supp.checksToSkipByLine {
      return true, false;
    }
    if line in supp.wildcardsByLine {
      return RegexMatches(supp.wildcardsByLine[line], q.check), false;
    }
    answer := AskRanges(supp.ranges, line, q.check);
    hit := false;
  }

  /** The loop over the ranges returns at the first one that covers the line. */
  method AskRanges(ranges: seq<Range>, line: LineNumber, check: string) returns (answer: bool)
    ensures answer == SuppressedByRange(ranges, check, line)
  {
    hide AnyMatches;
    for k := 0 to |ranges|
      invariant FirstCovering(ranges, line) == k + FirstCovering(ranges[k..], line)
    {
      var range := ranges[k];
      assert ranges[k..][0] == range && ranges[k..][1..] == ranges[k + 1..];
      if range.begin <= line && range.end >= line {
        var any := AskRegexes(range.regexes, check);
        return range.regexes == [] || any;
      }
    }
    answer := false;
  }

  method AskRegexes(regexes: seq<string>, check: string) returns (any: bool)
    ensures any == AnyMatches(regexes, check)
  {
    hide RegexMatches;
    for k := 0 to |regexes|
      invariant forall i :: 0 <= i < k ==> !RegexMatches(regexes[i], check)
    {
      if RegexMatches(regexes[k], check) {
        return true;
      }
    }
    any := false;
  }

  lemma {:induction false} NothingConsumed(buffers: map<FileId, seq<Comment>>, history: seq<Query>, f: FileId)
    requires forall i :: 0 <= i < |history| ==> history[i].file != Some(f)
    ensures Consumed(buffers, history, f) == {}
    decreases |history|
  {
    hide Fresh, UsesBareNolint;
    if history != [] {
      NothingConsumed(buffers, history[..|history| - 1], f);
    }
  }

  /** The cached entry of any file after one more query. */
  lemma CachedStep(buffers: map<FileId, seq<Comment>>, history: seq<Query>, q: Query, f: FileId)
    ensures
      var supp := Cached(buffers, history, f);
      Cached(buffers, history + [q], f) == if q.file == Some(f) then AfterQuery(supp, q) else supp
  {
    hide Fresh, UsesBareNolint, Consumed;
    ConsumedStep(buffers, history, q, f);
  }

  /** The entry of a file after a query about it: a bare NOLINT that was hit is gone. */
  function AfterQuery(supp: Suppressions, q: Query): Suppressions {
    if UsesBareNolint(supp, q) then supp.(skipNextLine := supp.skipNextLine - {q.line.value}) else supp
  }

  /** Every cached entry is the fresh parse minus the lines used up, and every file asked about is cached. */
  ghost predicate Caches(buffers: map<FileId, seq<Comment>>, history: seq<Query>,
      processed: map<FileId, Suppressions>) {
    && (forall f :: f in processed ==> processed[f] == Cached(buffers, history, f))
    && (forall i :: 0 <= i < |history| && history[i].file.Some? ==> history[i].file.value in processed)
  }

  /** The cache after a query that finds no file. */
  lemma CachesNoFile(buffers: map<FileId, seq<Comment>>, history: seq<Query>, processed: map<FileId, Suppressions>,
      q: Query)
    requires Caches(buffers, history, processed) && q.file.None?
    ensures Caches(buffers, history + [q], processed)
  {
    hide Cached, UsesBareNolint;
    forall f | f in processed ensures processed[f] == Cached(buffers, history + [q], f) {
      CachedStep(buffers, history, q, f);
    }
  }

  /** The cache after a query, with the bare NOLINT line erased if it was hit. */
  lemma CachesQuery(buffers: map<FileId, seq<Comment>>, history: seq<Query>, processed: map<FileId, Suppressions>,
      q: Query)
    requires Caches(buffers, history, processed) && q.file.Some? && q.file.value in processed
    ensures
      var f := q.file.value;
      Caches(buffers, history + [q], processed[f := AfterQuery(processed[f], q)])
  {
    hide Cached, AfterQuery;
    forall f | f in processed
      ensures Cached(buffers, history + [q], f) ==
        if f == q.file.value then AfterQuery(processed[f], q) else processed[f]
    {
      CachedStep(buffers, history, q, f);
    }
  }

  class SuppressionManager {
    const buffers: map<FileId, seq<Comment>>
    var processed: map<FileId, Suppressions>
    ghost var history: seq<Query>
    ghost var parses: seq<FileId>

    /** The cache is what the queries leave of fresh parses, and each file was parsed once. */
    ghost predicate Valid()
      reads this
    {
      && Caches(buffers, history, processed)
      && (forall f :: f in processed <==> f in parses)
      && (forall i, j :: 0 <= i < j < |parses| ==> parses[i] != parses[j])
    }

    constructor (buffers: map<FileId, seq<Comment>>)
      ensures Valid() && this.buffers == buffers && history == [] && processed == map[]
    {
      this.buffers := buffers;
      processed := map[];
      history, parses := [], [];
    }

    /** `parseFile` */
    method ParseFile(f: FileId)
      modifies this`processed, this`parses
      ensures processed == old(processed)[f := Fresh(buffers, f)]
      ensures parses == old(parses) + [f]
    {
      parses := parses + [f];
      processed := processed[f := NO_SUPPRESSIONS];
      if f in buffers {
        var supp := ParseComments(buffers[f]);
        processed := processed[f := supp];
      }
    }

    /** The lookup at the top of `isSuppressed`, which parses a file the first time it is asked about. */
    method Load(f: FileId)
      requires Valid()
      modifies this`processed, this`parses
      ensures Valid() && processed.Keys == old(processed.Keys) + {f}
      ensures processed[f] == Cached(buffers, history, f)
    {
      hide Fresh, Cached;
      if f !in processed {
        NotAskedYet(f);
        ParseFile(f);
      }
    }

    /** `isSuppressed`: answers, and uses up a bare NOLINT that was hit. */
    method IsSuppressed(q: Query) returns (answer: bool)
      requires Valid()
      modifies this
      ensures Valid() && history == old(history) + [q]
      ensures answer == Answer(buffers, old(history), q)
      ensures q.file.Some? ==> processed.Keys == old(processed.Keys) + {q.file.value}
      ensures q.file.None? ==> processed == old(processed)
    {
      hide Cached, Caches, Verdict;
      if q.file.None? {
        CachesNoFile(buffers, history, processed, q);
        history := history + [q];
        return false;
      }
      var f := q.file.value;
      Load(f);
      var suppressions := processed[f];
      CachesQuery(buffers, history, processed, q);
      var hit;
      answer, hit := Decide(suppressions, q);
      if hit {
        processed := processed[f := suppressions.(skipNextLine := suppressions.skipNextLine - {q.line.value})];
      } else {
        assert processed[f := suppressions] == processed;
      }
      history := history + [q];
    }

    lemma NotAskedYet(f: FileId)
      requires Valid() && f !in processed
      ensures Cached(buffers, history, f) == Fresh(buffers, f)
    {
      hide Fresh;
      NothingConsumed(buffers, history, f);
    }
  }
}
