# A model of clazy's self-contained algorithms

Clazy is a Clang plugin that checks Qt code. Most of it matches patterns on Clang's syntax tree; this project
models the parts that are algorithms in their own right and proves what they compute. Each stateful or looping
piece of C++ is a method or a class, proved against a specification function, and the properties are lemmas about
that function or invariants of the class. `dafny verify dfyconfig.toml` checks everything.

## Layout

- `CText`, `Whitespace`, `NormalizeSpec`, `NormalizeType`, `Signature`: the Qt signature normaliser, from the
  pointer code up. Pointers are offsets into a NUL-terminated text; the specification says what a range of text
  becomes. All of this holds for arbitrary text.
- `NormalizeLaws`: what its character tests, name table and bracket counters mean.
- `TypeGrammar`, `TypeLengths`, `TypeRender`, `TypeProof`, `TypeCanonical`, `TypeReading`, `TypeIdempotence`,
  `TypeTwice`, `TypeClosers`, `SignatureProof`, `TypeExamples`, `SpacingExamples`: C++ types as a datatype, their
  spellings, the canonical text, and when the normaliser returns it.
- `Levenshtein`: the one-column edit distance, refined to the table, to optimal edit scripts and to a metric.
- `MemberCalls`, `VirtualCalls`: the search for pure virtual calls below constructors and destructors.
- `TextUtils`, `Glob`, `Suppression`, `NolintTexts`, `SuppressionRanges`, `SuppressionLines`, `SuppressionMatching`,
  `SuppressionManager`, `SuppressionExamples`, `NextLineExamples`: NOLINT and clazy comments, the lazily filled cache,
  and queries that use it up.
- `NameOrder`, `CheckSelection`, `SelectionLaws`: which checks run.
- `AccessSpecifiers`: the per-class lists of signal and slot sections.
- `MocTypes`, `MocLayout`, `Inheritance`, `ContextNames`, `ContextExamples`, `Emission`, `Options`, `TokenTexts`: the
  smaller ones.

## The types of the grammar

A type is a name (identifiers, single spaces, colons, no word `const`), optional template arguments, any number of
`*`, each with or without a `const` behind it, then any number of `&`, and a `const` that is absent, in front, or
behind the name or the template arguments. This includes `unsigned long`, `struct X` and `Ns::X` as names, and the
shapes on which the code does not return the canonical text; these are not excluded but characterised.

The canonical text takes the names as the code shortens them: one type written with different words may have
several canonical names. `unsigned long` becomes `ulong` while `unsigned long int` stays as it is, so these two
spellings of one C++ type are two types here (`UnsignedLongIntKeepsItsName`).

## Where the code differs from what one would expect

- A leading `const` is dropped from every type that ends in `&`, also from `const T*&`, where it belongs to the
  pointee, and from `const T&&`, which also loses an `&` (src/NormalizedSignatureUtils.h:85-88;
  `ConstPointerReferenceIsLost`, `ConstRvalueReferenceIsLost`).
- `const T*const` is taken for a constant value, for it ends in an identifier, and loses its leading `const`; of
  `T*const&&` the `const` goes with one `&` (src/NormalizedSignatureUtils.h:85-92, 195-197; `ConstBehindStarStays`,
  `CanonicalExactlyWhenFaithful`).
- `A<B> const*` loses its `const`, since the star has not been read yet (src/NormalizedSignatureUtils.h:190-203),
  while `A const*` and `const A<B>*` keep it (`ConstBehindArgumentsIsLost`).
- The space between two closers is missing in `A<B<C> const>`, as the inner call sees `const` and not the closer
  behind its own `>` (src/NormalizedSignatureUtils.h:177-180). For all types, the result is canonical if and only
  if none of these applies (`CanonicalExactlyWhenFaithful`, `LostCloserIsNotIdempotent`).
- A bare NOLINT is a one-time token: the first query for its line that gets past the whole-file cases, for
  whatever check, uses it up (src/SuppressionManager.cpp:105-109; `SecondWarningGetsThrough`).
- Of several items in a NOLINT list only the first that starts with `clazy-` is kept for the line, and once a line has
  such an entry, enclosing ranges are not consulted for it (src/SuppressionManager.cpp:113-115, 185-187;
  `LineListDecides` for all comments, `SecondItemIsIgnored` for some).
- A repeated warning inside a macro returns before the queued messages are flushed (src/checkbase.cpp:243-246), so
  the queue is empty after an emission exactly if the warning went out or nothing was queued (`EmissionFlushes`,
  `RepeatedWarningFlushesNothing`).
- An unnamed outermost scope makes a qualified name start with `::` (src/ContextUtils.cpp:105-108;
  `StartsGlobalExactly`, `UnnamedNamespaceStartsGlobal`).
- The text `normalizeType` returns for types ending in two stars still ends in a star, which a second call removes
  (src/checks/level0/fully-qualified-moc-types.cpp:73-76; `NormalizedTwice`, `TwoStarsAreLostOneByOne`).
- A blank between `<` and `:` is kept and none is put there (src/NormalizedSignatureUtils.h:48), so `A< ::B>` and
  `A<::B>` get two normal forms (`SqueezedAlikeExactly`, `GapIsKept`).
- A range whose list names checks of other tools only, such as `NOLINTBEGIN(bugprone-x)`, suppresses every clazy
  check in it (src/SuppressionManager.cpp:119; `RangeDecides`, `RangeForOthersSilencesClazy`).
- Two specifiers that one macro expands to compare as before each other (src/AccessSpecifierManager.cpp:46-48), so
  the order of a class's list then depends on the order of insertion (`OrderIsIrrelevantExactly`).

## Model

| member | source | states |
|---|---|---|
| `Whitespace.QRemoveWhitespace` | src/NormalizedSignatureUtils.h:35-53 | for every C string the buffer receives the squeezed text and its terminator in place, and no byte behind them changes |
| `Whitespace.CopyWord` | src/NormalizedSignatureUtils.h:42-44 | one run of non-blanks is copied, and the buffer agrees with what is due so far |
| `Whitespace.RemoveWhitespaceKeepsTokens` | src/NormalizedSignatureUtils.h:35-53 | the sequence of identifiers and punctuation characters is the same before and after, for every text |
| `Whitespace.RemoveWhitespaceIdempotent` | src/NormalizedSignatureUtils.h:35-53 | every blank left is one space that two identifiers, or `<` and `:`, need around it, so none leads, trails or is doubled; a second pass changes nothing |
| `Whitespace.SqueezedAlikeExactly` | src/NormalizedSignatureUtils.h:35-53 | two texts are squeezed alike if and only if they have the same tokens and the same gaps, a gap being the presence of a blank between a `<` and the `:` that follows it |
| `Whitespace.SqueezeKeepsGaps` | src/NormalizedSignatureUtils.h:48-50 | squeezing keeps every gap: a blank there stays as one space, and none is put there |
| `Whitespace.JoinLexIsSqueeze` | src/NormalizedSignatureUtils.h:41-51 | for every text, squeezing is the same as writing its tokens with a space between adjacent identifiers and in the gaps that have a blank |
| `NormalizeType.MoveConstToFront` | src/NormalizedSignatureUtils.h:58-84 | the scan for a later `const` and the rebuilt buffer refine `HoistConst`; every read stays at or before the terminator |
| `NormalizeType.Rebuild` | src/NormalizedSignatureUtils.h:65-75 | erasing the word and one blank before it in `constbuf` and prefixing `const ` gives the hoisted text, at most one character longer |
| `NormalizeType.SkipValueConst` | src/NormalizedSignatureUtils.h:85-92 | the leading `const` of a value or reference is skipped exactly when `DropValueConst` says so, and `t` stays at or before `e` |
| `NormalizeType.KeywordInRange` | src/NormalizedSignatureUtils.h:97-131 | a `strncmp` keyword test that succeeds at `t` has matched inside the range up to `e`, so skipping the keyword never passes `e` |
| `NormalizeType.ConstTest` | src/NormalizedSignatureUtils.h:65 | the five character tests of the scan succeed exactly when a whole word `const` stands there |
| `NormalizeType.ReplaceUnsigned` | src/NormalizedSignatureUtils.h:104-122 | the replacement and the text consumed behind `unsigned` are those of the `UnsignedName` table |
| `NormalizeType.SkipElaboration` | src/NormalizedSignatureUtils.h:127-137 | the first of `struct `, `class `, `enum ` that matches is skipped, once |
| `NormalizeType.PlaceTrailingConst` | src/NormalizedSignatureUtils.h:189-207 | a `const` behind a character that ends no identifier goes where `PlaceConst` puts it, within the range; which texts come of it `NormalizedTypeIsRendered` says for every star with and without `const` |
| `NormalizeType.AppendArgument` | src/NormalizedSignatureUtils.h:174-183 | one argument is normalised without value rules, with the character that ends it and the space between two closers |
| `NormalizeType.CopyArguments` | src/NormalizedSignatureUtils.h:154-187 | the template loop consumes and produces what the recursive `Arguments` does; it terminates |
| `NormalizeType.CopyCharacters` | src/NormalizedSignatureUtils.h:140-208 | the character loop equals the recursive `Emit` from `t` to `e` |
| `NormalizeType.NormalizeTypeInternal` | src/NormalizedSignatureUtils.h:56-211 | for every range the pointer code returns `Normalize` of the range, terminating although the rebuilt buffer may be longer |
| `Signature.QNormalizeType` | src/NormalizedSignatureUtils.h:213-232 | the parameter ends at the first `,` or `)` outside angle brackets, which are balanced again there, and its normal form is appended |
| `Signature.NormalizedType` | src/NormalizedSignatureUtils.h:234-249 | for every C string the whole function computes `NormalizedTypeOf`, within its scratch buffer |
| `Signature.NormalizedSignature` | src/NormalizedSignatureUtils.h:251-285 | for every C string the signature loop computes `NormalizedSignatureOf`, within its scratch buffer |
| `Signature.OnlyGapsMatter` | src/NormalizedSignatureUtils.h:234-285 | any two texts with equal tokens and equal gaps have equal normalised types and signatures, grammatical or not |
| `SpacingExamples.GapIsKept` | src/NormalizedSignatureUtils.h:48-50 | `A< ::B>` and `A<::B>` have the same tokens and two normal forms, each its own |
| `TypeGrammar.AnySpacingSqueezesToSpelling` | src/NormalizedSignatureUtils.h:35-53 | every legal spacing of a type of the grammar is squeezed to its one spelling |
| `TypeProof.NormalizeArg` | src/NormalizedSignatureUtils.h:56-211 | the normal form of a spelled template argument is its rendering, whatever its nesting |
| `TypeProof.NormalizeTop` | src/NormalizedSignatureUtils.h:56-211 | the normal form of a spelled parameter type is its rendering, with value and reference rules applied |
| `TypeLengths.SkipType` | src/NormalizedSignatureUtils.h:216-224 | the parameter scan passes over the whole of a spelled type, commas inside its angle brackets included |
| `TypeCanonical.NormalizedTypeIsRendered` | src/NormalizedSignatureUtils.h:234-249 | for every type of the grammar and every legal spacing, the exact text returned; a `const` behind a star stays where it is, but behind the last star and before an `&` it is dropped with that `&` |
| `TypeCanonical.CanonicalExactlyWhenFaithful` | src/NormalizedSignatureUtils.h:56-249 | the result is the canonical text of the parameter's meaning (no const on values and const references, `const` in front elsewhere, nested closers as `> >`) if and only if the type is `Faithful`: it has none of `const` with `*` and `&`, `const` with `&&`, `const` between `>` and `*`, `const` both in front and behind the last `*`, `const` behind the last `*` and before `&&`, or a last argument ending in `> const` |
| `TypeCanonical.SpellingsAgree` | src/NormalizedSignatureUtils.h:234-249 | all faithful spellings of one meaning, by spacing, place of `const` or name, get one normal form |
| `TypeCanonical.TopMatches` | src/NormalizedSignatureUtils.h:85-92 | where the code misses the canonical text its own text is strictly shorter, so the two cannot coincide by accident |
| `TypeReading.UniqueReading` | src/NormalizedSignatureUtils.h:154-187 | canonical text can be read back: equal texts, even with more text behind them, come from equal types |
| `TypeIdempotence.NormalFormsTellTypesApart` | src/NormalizedSignatureUtils.h:234-249 | for faithful types normal forms are equal if and only if the parameter meanings are |
| `TypeIdempotence.WrittenSpells` | src/NormalizedSignatureUtils.h:181-183 | the canonical text is itself a legal spelling of the type it was written from, `> >` included |
| `TypeTwice.NormalisedTwice` | src/NormalizedSignatureUtils.h:234-249 | for every type of the grammar and every legal spacing: normalising the normal form again changes nothing if and only if no closer was lost and no name is of the kind `struct struct A` or `enum unsigned int`, of which one pass removes only the first word |
| `TypeClosers.EqualExactly` | src/NormalizedSignatureUtils.h:234-249 | for all types of the grammar and all spellings: two normal forms are equal if and only if the code keeps the same of both types and writes the same closers |
| `TypeClosers.SameSpelling` | src/NormalizedSignatureUtils.h:154-187 | types with `const` in front are known by their spelling, in which closers have no space |
| `TypeTwice.LostClosersAreRestored` | src/NormalizedSignatureUtils.h:177-180 | a result with a lost closer is always changed by a second pass |
| `TypeTwice.ShortenedTwiceExactly` | src/NormalizedSignatureUtils.h:104-137 | replacing a name a second time changes nothing if and only if no keyword followed the one removed and no `unsigned` type was uncovered |
| `TypeExamples.ConstBehindArgumentsIsLost` | src/NormalizedSignatureUtils.h:190-203 | `A<B>const*` yields `A<B>*` while `const A<B>*`, with the same meaning, keeps its `const` |
| `TypeExamples.ConstPointerReferenceIsLost` | src/NormalizedSignatureUtils.h:85-88 | `const T*&` yields `T*` |
| `TypeExamples.ConstRvalueReferenceIsLost` | src/NormalizedSignatureUtils.h:85-88 | `const T&&` yields `T&` |
| `TypeExamples.UnsignedLongIntKeepsItsName` | src/NormalizedSignatureUtils.h:104-122 | `unsigned long` is shortened to `ulong`, `unsigned long int` is left as it is |
| `TypeExamples.LostCloserIsNotIdempotent` | src/NormalizedSignatureUtils.h:177-180 | `A<B<C>const>` yields `A<const B<C>>`, which is not the normal form of the same type with `const` in front |
| `TypeExamples.ConstBehindStarStays` | src/NormalizedSignatureUtils.h:203-206 | `T*const` and `const T*const*` stay as they are, `const T*const` loses its leading `const` |
| `TypeExamples.ConstBehindStarIsLostInReference` | src/NormalizedSignatureUtils.h:195-197 | `T*const&` yields `T*` |
| `NormalizeLaws.IdentifierCharacters` | src/NormalizedSignatureUtils.h:20-33 | the characters of identifiers are the letters, the digits, `_` and `$`; blanks are the space and the tab |
| `NormalizeLaws.ConstIsAToken` | src/NormalizedSignatureUtils.h:189-192 | the test for a leading `const` succeeds if and only if that is the first token of the text and no blank comes before it |
| `NormalizeLaws.UnsignedIsUint` | src/NormalizedSignatureUtils.h:104-122 | `unsigned` and `unsigned int` become `uint`, also with any other word behind `unsigned` |
| `NormalizeLaws.UnsignedLongShortChar` | src/NormalizedSignatureUtils.h:104-122 | `unsigned long` becomes `ulong`; with `int` or `long` behind it, and for `short` and `char`, the name stays |
| `NormalizeLaws.ElaborationGoes` | src/NormalizedSignatureUtils.h:127-137 | `struct `, `class ` and `enum ` in front of a name are dropped |
| `NormalizeLaws.BracketsAreSkipped` | src/NormalizedSignatureUtils.h:157-173 | a bracketed part of a template argument is passed over as a whole: no comma and no angle bracket in it ends or divides the argument |
| `NormalizeLaws.UnclosedArgumentsGo` | src/NormalizedSignatureUtils.h:154-187 | a `<` with no `<`, `>` or `,` behind it loses all the text behind it |
| `NormalizeLaws.BlankBehindConstGoes` | src/NormalizedSignatureUtils.h:192-206 | the blank behind a `const` that follows a star is dropped |
| `SignatureProof.NormalizedSignatureIsRendered` | src/NormalizedSignatureUtils.h:251-285 | for name, parameter types of the grammar, any tail and any legal spacing, the exact signature text; a sole or last plain `void` before `)` is left out |
| `SignatureProof.SignatureIsHomomorphic` | src/NormalizedSignatureUtils.h:251-285 | the normalised signature is the name and the separately normalised parameter texts, joined by commas in parentheses |
| `Levenshtein.LevenshteinDistance` | src/checks/manuallevel/levenshteindistance.h:27-52 | the one-column loop returns the two-dimensional edit distance: below `y` the new column, from `y` up the old one, `last_diagonal` the overwritten cell |
| `Levenshtein.FirstColumn` | src/checks/manuallevel/levenshteindistance.h:36-37 | the initial column is the table's column for the empty second text |
| `Levenshtein.CellStep` | src/checks/manuallevel/levenshteindistance.h:44-45 | the recurrence for a cell from its three neighbours |
| `Levenshtein.DistanceIsOptimal` | src/checks/manuallevel/levenshteindistance.h:27-52 | a script of that many insertions, deletions and substitutions exists and none is shorter |
| `Levenshtein.NoShorterScript` | src/checks/manuallevel/levenshteindistance.h:27-52 | every script, editing anywhere in any order, has at least that many edits |
| `Levenshtein.BestScriptWorks` | src/checks/manuallevel/levenshteindistance.h:27-52 | the script read off the recurrence turns the first text into the second and has exactly that length |
| `Levenshtein.LengthBounds` | src/checks/manuallevel/levenshteindistance.h:27-52 | the distance lies between the difference of the lengths and the larger length |
| `Levenshtein.ZeroOnlyOnEqual` | src/checks/manuallevel/levenshteindistance.h:27-52 | zero if and only if the texts are equal |
| `Levenshtein.Symmetric` | src/checks/manuallevel/levenshteindistance.h:27-52 | symmetric |
| `Levenshtein.Triangle` | src/checks/manuallevel/levenshteindistance.h:27-52 | the triangle inequality for every three texts |
| `MemberCalls.GetChildsIgnoreLambda` | src/checks/level2/virtual-call-ctor.cpp:27-46 | appends `CallsIn` of the statement to the list it is given |
| `MemberCalls.CollectedInOrder` | src/checks/level2/virtual-call-ctor.cpp:27-46 | `CallsIn` is the one list of the calls that paths of child indices lead to without passing a lambda: each path once, in the order of the paths, outer calls before inner ones |
| `MemberCalls.InCallsExactly` | src/checks/level2/virtual-call-ctor.cpp:29-36 | a call is collected if and only if some path through no lambda leads to it |
| `VirtualCalls.Search.ContainsVirtualCall` | src/checks/level2/virtual-call-ctor.cpp:76-112 | over a possibly cyclic call graph it terminates; it finds the first call of the body that starts a chain of own calls to a pure virtual method and does not come back to a body still being searched; without one all new bodies are settled |
| `VirtualCalls.NoChainFromClosed` | src/checks/level2/virtual-call-ctor.cpp:82-87 | a visited body is rightly skipped: from a settled region no chain reaches a pure virtual method |
| `VirtualCalls.VisitDecl` | src/checks/level2/virtual-call-ctor.cpp:49-74 | warns if and only if the constructor or destructor reaches a pure virtual method of its class by some chain, and names a call that begins such a chain, with the message for its kind; a body whose own calls all lie in lambdas gets no warning |
| `VirtualCalls.ReachesExactly` | src/checks/level2/virtual-call-ctor.cpp:76-112 | a body reaches a pure virtual method if and only if some own call of it outside lambdas names one or names a method whose body reaches one |
| `VirtualCalls.DirectCall` | src/checks/level2/virtual-call-ctor.cpp:96-104 | a call as the only statement is found if and only if its object is `this` and the pure virtual method it names is the class's own |
| `VirtualCalls.CallInLambda` | src/checks/level2/virtual-call-ctor.cpp:29-31 | the same call inside a lambda is not found |
| `Glob.CreateRegexFromGlob` | src/SuppressionManager.cpp:25-39 | the loop pushes exactly the anchored, escaped text |
| `Glob.ParseBody` | src/SuppressionManager.cpp:28-36 | the escaped text parses, piece by piece, to what the glob says: no `*` of it ever repeats the character before it |
| `Glob.RegexAcceptsWhatGlobAccepts` | src/SuppressionManager.cpp:25-39 | for every glob and name the expression, parsed and matched as an ERE fragment (section 9.4 of IEEE Std 1003.1), accepts the name if and only if the glob does |
| `Glob.PlainGlob` | src/SuppressionManager.cpp:25-39 | a glob without `*` matches only the name itself, whatever special characters it has |
| `Glob.PrefixGlob` | src/SuppressionManager.cpp:25-39 | a name with a `*` behind it matches exactly the names that start with it |
| `Suppression.SplitDisabledChecksText` | src/SuppressionManager.cpp:53-63 | one expression for each list item that starts with `clazy-`, trimmed at the right; other items are dropped |
| `Suppression.ListSuppresses` | src/SuppressionManager.cpp:53-63 | a list matches a check if and only if one of its `clazy-` items, read as a glob, does |
| `SuppressionManagers.ParseNolint` | src/SuppressionManager.cpp:157-190 | the NOLINT branches, with the stack of begin lines and check lists, refine one step on comment numbers; what a comment is classified as `KindFromText` and the three lemmas below say on its text |
| `NolintTexts.KindFromText` | src/SuppressionManager.cpp:157-178 | a comment says nothing if and only if NOLINT is nowhere in it, opens a range if and only if NOLINTBEGIN is, closes one if and only if NOLINTEND is and NOLINTBEGIN is not |
| `NolintTexts.LineFromText` | src/SuppressionManager.cpp:178-183 | any other comment is for the next line if and only if `NEXTLINE` stands directly behind its first NOLINT, and else for its own; its list is what stands in parentheses directly behind the word |
| `NolintTexts.BeginFromText` | src/SuppressionManager.cpp:165-167 | the list of a comment that opens a range stands in parentheses directly behind the first NOLINTBEGIN |
| `NolintTexts.EndFromText` | src/SuppressionManager.cpp:168-169 | the list of a comment that closes a range stands in parentheses directly behind the first NOLINTEND |
| `NolintTexts.ListFromText` | src/SuppressionManager.cpp:41-51 | the list is the text between a `(` at the place and the next `)`, and empty if one of them is missing |
| `NolintTexts.TrimmedAtEnd` | src/SuppressionManager.cpp:57 | trimming takes the blanks at the end, all of them and nothing else |
| `NextLineExamples.OneComment` | src/SuppressionManager.cpp:67-127 | in a file with one comment, for one line, a first query is answered true if and only if it is for that line and the list is empty or its first `clazy-` item accepts the check |
| `NextLineExamples.NextLineIsSuppressed` | src/SuppressionManager.cpp:157-183 | `NOLINTNEXTLINE` on line n suppresses every check on line n + 1 and none on any other line |
| `NextLineExamples.NextLineWithList` | src/SuppressionManager.cpp:157-188 | `NOLINTNEXTLINE(clazy-a)` on line n suppresses check `a` on line n + 1 and nothing else |
| `SuppressionManagers.InsertAll` | src/SuppressionManager.cpp:185-187 | of several expressions for one line only the first ever inserted stays |
| `SuppressionManagers.ParseClazy` | src/SuppressionManager.cpp:192-222 | the clazy branches fill the file's and the lines' check sets; `clazy:skip` ends the parse |
| `SuppressionManagers.ParseComments` | src/SuppressionManager.cpp:146-223 | the whole comment loop, with its early return, computes `Parsed` |
| `SuppressionRanges.RunIsWellNested` | src/SuppressionManager.cpp:165-176 | after any prefix of any comments: the open begins are in order, every range has one begin and one end comment with equal lists, ranges are nested or disjoint, and inner ones are listed first |
| `SuppressionMatching.MatchedExactly` | src/SuppressionManager.cpp:165-176 | which ranges are found: an end comment is paired with a begin comment if and only if their lists are equal, the begin comment has not been closed before, and all begin comments between them have |
| `SuppressionMatching.NestedAreMatched` | src/SuppressionManager.cpp:165-176 | in properly nested comments with equal lists every begin comment gets its end, inner ones first, whatever is open around them |
| `SuppressionMatching.RangeDecides` | src/SuppressionManager.cpp:117-124 | the range lookup in terms of the comments: the first pair found that covers the line suppresses a check if and only if its list has no `clazy-` item or one that disables the check |
| `SuppressionExamples.RangeForOthersSilencesClazy` | src/SuppressionManager.cpp:119 | a range `NOLINTBEGIN(bugprone-x)` suppresses every clazy check in it |
| `SuppressionRanges.OneRangePerComment` | src/SuppressionManager.cpp:165-176 | no range comment belongs to two ranges |
| `SuppressionRanges.InnermostIsConsulted` | src/SuppressionManager.cpp:117-124 | if no line holds two range comments, the range consulted for a line lies strictly inside every other range covering it |
| `SuppressionManagers.AskRanges` | src/SuppressionManager.cpp:117-124 | the first listed range that covers the line decides, and an empty list in it suppresses everything |
| `SuppressionManagers.Decide` | src/SuppressionManager.cpp:89-126 | the answer and the use of a bare NOLINT, case by case in the order of the code |
| `SuppressionManagers.SuppressionManager.Load` | src/SuppressionManager.cpp:81-87 | each file is parsed once, on its first query; the entry equals the fresh parse minus the bare-NOLINT lines used up |
| `SuppressionManagers.SuppressionManager.IsSuppressed` | src/SuppressionManager.cpp:67-127 | over any sequence of queries each answer is a function of the comments and the earlier queries, and the cache keeps equal to the fresh parse minus the lines used up |
| `SuppressionManagers.SuppressionManager.ParseFile` | src/SuppressionManager.cpp:129-224 | the file's entry becomes its fresh parse, or stays empty without a buffer |
| `SuppressionLines.EntryIsFirst` | src/SuppressionManager.cpp:178-188 | over any run of comments: a line has a list entry if and only if some NOLINT or NOLINTNEXTLINE comment for it lists a `clazy-` item, and the entry is the first such item of the first such comment |
| `SuppressionLines.BareIsFound` | src/SuppressionManager.cpp:182-183 | a line is in the set of bare NOLINT lines if and only if some comment without a list is for it |
| `SuppressionLines.FileExclusionsAreFound` | src/SuppressionManager.cpp:202-211 | a check is excluded from the file if and only if some clazy comment excludes it |
| `SuppressionLines.LineExclusionsAreFound` | src/SuppressionManager.cpp:203-222 | a check is excluded from a line if and only if some clazy comment, there or on the line before, excludes it |
| `SuppressionManagers.LineListDecides` | src/SuppressionManager.cpp:110-115 | a line with a list suppresses a check, clazy comments aside, if and only if the first `clazy-` item of its first list accepts the check; other items, other lists and enclosing ranges have no say |
| `SuppressionManagers.RangesDecide` | src/SuppressionManager.cpp:117-124 | without a list for the line, and clazy comments aside, the list of the consulted pair of begin and end comments decides |
| `SuppressionManagers.AnswerFromComments` | src/SuppressionManager.cpp:67-127 | every answer in terms of the comments and the earlier queries: whole-file comments, a bare NOLINT no earlier query has asked about, exclusions, the line's list, or the list of the begin comment whose range is consulted |
| `SuppressionExamples.SecondItemIsIgnored` | src/SuppressionManager.cpp:185-187 | in `NOLINT(clazy-a,clazy-b)` the second item has no effect, and the NOLINTBEGIN range for all checks around the line has none either |
| `SuppressionExamples.SecondWarningGetsThrough` | src/SuppressionManager.cpp:105-109 | two checks that warn on one line with a bare NOLINT: the first is suppressed, the second is not |
| `SuppressionManagers.ConsumedExactly` | src/SuppressionManager.cpp:105-109 | a bare NOLINT line is used up if and only if an earlier query of that file and line got past the whole-file cases |
| `SuppressionManagers.BareNolintServesOnce` | src/SuppressionManager.cpp:105-109 | a later query for the same line is decided by the check lists alone |
| `SuppressionManagers.OtherFilesDoNotMatter` | src/SuppressionManager.cpp:81-87 | an answer depends only on the earlier queries about the same file |
| `SuppressionLines.SkipIsFound` | src/SuppressionManager.cpp:197-200 | a file is skipped, and its parse ended, if and only if some comment says `clazy:skip` |
| `SuppressionManagers.SkippedFileAlwaysAnswersTrue` | src/SuppressionManager.cpp:89-92 | a file with `clazy:skip` in any of its comments answers true for every check and line, after any queries |
| `TextUtils.SplitString` | src/clazy_stl.h:137-147 | the `getline` loop computes `Split` |
| `TextUtils.SplitJoins` | src/clazy_stl.h:137-147 | no token holds the separator, and joining the tokens gives the text back but for one final separator |
| `TextUtils.JoinedSplits` | src/clazy_stl.h:137-147 | splitting a joined list returns it if and only if the list is empty or its last token is not |
| `CheckSelection.CheckForName` | src/checkmanager.cpp:136-141 | the first check with the name, or the end exactly when there is none |
| `CheckSelection.CheckNameForFixIt` | src/checkmanager.cpp:84-103 | the name of the first registered check that has the fixit |
| `CheckSelection.ChecksForLevel` | src/checkmanager.cpp:206-216 | the checks up to a valid level, none for an invalid one |
| `CheckSelection.RemoveChecksFromList` | src/checkmanager.cpp:232-242 | the elements whose name is not listed remain, in order if the list was sorted |
| `CheckSelection.ChecksForCommaSeparatedString` | src/checkmanager.cpp:250-300 | as sets: everything any token selects minus every name any token disables or the list passed by reference already held, although the loop skips names already listed; that list grows by the names disabled here |
| `CheckSelection.SortAndRemoveDups` | src/clazy_stl.h:158-165 | for any checks: strictly sorted by name, one of the given checks for each name, hence the same elements where names are unique |
| `CheckSelection.SortedIsUnique` | src/checkmanager.cpp:200-203 | a strictly name-sorted list is determined by its set of elements |
| `CheckSelection.TakeArgument` | src/checkmanager.cpp:149-158 | the first occurrence is removed, and only it |
| `CheckSelection.TakeLevel` | src/checkmanager.cpp:164-173 | the lowest level named is taken, one occurrence of it |
| `CheckSelection.CheckManager.RequestedChecksThroughEnv` | src/checkmanager.cpp:119-134 | the environment's selection and its disabled names at every call: neither keeping the lists between calls nor reading the variable again while they are empty changes the answer |
| `CheckSelection.CheckManager.RequestedChecks` | src/checkmanager.cpp:160-204 | at the first and every later call: empty when rejected; otherwise strictly sorted and equal to all selections plus level checks minus all disabled names, the default level used exactly when nothing else was asked for |
| `CheckSelection.TokenOrderIsIrrelevant` | src/checkmanager.cpp:160-300 | arguments with the same set of tokens give the same result, rejection included |
| `SelectionLaws.LevelsAreCumulative` | src/checkmanager.cpp:206-216 | each valid level selects the checks of its own and of every lower level, and so all a lower one does; a number that is no level selects none |
| `SelectionLaws.DefaultSelection` | src/checkmanager.cpp:160-216 | without arguments and environment: the checks of levels 0 and 1 |
| `SelectionLaws.LevelSelection` | src/checkmanager.cpp:160-216 | a level as the argument: the checks up to that level |
| `SelectionLaws.NameSelection` | src/checkmanager.cpp:250-300 | the name of a check: that check alone |
| `SelectionLaws.FixItSelection` | src/checkmanager.cpp:84-103 | the name of a fixit: the first registered check that has it, alone |
| `SelectionLaws.DisablingSelection` | src/checkmanager.cpp:276-285 | `no-` and the name of a check: the default checks without it |
| `SelectionLaws.LevelAndName` | src/checkmanager.cpp:160-204 | a level and the name of a check: the checks of the level and that one |
| `SelectionLaws.AllChecks` | src/checkmanager.cpp:119-134 | `all_checks` in the environment, in quotes or not: every check up to the last level |
| `SelectionLaws.BothLists` | src/checkmanager.cpp:160-204 | a check named by the argument and one named by the environment: these two, without the default level |
| `SelectionLaws.TwoLevels` | src/checkmanager.cpp:160-216 | a registry with a check of level 0 and one of level 2: level 2 runs both, sorted by name, level 0 and the default only the first |
| `NameOrder.LessExactly` | src/checkmanager.h:63-66 | a name comes before another if and only if it is a proper beginning of it or has the smaller character where they first differ |
| `AccessSpecifiers.UpperBound` | src/AccessSpecifierManager.cpp:57-60 | binary search finds the first element that comes after the item |
| `AccessSpecifiers.SortedInsert` | src/AccessSpecifierManager.cpp:55-61 | for any sorted list the item goes in front of the first element it comes before, the list stays sorted and gains exactly the item |
| `AccessSpecifiers.PairOrder` | src/AccessSpecifierManager.cpp:37-61 | into any list: two specifiers may be inserted in either order if and only if they are not different ones both expanded or both written at one place |
| `AccessSpecifiers.OrderIsIrrelevantExactly` | src/AccessSpecifierManager.cpp:55-61 | into any list: all orders of inserting some items end in one list if and only if no two different ones among them are both expanded or both written at one place |
| `AccessSpecifiers.SpecifierBefore` | src/AccessSpecifierManager.cpp:260-275 | the binary search agrees with a linear scan for the last specifier at or before the method |
| `AccessSpecifiers.MarkerFollowsHiddenPublic` | src/AccessSpecifierManager.cpp:39-50 | a Q_SIGNALS marker comes after the `public` it expands to and, as the only one written at its place, governs the methods up to the next specifier |
| `AccessSpecifiers.AccessSpecifierManager.MacroExpands` | src/AccessSpecifierManager.cpp:87-130 | `slots` and `Q_SLOTS` leave a waiting marker for slots, `signals` and `Q_SIGNALS` one for signals; the four single macros are recorded, each in its own list, at the next token; nothing happens inside a macro or for other names |
| `AccessSpecifiers.AccessSpecifierManager.ClassDefinitionForLoc` | src/AccessSpecifierManager.cpp:157-166 | some known class around the place, or none exactly if no known class is around it |
| `AccessSpecifiers.AccessSpecifierManager.FetchMarkers` | src/AccessSpecifierManager.cpp:191-199 | erasing while iterating loses nothing: waiting and listed markers together stay the same, only markers inside the class move, and those left inside it lie in another known class as well |
| `AccessSpecifiers.OnePlaceOnly` | src/AccessSpecifierManager.cpp:111-113 | a marker the preprocessor has seen once is waiting or in the list of one class, once, and nowhere else |
| `AccessSpecifiers.AccessSpecifierManager.AddOwn` | src/AccessSpecifierManager.cpp:203-210 | the list becomes what inserting the class's own specifiers, one after the other, makes of it |
| `AccessSpecifiers.AccessSpecifierManager.VisitDeclaration` | src/AccessSpecifierManager.cpp:168-211 | conservation, for any classes and macros: the class's list and the waiting markers together gain exactly the class's own specifiers, every marker is kept as often as it was seen, other classes are untouched |
| `AccessSpecifiers.AccessSpecifierManager.QtAccessSpecifierType` | src/AccessSpecifierManager.cpp:213-276 | single markers first, signal before slot before invokable, then the section that governs the method, and the early answers of the code |
| `AccessSpecifiers.MarkerGoverns` | src/AccessSpecifierManager.cpp:260-275 | in a sorted list a marker governs the methods behind it up to the next specifier |
| `AccessSpecifiers.AccessSpecifierManager.VisitAndAsk` | src/AccessSpecifierManager.cpp:191-276 | from a waiting marker to the answer: once its class has been visited, a method behind the marker with no specifier between them is of the marker's kind |
| `AccessSpecifiers.AccessSpecifierManager.VisitAndAskBehindOwn` | src/AccessSpecifierManager.cpp:203-276 | a specifier of the class itself ends a section: a method behind it is neither signal nor slot |
| `AccessSpecifiers.AccessSpecifierManager.SectionKind` | src/AccessSpecifierManager.cpp:87-276 | from the macro's name to the answer: behind `slots` or `Q_SLOTS` a method is a slot, behind `signals` or `Q_SIGNALS` a signal, once the class around the macro has been visited |
| `MocTypes.NormalizeType` | src/checks/level0/fully-qualified-moc-types.cpp:34-79 | the loop over `out` and `lastWasSpace` computes `Normalized` |
| `MocTypes.DependsOnTokensOnly` | src/checks/level0/fully-qualified-moc-types.cpp:34-79 | texts with equal token sequences get equal output, for every input |
| `MocTypes.NormalizedTwice` | src/checks/level0/fully-qualified-moc-types.cpp:34-79 | applying it again changes nothing if and only if the written type does not end in two `*` tokens |
| `MocTypes.SecondStar` | src/checks/level0/fully-qualified-moc-types.cpp:73-76 | the output ends in `*` if and only if the written type ends in two of them |
| `MocTypes.TwoStarsAreLostOneByOne` | src/checks/level0/fully-qualified-moc-types.cpp:73-76 | `A**` becomes `A*`, and that becomes `A` |
| `MocTypes.RenderedIsRead` | src/checks/level0/fully-qualified-moc-types.cpp:47-70 | the spaced text has the tokens it was made of |
| `MocLayout.NormalFormIsLaidOut` | src/checks/level0/fully-qualified-moc-types.cpp:34-79 | for every text: its tokens with one space between two words and one behind a comma not followed by `,`, `<` or `>`, no other blank, and without a final `*` |
| `Inheritance.DerivesFrom` | src/TypeUtils.cpp:152-175 | true if and only if the base is a strict ancestor; the list gains a real inheritance path from the base to a direct base of the class, and nothing on failure |
| `Inheritance.NamedAncestor` | src/TypeUtils.cpp:177-194 | by name: true if and only if a chain of defined classes leads from the class, itself included, to one with the name |
| `ContextNames.ContextsForDecl` | src/ContextUtils.cpp:23-33 | the scope and all scopes around it, innermost first |
| `ContextNames.GetMostNeededQualifiedName` | src/ContextUtils.cpp:53-112 | erasing in place and prepending names computes the qualifier of the scopes kept; without a scope the full name |
| `ContextNames.EraseEachKeeps` | src/ContextUtils.cpp:89-103 | for any visible scopes, erasing one by one keeps exactly the class and the scopes that are not visible, in order, where another opening of a visible namespace is visible |
| `ContextNames.KeptScopes` | src/ContextUtils.cpp:64-103 | without using directives: the class and the scopes around it below the first one that also encloses the place of use, in the same opening or another |
| `ContextNames.NeverStartsGlobal` | src/ContextUtils.cpp:105-111 | the result starts with `::` if and only if the outermost scope kept has no name |
| `ContextNames.StartsGlobalExactly` | src/ContextUtils.cpp:89-111 | the result starts with `::` if and only if the outermost scope around the class that does not enclose the place of use, in whatever opening, has no name |
| `ContextNames.UnnamedNamespaceStartsGlobal` | src/ContextUtils.cpp:105-111 | a method of a class in an unnamed namespace, used outside it, is written `::A::f` |
| `ContextNames.ReopenedNamespaceIsVisible` | src/ContextUtils.cpp:95-97 | a method of a class in one opening of an unnamed namespace, used in another, is written `A::f` |
| `ContextNames.NotGlobal` | src/ContextUtils.cpp:53-112 | in one tree of named scopes, with namespaces opened as often as one likes, the result never starts with `::` |
| `ContextExamples.NominatedExactly` | src/ContextUtils.cpp:79-87 | a namespace counts as visible through directives if and only if one that stands before the use names it |
| `ContextExamples.AllScopesNamed` | src/ContextUtils.cpp:105-111 | outside them all, methods of a class in a namespace and of a class local to its method are written `N::A::` and `N::A::g::L::` |
| `ContextExamples.DirectiveBeforeUse` | src/ContextUtils.cpp:79-103 | a directive for `N` makes it `A::`, but only if it stands before the use |
| `Emission.CheckBase.EmitWarning` | src/checkbase.cpp:229-261 | the whole new state after a call, whether it was filtered, repeated inside a macro, or went out; `WarningsAreReported` and `ReportsGrow` say on the calls alone what comes of it |
| `Emission.CheckBase.FlushQueue` | src/checkbase.cpp:251-260 | every queued message is reported once, in order, and the queue is empty |
| `Emission.CheckBase.QueueManualFixitWarning` | src/checkbase.cpp:278-284 | queued and remembered unless the place is known already |
| `Emission.CheckBase.AlreadyKnown` | src/checkbase.cpp:286-312 | some remembered place has the same valid presumed location |
| `Emission.RunKeepsInvariant` | src/checkbase.cpp:224-312 | after any run the remembered places are those of the direct macro warnings and of the promised manual messages, each list free of repetitions |
| `Emission.MacroWarningsAreOnce` | src/checkbase.cpp:243-248 | in no run do two direct warnings at macro locations share a valid presumed place |
| `Emission.MessagesAreConserved` | src/checkbase.cpp:251-284 | in any run the manual messages reported so far and those still queued are, in order and each once, the accepted ones, no two at one valid presumed place |
| `Emission.EveryRequestIsServed` | src/checkbase.cpp:278-284 | a queueing call at a valid place is accepted unless an accepted one has that place already |
| `Emission.WarningsAreReported` | src/checkbase.cpp:224-249 | in any run the direct reports are, in order, those of the unfiltered warnings that lie outside macros or at no place of an earlier unfiltered macro warning, each with its own place and text, and the tag if asked for |
| `Emission.ReportsGrow` | src/checkbase.cpp:224-261 | one call: a warning that comes through is reported, directly behind it all accepted messages not reported before, and nothing else adds a report |
| `Emission.EmissionFlushes` | src/checkbase.cpp:229-261 | after an emission the queue is empty if and only if the warning went out or nothing was queued, and then every accepted message has been reported |
| `Emission.RepeatedWarningFlushesNothing` | src/checkbase.cpp:243-260 | a warning inside a macro, a message queued after it, and the same warning again leave the message queued |

## Left out

- The `fixScope` branch of `normalizeTypeInternal`: every call passes false.
- More than one `const` at one level other than behind stars, `volatile`, arrays, function types, empty argument lists and names that start with `::` in `TypeGrammar`; arbitrary text is covered by `NormalizeType` and `Signature` only.
- Null pointers given to `normalizedType` and `normalizedSignature`, which return an empty text.
- Character pointers are offsets into a text, and the growing `std::string` results are values; only the buffer of `qRemoveWhitespace` and the edit-distance column are arrays. Strings and counters are not limited to the width of `int`, and characters are not signed bytes.
- Clang's lexer, source manager, preprocessor and syntax tree: comments, call graphs, scopes, classes and locations are inputs.
- A call whose begin location is invalid, which `containsVirtualCall` would report as nothing found.
- The depth limit of `getChildsIgnoreLambda`, which no caller sets.
- The `std::regex` captures of `clazy:exclude` comments: a comment comes with the directive found in it. Invalid locations and macro expansion in `isSuppressed` are reduced to an optional file and an optional line.
- A change of the environment variable between two calls of `requestedChecks`. That check names are unique and not empty is assumed of the registry.
- `std::sort` and `std::unique` inside `sort_and_remove_dups`: sorting is by insertion.
- A raw location in `AccessSpecifiers` is an offset plus the fact of being in a macro.
- AccessSpecifiers.AccessSpecifierManager.ClassDefinitionForLoc: does not say which of several overlapping classes is found, because that is the iteration order of a hash map.
- Inheritance.DerivesFrom: does not model cyclic hierarchies, which C++ excludes, and takes declarations to be canonical.
- Using directives in `ContextNames` beyond the order in which their namespaces are erased; `KeptScopes` and `NotGlobal` speak of none. All openings of a namespace are taken to lie in openings of one scope (`Reopens`).
- `firstLocationOfSection`, `isScriptable` and the QT_NAMESPACE macro in `AccessSpecifierManager`: one branch each.
- Severity, fixits and the output format of warnings; the suppression and filter verdicts enter `Emission` as one flag.
- YAML export, JSON line filters, command line and help text, `getStatements`, and the per-check pattern matching on the syntax tree.
