/** Which checks run: command-line arguments, the environment, and levels. */
module CheckSelection {
  import opened Options
  import opened TextUtils
  import opened NameOrder

  const LEVEL_UNDEFINED := -1
  const MAX_LEVEL := 2
  const DEFAULT_LEVEL := 1

  datatype RegisteredCheck = RegisteredCheck(name: string, level: int)

  /** The registered checks, and the names of the fixits each of them has. */
  datatype Registry = Registry(checks: seq<RegisteredCheck>, fixits: map<string, seq<string>>) {
    /** No two checks share a name, none is nameless. */
    ghost predicate Valid() {
      && (forall i, j :: 0 <= i < j < |checks| ==> checks[i].name != checks[j].name)
      && (forall i :: 0 <= i < |checks| ==> checks[i].name != "")
    }
  }

  function Elements(checks: seq<RegisteredCheck>): set<RegisteredCheck> {
    set c | c in checks
  }

  // ----- looking names up -----

  predicate Named(checks: seq<RegisteredCheck>, name: string) {
    exists i :: 0 <= i < |checks| && checks[i].name == name
  }

  /** `checkForName`: the first check with the name, or the end. */
  method CheckForName(checks: seq<RegisteredCheck>, name: string) returns (i: nat)
    ensures i <= |checks| && (i < |checks| <==> Named(checks, name))
    ensures i < |checks| ==> checks[i].name == name
    ensures forall j :: 0 <= j < i ==> checks[j].name != name
  {
    i := 0;
    while i < |checks| && checks[i].name != name
      invariant 0 <= i <= |checks| && forall j :: 0 <= j < i ==> checks[j].name != name
    {
      i := i + 1;
    }
  }

  predicate HasFixIt(reg: Registry, check: string, fixit: string) {
    check in reg.fixits && fixit in reg.fixits[check]
  }

  /** The name of the first check in `checks` that has the fixit, or no name. */
  function FixItOwner(reg: Registry, checks: seq<RegisteredCheck>, fixit: string): (name: string)
    ensures name != "" ==> Named(checks, name)
  {
    if checks == [] then ""
    else if HasFixIt(reg, checks[0].name, fixit) then checks[0].name
    else
      var name := FixItOwner(reg, checks[1..], fixit);
      assert name != "" ==>
        exists i :: 0 <= i < |checks[1..]| && checks[1..][i].name == name && checks[i + 1].name == name;
      name
  }

  /** `checkNameForFixIt` */
  method CheckNameForFixIt(reg: Registry, fixit: string) returns (name: string)
    ensures name == if fixit == "" then "" else FixItOwner(reg, reg.checks, fixit)
  {
    if fixit == "" {
      return "";
    }
    for k := 0 to |reg.checks|
      invariant FixItOwner(reg, reg.checks, fixit) == FixItOwner(reg, reg.checks[k..], fixit)
    {
      assert reg.checks[k..][1..] == reg.checks[k + 1..];
      if reg.checks[k].name in reg.fixits {
        if fixit in reg.fixits[reg.checks[k].name] {
          return reg.checks[k].name;
        }
      }
    }
    return "";
  }

  // ----- what one token of a list means -----

  function LevelChecks(reg: Registry, level: int): set<RegisteredCheck> {
    if LEVEL_UNDEFINED < level <= MAX_LEVEL then set c | c in reg.checks && c.level <= level else {}
  }

  /** A name, a fixit's name, or `level0` to `level2`. */
  function SelectedBy(reg: Registry, token: string): set<RegisteredCheck> {
    if Named(reg.checks, token) then set c | c in reg.checks && c.name == token
    else
      var owner := if token == "" then "" else FixItOwner(reg, reg.checks, token);
      if owner != "" then set c | c in reg.checks && c.name == owner
      else if "level" <= token && |token| == 6 then LevelChecks(reg, token[5] as int - '0' as int)
      else {}
  }

  /** `no-` and the name of a check, unless the token itself selects something. */
  function DisabledBy(reg: Registry, token: string): set<string> {
    if Named(reg.checks, token) || (token != "" && FixItOwner(reg, reg.checks, token) != "")
       || ("level" <= token && |token| == 6) then {}
    else if "no-" <= token && Named(reg.checks, token[3..]) then {token[3..]}
    else {}
  }

  function Selected(reg: Registry, tokens: seq<string>): set<RegisteredCheck> {
    set t, c | t in tokens && c in SelectedBy(reg, t) :: c
  }

  function Disabled(reg: Registry, tokens: seq<string>): set<string> {
    set t, n | t in tokens && n in DisabledBy(reg, t) :: n
  }

  function Without(checks: set<RegisteredCheck>, names: set<string>): set<RegisteredCheck> {
    set c | c in checks && c.name !in names
  }

  function SetOf(names: seq<string>): set<string> {
    set n | n in names
  }

  /** `removeChecksFromList` */
  method RemoveChecksFromList(list: seq<RegisteredCheck>, checkNames: seq<string>) returns (r: seq<RegisteredCheck>)
    ensures Elements(r) == Without(Elements(list), SetOf(checkNames))
    ensures StrictlySorted(list) ==> StrictlySorted(r)
  {
    r := list;
    for k := 0 to |checkNames|
      invariant Elements(r) == Without(Elements(list), SetOf(checkNames[..k]))
      invariant StrictlySorted(list) ==> StrictlySorted(r)
    {
      ghost var before := r;
      r := Erase(r, checkNames[k]);
      assert checkNames[..k + 1] == checkNames[..k] + [checkNames[k]];
      assert forall n :: n in SetOf(checkNames[..k + 1]) <==> n in SetOf(checkNames[..k]) || n == checkNames[k];
      assert forall c :: c in Elements(r) <==> c in Elements(before) && c.name != checkNames[k];
    }
    assert checkNames[..|checkNames|] == checkNames;
  }

  predicate StrictlySorted(list: seq<RegisteredCheck>) {
    forall i, j :: 0 <= i < j < |list| ==> Less(list[i].name, list[j].name)
  }

  /** `erase(remove_if(...))` */
  method Erase(list: seq<RegisteredCheck>, name: string) returns (r: seq<RegisteredCheck>)
    ensures forall c :: c in r <==> c in list && c.name != name
    ensures StrictlySorted(list) ==> StrictlySorted(r)
  {
    r := [];
    ghost var from: seq<nat> := [];
    for k := 0 to |list|
      invariant forall c :: c in r <==> c in list[..k] && c.name != name
      invariant |from| == |r| && forall i :: 0 <= i < |r| ==> from[i] < k && r[i] == list[from[i]]
      invariant forall i, j :: 0 <= i < j < |r| ==> from[i] < from[j]
    {
      assert list[..k + 1] == list[..k] + [list[k]];
      if list[k].name != name {
        r := r + [list[k]];
        from := from + [k];
      }
    }
    assert list[..|list|] == list;
  }

  // ----- a comma-separated list -----

  /** The checks a token adds, and the name it disables, in the order of the code's tests. */
  method Interpret(reg: Registry, name: string) returns (added: seq<RegisteredCheck>, disabled: seq<string>)
    requires reg.Valid()
    ensures Elements(added) == SelectedBy(reg, name) && SetOf(disabled) == DisabledBy(reg, name)
  {
    added, disabled := [], [];
    var it := CheckForName(reg.checks, name);
    if it == |reg.checks| {
      var checkName := CheckNameForFixIt(reg, name);
      var owner := CheckForName(reg.checks, checkName);
      if owner == |reg.checks| {
        assert checkName == "" by { NamelessOrKnown(reg, name, checkName); }
        if "level" <= name && |name| == 6 {
          var digit := name[5] as int - '0' as int;
          if digit > LEVEL_UNDEFINED && digit <= MAX_LEVEL {
            added := ChecksForLevel(reg, digit);
          }
        } else if "no-" <= name {
          var exists_ := CheckForName(reg.checks, name[3..]);
          if exists_ < |reg.checks| {
            disabled := [name[3..]];
          }
        }
      } else {
        added := [reg.checks[owner]];
        OnlyOneNamed(reg, owner);
        assert checkName != "";
      }
    } else {
      added := [reg.checks[it]];
      OnlyOneNamed(reg, it);
    }
  }

  lemma NamelessOrKnown(reg: Registry, fixit: string, name: string)
    requires name == if fixit == "" then "" else FixItOwner(reg, reg.checks, fixit)
    requires !Named(reg.checks, name)
    ensures name == ""
  {
  }

  lemma OnlyOneNamed(reg: Registry, i: nat)
    requires reg.Valid() && i < |reg.checks|
    ensures (set c | c in reg.checks && c.name == reg.checks[i].name) == {reg.checks[i]}
  {
    forall c | c in reg.checks && c.name == reg.checks[i].name ensures c == reg.checks[i] {
      var j :| 0 <= j < |reg.checks| && reg.checks[j] == c;
    }
  }

  /** `checksForLevel` */
  method ChecksForLevel(reg: Registry, level: int) returns (result: seq<RegisteredCheck>)
    ensures Elements(result) == LevelChecks(reg, level)
  {
    result := [];
    if level > LEVEL_UNDEFINED && level <= MAX_LEVEL {
      for k := 0 to |reg.checks|
        invariant forall c :: c in result <==> c in reg.checks[..k] && c.level <= level
      {
        assert reg.checks[..k + 1] == reg.checks[..k] + [reg.checks[k]];
        if reg.checks[k].level <= level {
          result := result + [reg.checks[k]];
        }
      }
      assert reg.checks[..|reg.checks|] == reg.checks;
    }
  }

  /** A token that names a check already listed adds nothing new. */
  lemma AlreadyListed(reg: Registry, result: seq<RegisteredCheck>, name: string)
    requires reg.Valid() && Elements(result) <= Elements(reg.checks) && Named(result, name)
    ensures SelectedBy(reg, name) <= Elements(result) && DisabledBy(reg, name) == {}
  {
    var i :| 0 <= i < |result| && result[i].name == name;
    assert result[i] in Elements(result) && result[i] in reg.checks;
    var j :| 0 <= j < |reg.checks| && reg.checks[j] == result[i];
    OnlyOneNamed(reg, j);
  }

  lemma OneMoreToken(reg: Registry, tokens: seq<string>, k: nat)
    requires k < |tokens|
    ensures Selected(reg, tokens[..k + 1]) == Selected(reg, tokens[..k]) + SelectedBy(reg, tokens[k])
    ensures Disabled(reg, tokens[..k + 1]) == Disabled(reg, tokens[..k]) + DisabledBy(reg, tokens[k])
  {
    hide SelectedBy, DisabledBy;
    assert tokens[..k + 1] == tokens[..k] + [tokens[k]];
  }

  lemma SelectedAreRegistered(reg: Registry, token: string)
    ensures SelectedBy(reg, token) <= Elements(reg.checks)
  {
  }

  /**
   * `checksForCommaSeparatedString`: the names to disable are appended to the list passed by reference, and all
   * names on it are left out of the result, those it held before included.
   */
  method ChecksForCommaSeparatedString(reg: Registry, str: string, userDisabled: seq<string>)
    returns (result: seq<RegisteredCheck>, userDisabled': seq<string>)
    requires reg.Valid()
    ensures userDisabled <= userDisabled'
    ensures SetOf(userDisabled') == SetOf(userDisabled) + Disabled(reg, Split(str, ','))
    ensures Elements(result) ==
      Without(Selected(reg, Split(str, ',')), SetOf(userDisabled) + Disabled(reg, Split(str, ',')))
  {
    hide SelectedBy, DisabledBy, Selected, Disabled, Split;
    var checkNames := SplitString(str, ',');
    result, userDisabled' := [], userDisabled;
    NoTokens(reg);
    assert checkNames[..0] == [];
    for k := 0 to |checkNames|
      invariant Elements(result) == Selected(reg, checkNames[..k])
      invariant userDisabled <= userDisabled'
      invariant SetOf(userDisabled') == SetOf(userDisabled) + Disabled(reg, checkNames[..k])
      invariant Elements(result) <= Elements(reg.checks)
    {
      var name := checkNames[k];
      OneMoreToken(reg, checkNames, k);
      SelectedAreRegistered(reg, name);
      var listed := CheckForName(result, name);
      if listed < |result| {
        AlreadyListed(reg, result, name);
      } else {
        var added, disabled := Interpret(reg, name);
        ElementsAppend(result, added);
        NamesAppend(userDisabled', disabled);
        result := result + added;
        userDisabled' := userDisabled' + disabled;
      }
    }
    assert checkNames[..|checkNames|] == checkNames;
    result := RemoveChecksFromList(result, userDisabled');
  }

  lemma NoTokens(reg: Registry)
    ensures Selected(reg, []) == {} && Disabled(reg, []) == {}
  {
  }

  lemma ElementsAppend(a: seq<RegisteredCheck>, b: seq<RegisteredCheck>)
    ensures Elements(a + b) == Elements(a) + Elements(b)
  {
  }

  lemma NamesAppend(a: seq<string>, b: seq<string>)
    ensures SetOf(a + b) == SetOf(a) + SetOf(b)
  {
  }

  // ----- sorting -----

  function Names(checks: seq<RegisteredCheck>): set<string> {
    set c | c in checks :: c.name
  }

  /** Checks of one name are the same check. */
  ghost predicate OnePerName(checks: seq<RegisteredCheck>) {
    forall a, b :: a in checks && b in checks && a.name == b.name ==> a == b
  }

  /**
   * `sort_and_remove_dups`: sorted by name, with one of the checks of each name, so with all of them if there is but
   * one of each.
   */
  method SortAndRemoveDups(c: seq<RegisteredCheck>) returns (r: seq<RegisteredCheck>)
    ensures StrictlySorted(r) && Elements(r) <= Elements(c) && Names(r) == Names(c)
    ensures OnePerName(c) ==> Elements(r) == Elements(c)
  {
    hide StrictlySorted;
    r := [];
    assert StrictlySorted(r) by { NothingToSort(); }
    for k := 0 to |c|
      invariant StrictlySorted(r) && Elements(r) <= Elements(c[..k]) && Names(r) == Names(c[..k])
    {
      assert c[..k + 1] == c[..k] + [c[k]];
      ElementsAppend(c[..k], [c[k]]);
      NamesStep(c[..k], c[k]);
      r := InsertSorted(r, c[k]);
    }
    assert c[..|c|] == c;
    AllOfEachName(r, c);
  }

  lemma NothingToSort()
    ensures StrictlySorted([])
  {
  }

  lemma NamesStep(checks: seq<RegisteredCheck>, x: RegisteredCheck)
    ensures Names(checks + [x]) == Names(checks) + {x.name} && Elements(checks + [x]) == Elements(checks) + {x}
  {
  }

  lemma AllOfEachName(r: seq<RegisteredCheck>, c: seq<RegisteredCheck>)
    requires Elements(r) <= Elements(c) && Names(r) == Names(c)
    ensures OnePerName(c) ==> Elements(r) == Elements(c)
  {
    if OnePerName(c) {
      forall x | x in Elements(c) ensures x in Elements(r) {
        assert x.name in Names(r);
        var y :| y in r && y.name == x.name;
        assert y in Elements(r);
      }
    }
  }

  /** One element at its place, unless one of its name is there already. */
  method InsertSorted(s: seq<RegisteredCheck>, x: RegisteredCheck) returns (r: seq<RegisteredCheck>)
    requires StrictlySorted(s)
    ensures StrictlySorted(r) && Elements(r) <= Elements(s) + {x} && Names(r) == Names(s) + {x.name}
  {
    hide Less;
    var i := 0;
    while i < |s| && Less(s[i].name, x.name)
      invariant 0 <= i <= |s| && forall j :: 0 <= j < i ==> Less(s[j].name, x.name)
    {
      i := i + 1;
    }
    if i < |s| && s[i].name == x.name {
      assert s[i] in s;
      return s;
    }
    InsertedInOrder(s, i, x);
    r := s[..i] + [x] + s[i..];
  }

  lemma InsertedInOrder(s: seq<RegisteredCheck>, i: nat, x: RegisteredCheck)
    requires StrictlySorted(s) && i <= |s|
    requires forall j :: 0 <= j < i ==> Less(s[j].name, x.name)
    requires i < |s| ==> !Less(s[i].name, x.name) && s[i].name != x.name
    ensures var r := s[..i] + [x] + s[i..];
      StrictlySorted(r) && Elements(r) <= Elements(s) + {x} && Names(r) == Names(s) + {x.name}
  {
    hide Less;
    var r := s[..i] + [x] + s[i..];
    if i < |s| {
      Trichotomy(s[i].name, x.name);
    }
    forall j | i < j < |s| ensures Less(x.name, s[j].name) {
      Transitive(x.name, s[i].name, s[j].name);
    }
    assert s == s[..i] + s[i..];
    assert forall c :: c in r <==> c in s || c == x;
  }

  /** A strictly sorted list is determined by its elements. */
  lemma {:induction false} SortedIsUnique(a: seq<RegisteredCheck>, b: seq<RegisteredCheck>)
    requires StrictlySorted(a) && StrictlySorted(b) && Elements(a) == Elements(b)
    ensures a == b
    decreases |a|
  {
    EmptyElements(a);
    EmptyElements(b);
    if a != [] {
      assert a[0] in Elements(b);
      var i :| 0 <= i < |b| && b[i] == a[0];
      assert b[0] in Elements(a);
      var j :| 0 <= j < |a| && a[j] == b[0];
      Trichotomy(a[0].name, b[0].name);
      assert a[0] == b[0];
      TailElements(a);
      TailElements(b);
      SortedIsUnique(a[1..], b[1..]);
      assert a == [a[0]] + a[1..] && b == [b[0]] + b[1..];
    }
  }

  lemma EmptyElements(a: seq<RegisteredCheck>)
    ensures Elements(a) == {} <==> a == []
  {
    if a != [] {
      assert a[0] in Elements(a);
    }
  }

  lemma TailElements(a: seq<RegisteredCheck>)
    requires a != [] && StrictlySorted(a)
    ensures StrictlySorted(a[1..]) && Elements(a[1..]) == Elements(a) - {a[0]}
  {
    forall k | 1 <= k < |a| ensures a[k] != a[0] {
      Trichotomy(a[0].name, a[k].name);
    }
    assert a == [a[0]] + a[1..];
  }

  // ----- the whole selection -----

  /** `unquoteString` */
  function Unquoted(str: string): string {
    if |str| >= 3 && str[0] == '"' && str[|str| - 1] == '"' then str[1..|str| - 1] else str
  }

  /** The first of the three levels that is an argument, in the order of the levels. */
  function LevelOf(args: seq<string>): int {
    if "level0" in args then 0 else if "level1" in args then 1 else if "level2" in args then 2 else LEVEL_UNDEFINED
  }

  function LevelName(level: int): string {
    if level == 0 then "level0" else if level == 1 then "level1" else "level2"
  }

  /** The arguments without the first one equal to `arg`. */
  function Take(arg: string, args: seq<string>): seq<string> {
    if args == [] then [] else if args[0] == arg then args[1..] else [args[0]] + Take(arg, args[1..])
  }

  function RestOf(args: seq<string>): seq<string> {
    if LevelOf(args) == LEVEL_UNDEFINED then args else Take(LevelName(LevelOf(args)), args)
  }

  /** The tokens of the one argument that may be left. */
  function ArgTokens(rest: seq<string>): seq<string> {
    if rest == [] then [] else Split(rest[0], ',')
  }

  function EnvTokens(env: Option<string>): seq<string> {
    if env.None? || Unquoted(env.value) == "all_checks" then [] else Split(Unquoted(env.value), ',')
  }

  /** All checks up to the last level, if the environment asks for them. */
  function EnvAll(reg: Registry, env: Option<string>): set<RegisteredCheck> {
    if env.Some? && Unquoted(env.value) == "all_checks" then LevelChecks(reg, MAX_LEVEL) else {}
  }

  /** Too many arguments, or a list that names no check to run and none to leave out. */
  predicate Rejected(reg: Registry, args: seq<string>) {
    var rest := RestOf(args);
    |rest| > 1 ||
    (|rest| == 1 && Without(Selected(reg, ArgTokens(rest)), Disabled(reg, ArgTokens(rest))) == {}
      && Disabled(reg, ArgTokens(rest)) == {})
  }

  /** What the lists ask for, each without the names it disables itself. */
  function Asked(reg: Registry, args: seq<string>, env: Option<string>): set<RegisteredCheck> {
    var a, e := ArgTokens(RestOf(args)), EnvTokens(env);
    Without(Selected(reg, a), Disabled(reg, a)) + (EnvAll(reg, env) + Without(Selected(reg, e), Disabled(reg, e)))
  }

  /** The requested level, or the default one if nothing else is asked for. */
  function EffectiveLevel(reg: Registry, args: seq<string>, env: Option<string>): int {
    if LevelOf(args) == LEVEL_UNDEFINED && Asked(reg, args, env) == {} then DEFAULT_LEVEL else LevelOf(args)
  }

  /** Everything selected anywhere, minus every name disabled anywhere. */
  function Wanted(reg: Registry, args: seq<string>, env: Option<string>): set<RegisteredCheck> {
    var a, e := ArgTokens(RestOf(args)), EnvTokens(env);
    Without(Selected(reg, a) + EnvAll(reg, env) + Selected(reg, e) + LevelChecks(reg, EffectiveLevel(reg, args, env)),
            Disabled(reg, a) + Disabled(reg, e))
  }

  /** `result` is what `requestedChecks` returns. */
  ghost predicate IsRequested(reg: Registry, args: seq<string>, env: Option<string>, result: seq<RegisteredCheck>) {
    if Rejected(reg, args) then result == []
    else StrictlySorted(result) && Elements(result) == Wanted(reg, args, env)
  }

  lemma {:induction false} TakeAt(arg: string, args: seq<string>, k: nat)
    requires k <= |args| && arg !in args[..k] && (k < |args| ==> args[k] == arg)
    ensures Take(arg, args) == if k < |args| then args[..k] + args[k + 1..] else args
    decreases k
  {
    if k > 0 {
      var rest := args[1..];
      assert args[0] == args[..k][0];
      assert rest[..k - 1] == args[..k][1..];
      TakeAt(arg, rest, k - 1);
      assert Take(arg, args) == [args[0]] + Take(arg, rest);
      hide Take;
      assert args == [args[0]] + rest;
      if k < |args| {
        assert [args[0]] + (rest[..k - 1] + rest[k..]) == args[..k] + args[k + 1..];
      }
    }
  }

  /** `takeArgument` */
  method TakeArgument(arg: string, args: seq<string>) returns (taken: bool, rest: seq<string>)
    ensures taken == (arg in args) && rest == Take(arg, args)
  {
    var k := 0;
    while k < |args| && args[k] != arg
      invariant 0 <= k <= |args| && forall j :: 0 <= j < k ==> args[j] != arg
    {
      k := k + 1;
    }
    TakeAt(arg, args, k);
    taken := k < |args|;
    rest := if taken then args[..k] + args[k + 1..] else args;
  }

  /** The level loop of `requestedChecks`. */
  method TakeLevel(args: seq<string>) returns (level: int, rest: seq<string>)
    ensures level == LevelOf(args) && rest == RestOf(args)
  {
    rest := args;
    for i := 0 to 3
      invariant rest == args && forall j :: 0 <= j < i ==> LevelName(j) !in args
    {
      var taken, left := TakeArgument(LevelName(i), rest);
      if taken {
        assert forall j :: 0 <= j < i ==> LevelName(j) !in args;
        assert i > 0 ==> LevelName(0) == "level0";
        assert i > 1 ==> LevelName(1) == "level1";
        return i, left;
      }
    }
    assert LevelName(0) !in args && LevelName(1) !in args && LevelName(2) !in args;
    level := LEVEL_UNDEFINED;
  }

  /** The checks the environment asks for, without the names it disables itself. */
  function EnvSelection(reg: Registry, env: Option<string>): set<RegisteredCheck> {
    EnvAll(reg, env) + Without(Selected(reg, EnvTokens(env)), Disabled(reg, EnvTokens(env)))
  }

  /** Leaving out disabled names list by list first makes no difference in the end. */
  lemma DisabledAnyway(reg: Registry, args: seq<string>, env: Option<string>)
    ensures
      var a, e := ArgTokens(RestOf(args)), EnvTokens(env);
      var level := LevelChecks(reg, EffectiveLevel(reg, args, env));
      Without(Asked(reg, args, env) + level, Disabled(reg, a) + Disabled(reg, e)) == Wanted(reg, args, env)
  {
    hide Selected, Disabled, LevelChecks, EffectiveLevel, RestOf, ArgTokens, EnvTokens, EnvAll;
  }

  /** The checks, the environment variable, and the two lists kept between calls. */
  class CheckManager {
    const reg: Registry
    const env: Option<string>
    var envChecks: seq<RegisteredCheck>
    var envDisabled: seq<string>

    /** The lists are as they start, or as a first reading of the environment leaves them. */
    ghost predicate Valid()
      reads this
    {
      reg.Valid() &&
      ((envChecks == [] && envDisabled == []) ||
       (Elements(envChecks) == EnvSelection(reg, env) && SetOf(envDisabled) == Disabled(reg, EnvTokens(env))))
    }

    constructor (reg: Registry, env: Option<string>)
      requires reg.Valid()
      ensures Valid() && this.reg == reg && this.env == env
    {
      this.reg := reg;
      this.env := env;
      envChecks, envDisabled := [], [];
    }

    /**
     * `requestedChecksThroughEnv`: the environment is read again while it has asked for no check, and the names it
     * disables are then appended again, which changes nothing.
     */
    method RequestedChecksThroughEnv(userDisabled: seq<string>)
      returns (result: seq<RegisteredCheck>, userDisabled': seq<string>)
      requires Valid()
      modifies this
      ensures Valid() && Elements(result) == EnvSelection(reg, env)
      ensures SetOf(userDisabled') == SetOf(userDisabled) + Disabled(reg, EnvTokens(env))
    {
      hide Selected, Disabled;
      NoTokens(reg);
      if envChecks == [] {
        EmptyElements(envChecks);
        if env.Some? {
          var str := Unquoted(env.value);
          if str == "all_checks" {
            envChecks := ChecksForLevel(reg, MAX_LEVEL);
          } else {
            envChecks, envDisabled := ChecksForCommaSeparatedString(reg, str, envDisabled);
          }
        }
      }
      NamesAppend(userDisabled, envDisabled);
      userDisabled' := userDisabled + envDisabled;
      result := envChecks;
    }

    /** The comma-separated argument, if there is one. */
    method RequestedThroughArgument(rest: seq<string>) returns (result: seq<RegisteredCheck>, disabled: seq<string>)
      requires reg.Valid() && |rest| <= 1
      ensures SetOf(disabled) == Disabled(reg, ArgTokens(rest))
      ensures Elements(result) == Without(Selected(reg, ArgTokens(rest)), Disabled(reg, ArgTokens(rest)))
    {
      hide Selected, Disabled;
      result, disabled := [], [];
      NoTokens(reg);
      if |rest| == 1 {
        result, disabled := ChecksForCommaSeparatedString(reg, rest[0], []);
      }
    }

    /** `requestedChecks`: every call gives the same answer to the same arguments, the first and any later one. */
    method RequestedChecks(args: seq<string>) returns (result: seq<RegisteredCheck>, args': seq<string>)
      requires Valid()
      modifies this
      ensures Valid() && args' == RestOf(args)
      ensures IsRequested(reg, args, env, result)
    {
      hide Selected, Disabled, LevelOf, RestOf, ArgTokens, EnvTokens, EnvAll, Without, Wanted, LevelChecks,
        StrictlySorted;
      hide Elements, SetOf, OnePerName, Names;
      result := [];
      var level, rest := TakeLevel(args);
      args' := rest;
      if |rest| > 1 {
        return;
      }
      var userDisabled;
      result, userDisabled := RequestedThroughArgument(rest);
      EmptyElements(result);
      EmptyNames(userDisabled);
      if |rest| == 1 && result == [] && userDisabled == [] {
        return;
      }
      var fromEnv;
      fromEnv, userDisabled := RequestedChecksThroughEnv(userDisabled);
      ElementsAppend(result, fromEnv);
      result := result + fromEnv;
      EmptyElements(result);
      assert Elements(result) == Asked(reg, args, env);
      if result == [] && level == LEVEL_UNDEFINED {
        level := DEFAULT_LEVEL;
      }
      assert level == EffectiveLevel(reg, args, env);
      var fromLevel := ChecksForLevel(reg, level);
      ElementsAppend(result, fromLevel);
      result := result + fromLevel;
      AllRegistered(reg, args, env, level);
      OneCheckPerName(reg, result);
      result := SortAndRemoveDups(result);
      result := RemoveChecksFromList(result, userDisabled);
      DisabledAnyway(reg, args, env);
    }
  }

  lemma EmptyNames(names: seq<string>)
    ensures SetOf(names) == {} <==> names == []
  {
    if names != [] {
      assert names[0] in SetOf(names);
    }
  }

  lemma AllRegistered(reg: Registry, args: seq<string>, env: Option<string>, level: int)
    ensures Asked(reg, args, env) + LevelChecks(reg, level) <= Elements(reg.checks)
  {
    var a, e := ArgTokens(RestOf(args)), EnvTokens(env);
    SelectedRegistered(reg, a);
    SelectedRegistered(reg, e);
  }

  lemma SelectedRegistered(reg: Registry, tokens: seq<string>)
    ensures Selected(reg, tokens) <= Elements(reg.checks)
  {
    forall t | t in tokens ensures SelectedBy(reg, t) <= Elements(reg.checks) {
      SelectedAreRegistered(reg, t);
    }
  }

  lemma OneCheckPerName(reg: Registry, checks: seq<RegisteredCheck>)
    requires reg.Valid() && Elements(checks) <= Elements(reg.checks)
    ensures OnePerName(checks)
  {
    forall a, b | a in checks && b in checks && a.name == b.name ensures a == b {
      assert a in Elements(checks) && b in Elements(checks);
      var i :| 0 <= i < |reg.checks| && reg.checks[i] == a;
      OnlyOneNamed(reg, i);
    }
  }

  /** The same level, as many arguments, and the same tokens in some order. */
  predicate SameRequest(args: seq<string>, args': seq<string>) {
    LevelOf(args) == LevelOf(args') && |RestOf(args)| == |RestOf(args')|
    && SetOf(ArgTokens(RestOf(args))) == SetOf(ArgTokens(RestOf(args')))
  }

  /** Only the set of tokens counts: neither their order nor repetition changes the result. */
  lemma TokenOrderIsIrrelevant(reg: Registry, args: seq<string>, args': seq<string>, env: Option<string>,
                               result: seq<RegisteredCheck>, result': seq<RegisteredCheck>)
    requires SameRequest(args, args')
    ensures IsRequested(reg, args, env, result) && IsRequested(reg, args', env, result') ==> result == result'
  {
    hide LevelOf, RestOf, Without, Less;
    var a, a' := ArgTokens(RestOf(args)), ArgTokens(RestOf(args'));
    SelectedBySet(reg, a, a');
    assert Asked(reg, args, env) == Asked(reg, args', env);
    if !Rejected(reg, args) && IsRequested(reg, args, env, result) && IsRequested(reg, args', env, result') {
      SortedIsUnique(result, result');
    }
  }

  lemma SelectedBySet(reg: Registry, a: seq<string>, b: seq<string>)
    requires SetOf(a) == SetOf(b)
    ensures Selected(reg, a) == Selected(reg, b) && Disabled(reg, a) == Disabled(reg, b)
  {
    hide SelectedBy, DisabledBy;
    assert forall t :: t in a <==> t in SetOf(a);
    assert forall t :: t in b <==> t in SetOf(b);
  }
}
