/** What the requests of a user select, said on the registered checks alone. */
module SelectionLaws {
  import opened Options
  import opened TextUtils
  import opened CheckSelection

  const LEVELS: seq<string> := ["level0", "level1", "level2"]

  // ----- levels -----

  /** Each level has all a lower one has; a number that is no level has none. */
  lemma LevelsAreCumulative(reg: Registry, low: int, high: int, c: RegisteredCheck)
    ensures 0 <= low <= high <= 2 && c in LevelChecks(reg, low) ==> c in LevelChecks(reg, high)
    ensures 0 <= low <= 2 ==> (c in LevelChecks(reg, low) <==> c in reg.checks && c.level <= low)
    ensures low < 0 || low > 2 ==> LevelChecks(reg, low) == {}
  {
  }

  lemma NoArgument()
    ensures LevelOf([]) == LEVEL_UNDEFINED && RestOf([]) == [] && ArgTokens([]) == [] && EnvTokens(None) == []
  {
  }

  lemma LevelArgument(level: nat)
    requires level <= 2
    ensures LevelOf([LEVELS[level]]) == level && RestOf([LEVELS[level]]) == []
  {
    assert "level0"[5] == '0' && "level1"[5] == '1' && "level2"[5] == '2';
    assert LevelName(level) == LEVELS[level];
    assert Take(LEVELS[level], [LEVELS[level]]) == [LEVELS[level]][1..] == [];
  }

  lemma TokenArgument(token: string)
    requires token != "" && token !in LEVELS && ',' !in token
    ensures LevelOf([token]) == LEVEL_UNDEFINED && RestOf([token]) == [token] && ArgTokens([token]) == [token]
  {
    assert LEVELS[0] == "level0" && LEVELS[1] == "level1" && LEVELS[2] == "level2";
    LastToken(token, ',');
  }

  lemma OneToken(reg: Registry, token: string)
    ensures Selected(reg, [token]) == SelectedBy(reg, token) && Disabled(reg, [token]) == DisabledBy(reg, token)
  {
    hide SelectedBy, DisabledBy;
    assert [token][..1] == [token] && [token][..0] == [];
    NoTokens(reg);
    OneMoreToken(reg, [token], 0);
  }

  lemma NothingFromEnv(reg: Registry)
    ensures EnvAll(reg, None) == {} && Selected(reg, EnvTokens(None)) == {} && Disabled(reg, EnvTokens(None)) == {}
  {
    NoTokens(reg);
  }

  // ----- requests without an environment -----

  /** Nothing asked for: the checks of levels 0 and 1. */
  lemma DefaultSelection(reg: Registry, result: seq<RegisteredCheck>, c: RegisteredCheck)
    requires IsRequested(reg, [], None, result)
    ensures c in result <==> c in reg.checks && c.level <= 1
  {
    hide Selected, Disabled, LevelOf, RestOf, ArgTokens, EnvTokens, EnvAll;
    NoArgument();
    NoTokens(reg);
    NothingFromEnv(reg);
    assert c in result <==> c in Elements(result);
  }

  /** A level: its checks and those of the lower ones. */
  lemma LevelSelection(reg: Registry, level: nat, result: seq<RegisteredCheck>, c: RegisteredCheck)
    requires level <= 2 && IsRequested(reg, [LEVELS[level]], None, result)
    ensures c in result <==> c in reg.checks && c.level <= level
  {
    hide Selected, Disabled, LevelOf, RestOf, ArgTokens, EnvTokens, EnvAll;
    LevelArgument(level);
    NoArgument();
    NoTokens(reg);
    NothingFromEnv(reg);
    assert c in result <==> c in Elements(result);
  }

  /** One token that selects something and disables nothing. */
  lemma TokenSelection(reg: Registry, token: string, result: seq<RegisteredCheck>)
    requires token != "" && token !in LEVELS && ',' !in token
    requires SelectedBy(reg, token) != {} && DisabledBy(reg, token) == {} && IsRequested(reg, [token], None, result)
    ensures Elements(result) == SelectedBy(reg, token)
  {
    hide Selected, Disabled, LevelOf, RestOf, ArgTokens, EnvTokens, EnvAll, SelectedBy, DisabledBy;
    TokenArgument(token);
    OneToken(reg, token);
    NothingFromEnv(reg);
  }

  lemma OnlyElement(result: seq<RegisteredCheck>, c: RegisteredCheck)
    requires StrictlySorted(result) && Elements(result) == {c}
    ensures result == [c]
  {
    assert StrictlySorted([c]);
    SortedIsUnique(result, [c]);
  }

  /** The name of a check: that check alone, whatever its level. */
  lemma NameSelection(reg: Registry, i: nat, result: seq<RegisteredCheck>)
    requires reg.Valid() && i < |reg.checks|
    requires reg.checks[i].name !in LEVELS && ',' !in reg.checks[i].name
    requires IsRequested(reg, [reg.checks[i].name], None, result)
    ensures result == [reg.checks[i]]
  {
    var c := reg.checks[i];
    OnlyOneNamed(reg, i);
    assert SelectedBy(reg, c.name) == {c} && DisabledBy(reg, c.name) == {};
    hide SelectedBy, DisabledBy;
    TokenSelection(reg, c.name, result);
    TokenArgument(c.name);
    EmptyElements(result);
    NotRejected(reg, c.name);
    OnlyElement(result, c);
  }

  lemma NotRejected(reg: Registry, token: string)
    requires token != "" && token !in LEVELS && ',' !in token
    requires SelectedBy(reg, token) != {} || DisabledBy(reg, token) != {}
    ensures !Rejected(reg, [token])
  {
    hide SelectedBy, DisabledBy;
    TokenArgument(token);
    OneToken(reg, token);
  }

  /** The first check with the fixit owns it. */
  lemma {:induction false} FirstOwner(reg: Registry, checks: seq<RegisteredCheck>, i: nat, fixit: string)
    requires i < |checks| && checks[i].name in reg.fixits && fixit in reg.fixits[checks[i].name]
    requires forall j :: 0 <= j < i && checks[j].name in reg.fixits ==> fixit !in reg.fixits[checks[j].name]
    ensures FixItOwner(reg, checks, fixit) == checks[i].name
    decreases i
  {
    if i > 0 {
      assert checks[1..][i - 1] == checks[i] && !HasFixIt(reg, checks[0].name, fixit);
      FirstOwner(reg, checks[1..], i - 1, fixit);
    }
  }

  /** The name of a fixit: the first check that has it. */
  lemma FixItSelection(reg: Registry, i: nat, fixit: string, result: seq<RegisteredCheck>)
    requires reg.Valid() && i < |reg.checks| && !Named(reg.checks, fixit)
    requires fixit != "" && fixit !in LEVELS && ',' !in fixit
    requires reg.checks[i].name in reg.fixits && fixit in reg.fixits[reg.checks[i].name]
    requires forall j :: 0 <= j < i && reg.checks[j].name in reg.fixits ==> fixit !in reg.fixits[reg.checks[j].name]
    requires IsRequested(reg, [fixit], None, result)
    ensures result == [reg.checks[i]]
  {
    var c := reg.checks[i];
    FirstOwner(reg, reg.checks, i, fixit);
    OnlyOneNamed(reg, i);
    assert SelectedBy(reg, fixit) == {c} && DisabledBy(reg, fixit) == {};
    hide SelectedBy, DisabledBy, FixItOwner;
    TokenSelection(reg, fixit, result);
    NotRejected(reg, fixit);
    OnlyElement(result, c);
  }

  lemma {:induction false} NoOwner(reg: Registry, checks: seq<RegisteredCheck>, fixit: string)
    requires forall j :: 0 <= j < |checks| && checks[j].name in reg.fixits ==> fixit !in reg.fixits[checks[j].name]
    ensures FixItOwner(reg, checks, fixit) == ""
    decreases |checks|
  {
    if checks != [] {
      assert !HasFixIt(reg, checks[0].name, fixit);
      assert forall j :: 0 <= j < |checks| - 1 ==> checks[1..][j] == checks[j + 1];
      NoOwner(reg, checks[1..], fixit);
    }
  }

  /** `no-` and the name of a check: the default checks without it. */
  lemma DisablingSelection(reg: Registry, name: string, result: seq<RegisteredCheck>, c: RegisteredCheck)
    requires Named(reg.checks, name) && !Named(reg.checks, "no-" + name) && ',' !in name
    requires forall j :: 0 <= j < |reg.checks| && reg.checks[j].name in reg.fixits ==>
      "no-" + name !in reg.fixits[reg.checks[j].name]
    requires IsRequested(reg, ["no-" + name], None, result)
    ensures c in result <==> c in reg.checks && c.level <= 1 && c.name != name
  {
    var token := "no-" + name;
    NoOwner(reg, reg.checks, token);
    assert token[0] == 'n' && "level"[0] == 'l' && token[3..] == name;
    assert LEVELS[0][0] == 'l' && LEVELS[1][0] == 'l' && LEVELS[2][0] == 'l';
    assert SelectedBy(reg, token) == {} && DisabledBy(reg, token) == {name};
    hide SelectedBy, DisabledBy, FixItOwner;
    NotRejected(reg, token);
    TokenArgument(token);
    OneToken(reg, token);
    NothingFromEnv(reg);
    hide Selected, Disabled, LevelOf, RestOf, ArgTokens, EnvTokens, EnvAll, Rejected;
    assert Asked(reg, [token], None) == {};
    assert c in result <==> c in Elements(result);
  }

  // ----- the environment -----

  lemma Quotes(s: string)
    requires s != "" && s[0] != '"'
    ensures Unquoted(s) == s && Unquoted("\"" + s + "\"") == s
  {
    var quoted := "\"" + s + "\"";
    assert quoted[1..|quoted| - 1] == s;
  }

  /** `all_checks`, in quotes or not, asks for every level. */
  lemma AllChecks(reg: Registry, quoted: bool, result: seq<RegisteredCheck>, c: RegisteredCheck)
    requires IsRequested(reg, [], Some(if quoted then "\"" + "all_checks" + "\"" else "all_checks"), result)
    ensures c in result <==> c in reg.checks && c.level <= 2
  {
    Quotes("all_checks");
    hide Unquoted;
    var env := Some(if quoted then "\"" + "all_checks" + "\"" else "all_checks");
    assert EnvTokens(env) == [] && EnvAll(reg, env) == LevelChecks(reg, 2);
    NoArgument();
    NoTokens(reg);
    hide Selected, Disabled, LevelOf, RestOf, ArgTokens, EnvTokens, EnvAll;
    if x :| x in reg.checks && x.level <= 2 {
      assert x in LevelChecks(reg, 2);
    }
    assert c in result <==> c in Elements(result);
  }

  /** A token of the argument and one of the environment: what either selects. */
  lemma BothTokens(reg: Registry, a: string, b: string, result: seq<RegisteredCheck>)
    requires a != "" && a !in LEVELS && ',' !in a
    requires b != "" && b[0] != '"' && ',' !in b && b != "all_checks"
    requires SelectedBy(reg, a) != {} && DisabledBy(reg, a) == {} && DisabledBy(reg, b) == {}
    requires IsRequested(reg, [a], Some(b), result)
    ensures Elements(result) == SelectedBy(reg, a) + SelectedBy(reg, b)
  {
    hide SelectedBy, DisabledBy;
    Quotes(b);
    LastToken(b, ',');
    assert EnvTokens(Some(b)) == [b] && EnvAll(reg, Some(b)) == {};
    TokenArgument(a);
    OneToken(reg, a);
    OneToken(reg, b);
    NotRejected(reg, a);
    hide Selected, Disabled, LevelOf, RestOf, ArgTokens, EnvTokens, EnvAll, Rejected, Unquoted;
  }

  /** A check named by the argument and one named by the environment: both, and no default level. */
  lemma BothLists(reg: Registry, i: nat, j: nat, result: seq<RegisteredCheck>, c: RegisteredCheck)
    requires reg.Valid() && i < |reg.checks| && j < |reg.checks|
    requires reg.checks[i].name !in LEVELS && ',' !in reg.checks[i].name
    requires reg.checks[j].name[0] != '"' && ',' !in reg.checks[j].name && reg.checks[j].name != "all_checks"
    requires IsRequested(reg, [reg.checks[i].name], Some(reg.checks[j].name), result)
    ensures c in result <==> c == reg.checks[i] || c == reg.checks[j]
  {
    hide IsRequested;
    var a, b := reg.checks[i], reg.checks[j];
    OnlyOneNamed(reg, i);
    OnlyOneNamed(reg, j);
    assert SelectedBy(reg, a.name) == {a} && DisabledBy(reg, a.name) == {};
    assert SelectedBy(reg, b.name) == {b} && DisabledBy(reg, b.name) == {};
    hide SelectedBy, DisabledBy;
    BothTokens(reg, a.name, b.name, result);
    assert c in result <==> c in Elements(result);
  }

  lemma LevelBeforeToken(level: nat, token: string)
    requires level <= 2 && token !in LEVELS
    ensures LevelOf([LEVELS[level], token]) == level && RestOf([LEVELS[level], token]) == [token]
  {
    assert "level0"[5] == '0' && "level1"[5] == '1' && "level2"[5] == '2';
    assert LEVELS[0] == "level0" && LEVELS[1] == "level1" && LEVELS[2] == "level2";
    assert LevelName(level) == LEVELS[level];
    assert [LEVELS[level], token][1..] == [token];
  }

  /** A level and the name of a check: the checks of the level and that one. */
  lemma LevelAndName(reg: Registry, level: nat, i: nat, result: seq<RegisteredCheck>, c: RegisteredCheck)
    requires reg.Valid() && level <= 2 && i < |reg.checks|
    requires reg.checks[i].name !in LEVELS && ',' !in reg.checks[i].name
    requires IsRequested(reg, [LEVELS[level], reg.checks[i].name], None, result)
    ensures c in result <==> (c in reg.checks && c.level <= level) || c == reg.checks[i]
  {
    var a, args := reg.checks[i], [LEVELS[level], reg.checks[i].name];
    OnlyOneNamed(reg, i);
    assert SelectedBy(reg, a.name) == {a} && DisabledBy(reg, a.name) == {};
    hide SelectedBy, DisabledBy;
    LevelBeforeToken(level, a.name);
    TokenArgument(a.name);
    OneToken(reg, a.name);
    NothingFromEnv(reg);
    hide Selected, Disabled, LevelOf, RestOf, ArgTokens, EnvTokens, EnvAll;
    assert !Rejected(reg, args);
    assert EffectiveLevel(reg, args, None) == level;
    assert c in result <==> c in Elements(result);
  }

  // ----- two levels -----

  const EASY := RegisteredCheck("easy", 0)
  const HARD := RegisteredCheck("hard", 2)
  const TWO_LEVELS := Registry([HARD, EASY], map[])

  lemma ThoseListed(args: seq<string>, result: seq<RegisteredCheck>, expected: seq<RegisteredCheck>)
    requires RestOf(args) == [] && IsRequested(TWO_LEVELS, args, None, result) && StrictlySorted(expected)
    requires forall c :: c in result <==> c in expected
    ensures result == expected
  {
    hide Wanted;
    SortedIsUnique(result, expected);
  }

  /** Level 2 runs both checks in the order of their names, level 0 and the default only the easy one. */
  lemma TwoLevels(result: seq<RegisteredCheck>)
    ensures IsRequested(TWO_LEVELS, ["level2"], None, result) ==> result == [EASY, HARD]
    ensures IsRequested(TWO_LEVELS, ["level0"], None, result) ==> result == [EASY]
    ensures IsRequested(TWO_LEVELS, [], None, result) ==> result == [EASY]
  {
    assert StrictlySorted([EASY]) && StrictlySorted([EASY, HARD]) by {
      assert "easy"[0] == 'e' && "hard"[0] == 'h';
    }
    assert LEVELS[0] == "level0" && LEVELS[2] == "level2";
    NoArgument();
    LevelArgument(0);
    LevelArgument(2);
    hide IsRequested, StrictlySorted, RestOf, LevelOf;
    if IsRequested(TWO_LEVELS, ["level2"], None, result) {
      forall c ensures c in result <==> c in [EASY, HARD] {
        LevelSelection(TWO_LEVELS, 2, result, c);
      }
      ThoseListed(["level2"], result, [EASY, HARD]);
    }
    if IsRequested(TWO_LEVELS, ["level0"], None, result) {
      forall c ensures c in result <==> c in [EASY] {
        LevelSelection(TWO_LEVELS, 0, result, c);
      }
      ThoseListed(["level0"], result, [EASY]);
    }
    if IsRequested(TWO_LEVELS, [], None, result) {
      forall c ensures c in result <==> c in [EASY] {
        DefaultSelection(TWO_LEVELS, result, c);
      }
      ThoseListed([], result, [EASY]);
    }
  }
}
