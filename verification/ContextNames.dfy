/** The shortest qualified name of a method that the code would write in a given scope. */
module ContextNames {
  import opened Options

  type ScopeId = nat

  /** A scope: a namespace with its own and its qualified name, a class, a function, or the whole unit. */
  datatype Kind = Namespace(name: string, qualified: string) | Record(name: string) | Function(name: string)
    | TranslationUnit | Unhandled

  datatype Scopes = Scopes(kinds: map<ScopeId, Kind>, parents: map<ScopeId, ScopeId>)

  /** `rank` falls from every scope to its parent. */
  ghost predicate Tree(t: Scopes, rank: ScopeId -> nat) {
    forall s :: s in t.parents ==> rank(t.parents[s]) < rank(s)
  }

  function KindOf(t: Scopes, s: ScopeId): Kind {
    if s in t.kinds then t.kinds[s] else Unhandled
  }

  /** A scope and the scopes around it, innermost first. */
  function Contexts(t: Scopes, ghost rank: ScopeId -> nat, s: ScopeId): (c: seq<ScopeId>)
    requires Tree(t, rank)
    ensures c != [] && c[0] == s
    decreases rank(s)
  {
    [s] + (if s in t.parents then Contexts(t, rank, t.parents[s]) else [])
  }

  /** `contextsForDecl` */
  method ContextsForDecl(t: Scopes, ghost rank: ScopeId -> nat, scope: Option<ScopeId>) returns (decls: seq<ScopeId>)
    requires Tree(t, rank)
    ensures decls == if scope.None? then [] else Contexts(t, rank, scope.value)
  {
    decls := [];
    var current := scope;
    while current.Some?
      invariant decls + (if current.None? then [] else Contexts(t, rank, current.value))
             == if scope.None? then [] else Contexts(t, rank, scope.value)
      decreases if current.Some? then rank(current.value) + 1 else 0
    {
      var s := current.value;
      assert decls + ([s] + (if s in t.parents then Contexts(t, rank, t.parents[s]) else []))
          == decls + [s] + (if s in t.parents then Contexts(t, rank, t.parents[s]) else []);
      decls := decls + [s];
      current := if s in t.parents then Some(t.parents[s]) else None;
    }
  }

  function NameForContext(k: Kind): string {
    match k
    case Namespace(name, _) => name
    case Record(name) => name
    case Function(name) => name
    case TranslationUnit => ""
    case Unhandled => ""
  }

  /** One scope, or two openings of one namespace. */
  predicate SameScope(t: Scopes, a: ScopeId, b: ScopeId) {
    a == b ||
    (KindOf(t, a).Namespace? && KindOf(t, b).Namespace? && KindOf(t, a).qualified == KindOf(t, b).qualified)
  }

  /** `ms` without its first scope that is the same as `v`. */
  function EraseOne(t: Scopes, ms: seq<ScopeId>, v: ScopeId): seq<ScopeId> {
    if ms == [] then [] else if SameScope(t, ms[0], v) then ms[1..] else [ms[0]] + EraseOne(t, ms[1..], v)
  }

  /** The visible scopes are erased one after the other; the method's own class never is asked for. */
  function EraseEach(t: Scopes, ms: seq<ScopeId>, visible: seq<ScopeId>, owner: ScopeId): seq<ScopeId>
    decreases |visible|
  {
    if visible == [] then ms
    else EraseEach(t, if visible[0] == owner then ms else EraseOne(t, ms, visible[0]), visible[1..], owner)
  }

  /** The names of the scopes kept, outermost first, each followed by `::`. */
  function Qualifier(t: Scopes, kept: seq<ScopeId>): string {
    if kept == [] then "" else Qualifier(t, kept[1..]) + NameForContext(KindOf(t, kept[0])) + "::"
  }

  /** A using directive: where its namespace was first opened, and whether it stands before the use. */
  datatype UsingDirective = UsingDirective(namespace_: Option<ScopeId>, beforeUse: bool)

  function Nominated(usings: seq<UsingDirective>): seq<ScopeId> {
    if usings == [] then []
    else
      (if usings[0].namespace_.Some? && usings[0].beforeUse then [usings[0].namespace_.value] else [])
      + Nominated(usings[1..])
  }

  /**
   * `getMostNeededQualifiedName`; `usings` are the directives of the visible scopes if they are honoured,
   * `fullName` is the method's qualified name.
   */
  method GetMostNeededQualifiedName(t: Scopes, ghost rank: ScopeId -> nat, owner: ScopeId, name: string,
      fullName: string, currentScope: Option<ScopeId>, usings: seq<UsingDirective>)
    returns (result: string, ghost kept: seq<ScopeId>)
    requires Tree(t, rank)
    ensures currentScope.None? ==> result == fullName
    ensures currentScope.Some? ==>
      kept == EraseEach(t, Contexts(t, rank, owner), Contexts(t, rank, currentScope.value) + Nominated(usings), owner)
      && result == Qualifier(t, kept) + name
  {
    kept := [];
    if currentScope.None? {
      return fullName, [];
    }
    var methodContexts := ContextsForDecl(t, rank, Some(owner));
    var visibleContexts := ContextsForDecl(t, rank, currentScope);
    visibleContexts := AddNominated(visibleContexts, usings);
    methodContexts := EraseVisible(t, methodContexts, visibleContexts, owner);
    kept := methodContexts;
    var neededContexts := PrependNames(t, methodContexts);
    result := neededContexts + name;
  }

  lemma QualifierStep(t: Scopes, kept: seq<ScopeId>, k: nat, needed: string)
    requires k < |kept|
    ensures Qualifier(t, kept[k..]) + needed
         == Qualifier(t, kept[k + 1..]) + (NameForContext(KindOf(t, kept[k])) + "::" + needed)
  {
    hide NameForContext, KindOf;
    assert kept[k..][1..] == kept[k + 1..];
    var q, n := Qualifier(t, kept[k + 1..]), NameForContext(KindOf(t, kept[k]));
    assert q + n + "::" + needed == q + (n + "::" + needed);
  }

  /** Each name goes in front of what is there already. */
  method PrependNames(t: Scopes, methodContexts: seq<ScopeId>) returns (neededContexts: string)
    ensures neededContexts == Qualifier(t, methodContexts)
  {
    hide NameForContext, KindOf, Qualifier;
    neededContexts := "";
    assert methodContexts[0..] == methodContexts;
    assert Qualifier(t, methodContexts) + "" == Qualifier(t, methodContexts);
    for k := 0 to |methodContexts|
      invariant Qualifier(t, methodContexts) == Qualifier(t, methodContexts[k..]) + neededContexts
    {
      QualifierStep(t, methodContexts, k, neededContexts);
      neededContexts := NameForContext(KindOf(t, methodContexts[k])) + "::" + neededContexts;
    }
    assert methodContexts[|methodContexts|..] == [];
    NothingQualified(t);
  }

  lemma NothingQualified(t: Scopes)
    ensures Qualifier(t, []) == ""
  {
  }

  method AddNominated(visible: seq<ScopeId>, usings: seq<UsingDirective>) returns (r: seq<ScopeId>)
    ensures r == visible + Nominated(usings)
  {
    r := visible;
    for k := 0 to |usings|
      invariant r + Nominated(usings[k..]) == visible + Nominated(usings)
    {
      assert usings[k..][1..] == usings[k + 1..];
      var u := usings[k];
      if u.namespace_.Some? && u.beforeUse {
        assert r + ([u.namespace_.value] + Nominated(usings[k + 1..]))
            == r + [u.namespace_.value] + Nominated(usings[k + 1..]);
        r := r + [u.namespace_.value];
      }
    }
    assert usings[|usings|..] == [];
  }

  /** The loop over the visible scopes, each erased from the method's in place. */
  method EraseVisible(t: Scopes, ms: seq<ScopeId>, visible: seq<ScopeId>, owner: ScopeId) returns (r: seq<ScopeId>)
    ensures r == EraseEach(t, ms, visible, owner)
  {
    r := ms;
    for k := 0 to |visible|
      invariant EraseEach(t, r, visible[k..], owner) == EraseEach(t, ms, visible, owner)
    {
      assert visible[k..][1..] == visible[k + 1..];
      if visible[k] != owner {
        r := Erase(t, r, visible[k]);
      }
    }
    assert visible[|visible|..] == [];
  }

  lemma {:induction false} EraseAt(t: Scopes, ms: seq<ScopeId>, v: ScopeId, k: nat)
    requires k <= |ms| && (k < |ms| ==> SameScope(t, ms[k], v))
    requires forall j :: 0 <= j < k ==> !SameScope(t, ms[j], v)
    ensures EraseOne(t, ms, v) == if k < |ms| then ms[..k] + ms[k + 1..] else ms
    decreases k
  {
    hide SameScope;
    if k > 0 {
      var rest := ms[1..];
      assert ms == [ms[0]] + rest;
      EraseAt(t, rest, v, k - 1);
      assert EraseOne(t, ms, v) == [ms[0]] + EraseOne(t, rest, v);
      hide EraseOne;
      if k < |ms| {
        assert [ms[0]] + (rest[..k - 1] + rest[k..]) == ms[..k] + ms[k + 1..];
      }
    }
  }

  method Erase(t: Scopes, ms: seq<ScopeId>, v: ScopeId) returns (r: seq<ScopeId>)
    ensures r == EraseOne(t, ms, v)
  {
    hide SameScope;
    var k := 0;
    while k < |ms| && !SameScope(t, ms[k], v)
      invariant 0 <= k <= |ms| && forall j :: 0 <= j < k ==> !SameScope(t, ms[j], v)
    {
      k := k + 1;
    }
    EraseAt(t, ms, v, k);
    r := if k < |ms| then ms[..k] + ms[k + 1..] else ms;
  }

  // ----- which scopes are kept -----

  /** One scope is the same as some visible one. */
  predicate IsVisible(t: Scopes, s: ScopeId, visible: seq<ScopeId>) {
    exists k :: 0 <= k < |visible| && SameScope(t, s, visible[k])
  }

  /** The scopes of `ms` that are not visible, and the class itself. */
  function Keep(t: Scopes, ms: seq<ScopeId>, visible: seq<ScopeId>, owner: ScopeId): seq<ScopeId> {
    if ms == [] then []
    else (if ms[0] == owner || !IsVisible(t, ms[0], visible) then [ms[0]] else []) + Keep(t, ms[1..], visible, owner)
  }

  /** No two of the scopes are openings of one namespace. */
  predicate Apart(t: Scopes, ms: seq<ScopeId>) {
    forall i, j :: 0 <= i < j < |ms| ==> !SameScope(t, ms[i], ms[j])
  }

  lemma VisibleStep(t: Scopes, s: ScopeId, v: ScopeId, visible: seq<ScopeId>)
    ensures IsVisible(t, s, [v] + visible) <==> SameScope(t, s, v) || IsVisible(t, s, visible)
  {
    hide SameScope;
    var more := [v] + visible;
    if SameScope(t, s, v) {
      assert SameScope(t, s, more[0]);
    }
    if k :| 0 <= k < |visible| && SameScope(t, s, visible[k]) {
      assert SameScope(t, s, more[k + 1]);
    }
    if k :| 0 <= k < |more| && SameScope(t, s, more[k]) {
      assert k > 0 ==> visible[k - 1] == more[k];
    }
  }

  /** Only a class itself is the same scope as the class. */
  lemma ClassIsAlone(t: Scopes, owner: ScopeId, s: ScopeId)
    requires !KindOf(t, owner).Namespace?
    ensures SameScope(t, s, owner) <==> s == owner
    ensures SameScope(t, owner, s) <==> s == owner
  {
  }

  lemma SameAsBoth(t: Scopes, a: ScopeId, b: ScopeId, v: ScopeId)
    ensures SameScope(t, a, v) && SameScope(t, b, v) ==> SameScope(t, a, b)
  {
  }

  lemma {:induction false} EraseOneKeeps(t: Scopes, ms: seq<ScopeId>, v: ScopeId, visible: seq<ScopeId>, owner: ScopeId)
    requires Apart(t, ms) && v != owner && !KindOf(t, owner).Namespace?
    ensures Apart(t, EraseOne(t, ms, v)) && forall s :: s in EraseOne(t, ms, v) ==> s in ms
    ensures Keep(t, EraseOne(t, ms, v), visible, owner) == Keep(t, ms, [v] + visible, owner)
    decreases |ms|
  {
    hide SameScope, IsVisible;
    if ms != [] {
      var h, rest := ms[0], ms[1..];
      VisibleStep(t, h, v, visible);
      ClassIsAlone(t, owner, v);
      assert Apart(t, rest);
      if SameScope(t, h, v) {
        forall x | x in rest ensures !SameScope(t, x, v) {
          var k :| 0 <= k < |rest| && rest[k] == x;
          assert !SameScope(t, ms[0], ms[k + 1]);
          SameAsBoth(t, h, x, v);
        }
        KeepSkips(t, rest, v, visible, owner);
      } else {
        EraseOneKeeps(t, rest, v, visible, owner);
        ErasedBehind(t, h, rest, v);
        assert ([h] + EraseOne(t, rest, v))[1..] == EraseOne(t, rest, v);
      }
    }
  }

  lemma ErasedBehind(t: Scopes, h: ScopeId, rest: seq<ScopeId>, v: ScopeId)
    requires Apart(t, [h] + rest) && Apart(t, EraseOne(t, rest, v))
    requires forall s :: s in EraseOne(t, rest, v) ==> s in rest
    ensures Apart(t, [h] + EraseOne(t, rest, v))
  {
    hide SameScope, EraseOne;
    var left := EraseOne(t, rest, v);
    forall j | 0 <= j < |left| ensures !SameScope(t, h, left[j]) {
      assert left[j] in left;
      var k :| 0 <= k < |rest| && rest[k] == left[j];
      assert !SameScope(t, ([h] + rest)[0], ([h] + rest)[k + 1]);
    }
  }

  lemma {:induction false} KeepSkips(t: Scopes, ms: seq<ScopeId>, v: ScopeId, visible: seq<ScopeId>, owner: ScopeId)
    requires forall x :: x in ms ==> !SameScope(t, x, v)
    ensures Keep(t, ms, [v] + visible, owner) == Keep(t, ms, visible, owner)
    decreases |ms|
  {
    hide SameScope, IsVisible;
    if ms != [] {
      VisibleStep(t, ms[0], v, visible);
      KeepSkips(t, ms[1..], v, visible, owner);
    }
  }

  lemma {:induction false} KeepNothingVisible(t: Scopes, ms: seq<ScopeId>, owner: ScopeId)
    ensures Keep(t, ms, [], owner) == ms
    decreases |ms|
  {
    if ms != [] {
      KeepNothingVisible(t, ms[1..], owner);
      assert [ms[0]] + ms[1..] == ms;
    }
  }

  lemma {:induction false} KeepOwner(t: Scopes, ms: seq<ScopeId>, visible: seq<ScopeId>, owner: ScopeId)
    requires !KindOf(t, owner).Namespace?
    ensures Keep(t, ms, [owner] + visible, owner) == Keep(t, ms, visible, owner)
    decreases |ms|
  {
    hide IsVisible, SameScope;
    if ms != [] {
      VisibleStep(t, ms[0], owner, visible);
      ClassIsAlone(t, owner, ms[0]);
      KeepOwner(t, ms[1..], visible, owner);
    }
  }

  /**
   * Erasing scope by scope keeps the class and what is not visible, where another opening of a visible namespace is
   * visible, too.
   */
  lemma {:induction false} EraseEachKeeps(t: Scopes, ms: seq<ScopeId>, visible: seq<ScopeId>, owner: ScopeId)
    requires Apart(t, ms) && !KindOf(t, owner).Namespace?
    ensures EraseEach(t, ms, visible, owner) == Keep(t, ms, visible, owner)
    decreases |visible|
  {
    hide Keep, Apart, EraseOne, KindOf;
    if visible == [] {
      KeepNothingVisible(t, ms, owner);
    } else {
      var v, rest := visible[0], visible[1..];
      assert visible == [v] + rest;
      if v == owner {
        KeepOwner(t, ms, rest, owner);
        EraseEachKeeps(t, ms, rest, owner);
      } else {
        EraseOneKeeps(t, ms, v, rest, owner);
        EraseEachKeeps(t, EraseOne(t, ms, v), rest, owner);
      }
    }
  }

  // ----- chains of scopes -----

  /** All openings of a namespace lie in openings of one scope. */
  ghost predicate Reopens(t: Scopes) {
    forall a, b :: SameScope(t, a, b) ==>
      (a in t.parents <==> b in t.parents) && (a in t.parents ==> SameScope(t, t.parents[a], t.parents[b]))
  }

  lemma {:induction false} SameDepth(t: Scopes, rank: ScopeId -> nat, a: ScopeId, b: ScopeId)
    requires Tree(t, rank) && Reopens(t) && SameScope(t, a, b)
    ensures |Contexts(t, rank, a)| == |Contexts(t, rank, b)|
    decreases rank(a)
  {
    hide SameScope;
    if a in t.parents {
      SameDepth(t, rank, t.parents[a], t.parents[b]);
    }
  }

  lemma {:induction false} ContextsFrom(t: Scopes, rank: ScopeId -> nat, s: ScopeId, i: nat)
    requires Tree(t, rank) && i < |Contexts(t, rank, s)|
    ensures Contexts(t, rank, Contexts(t, rank, s)[i]) == Contexts(t, rank, s)[i..]
    decreases rank(s)
  {
    if i > 0 {
      ContextsFrom(t, rank, t.parents[s], i - 1);
    }
  }

  /** A chain has no two openings of one namespace. */
  lemma ContextsAreApart(t: Scopes, rank: ScopeId -> nat, s: ScopeId)
    requires Tree(t, rank) && Reopens(t)
    ensures Apart(t, Contexts(t, rank, s))
  {
    hide SameScope, Reopens;
    var c := Contexts(t, rank, s);
    forall i, j | 0 <= i < j < |c| ensures !SameScope(t, c[i], c[j]) {
      ContextsFrom(t, rank, s, i);
      ContextsFrom(t, rank, s, j);
      if SameScope(t, c[i], c[j]) {
        SameDepth(t, rank, c[i], c[j]);
      }
    }
  }

  /** Around a visible scope all scopes are visible. */
  lemma VisibleUpwards(t: Scopes, rank: ScopeId -> nat, s: ScopeId, current: ScopeId)
    requires Tree(t, rank) && Reopens(t) && s in t.parents && IsVisible(t, s, Contexts(t, rank, current))
    ensures IsVisible(t, t.parents[s], Contexts(t, rank, current))
  {
    hide SameScope, Contexts;
    var c := Contexts(t, rank, current);
    var k :| 0 <= k < |c| && SameScope(t, s, c[k]);
    ContextsFrom(t, rank, current, k);
    NextContext(t, rank, c[k]);
    assert c[k..][1] == c[k + 1];
    assert SameScope(t, t.parents[s], c[k + 1]);
  }

  lemma NextContext(t: Scopes, rank: ScopeId -> nat, s: ScopeId)
    requires Tree(t, rank)
    ensures s in t.parents ==> |Contexts(t, rank, s)| > 1 && Contexts(t, rank, s)[1] == t.parents[s]
  {
  }

  lemma {:induction false} AllVisibleUpwards(t: Scopes, rank: ScopeId -> nat, s: ScopeId, current: ScopeId)
    requires Tree(t, rank) && Reopens(t) && IsVisible(t, s, Contexts(t, rank, current))
    ensures forall x :: x in Contexts(t, rank, s) ==> IsVisible(t, x, Contexts(t, rank, current))
    decreases rank(s)
  {
    hide IsVisible, Reopens;
    if s in t.parents {
      VisibleUpwards(t, rank, s, current);
      AllVisibleUpwards(t, rank, t.parents[s], current);
    }
  }

  /** The first `n` scopes of `c` are kept, none of them is visible, and all others are. */
  predicate IsCut(t: Scopes, c: seq<ScopeId>, visible: seq<ScopeId>, owner: ScopeId, n: nat) {
    && n <= |c| && Keep(t, c, visible, owner) == c[..n]
    && (forall i :: 0 <= i < n ==> !IsVisible(t, c[i], visible))
    && (forall i :: n <= i < |c| ==> IsVisible(t, c[i], visible))
  }

  lemma CutGrows(t: Scopes, s: ScopeId, p: seq<ScopeId>, visible: seq<ScopeId>, owner: ScopeId, m: nat)
    requires IsCut(t, p, visible, owner, m) && !IsVisible(t, s, visible)
    ensures IsCut(t, [s] + p, visible, owner, m + 1)
  {
    hide IsVisible;
    var c := [s] + p;
    assert c[1..] == p;
    assert c[..m + 1] == [s] + p[..m];
    assert forall i :: 0 < i < |c| ==> c[i] == p[i - 1];
  }

  lemma NothingToCut(t: Scopes, visible: seq<ScopeId>, owner: ScopeId)
    ensures IsCut(t, [], visible, owner, 0)
  {
  }

  lemma AllVisibleIsCut(t: Scopes, c: seq<ScopeId>, visible: seq<ScopeId>, owner: ScopeId)
    requires owner !in c && forall x :: x in c ==> IsVisible(t, x, visible)
    ensures IsCut(t, c, visible, owner, 0)
  {
    hide IsVisible;
    KeepNone(t, c, visible, owner);
    assert c[..0] == [];
  }

  /** Of a chain of scopes the part below the first visible one is kept. */
  lemma {:induction false} KeepPrefix(t: Scopes, rank: ScopeId -> nat, s: ScopeId, current: ScopeId, owner: ScopeId)
      returns (n: nat)
    requires Tree(t, rank) && Reopens(t) && owner !in Contexts(t, rank, s)
    ensures IsCut(t, Contexts(t, rank, s), Contexts(t, rank, current), owner, n)
    decreases rank(s)
  {
    hide IsCut, Keep, IsVisible, Reopens;
    var c, visible := Contexts(t, rank, s), Contexts(t, rank, current);
    if IsVisible(t, s, visible) {
      AllVisibleUpwards(t, rank, s, current);
      AllVisibleIsCut(t, c, visible, owner);
      n := 0;
    } else if s in t.parents {
      var p := Contexts(t, rank, t.parents[s]);
      assert c == [s] + p;
      assert forall x :: x in p ==> x in c;
      var m := KeepPrefix(t, rank, t.parents[s], current, owner);
      CutGrows(t, s, p, visible, owner, m);
      n := m + 1;
    } else {
      assert c == [s] + [];
      NothingToCut(t, visible, owner);
      CutGrows(t, s, [], visible, owner, 0);
      n := 1;
    }
  }

  lemma {:induction false} KeepNone(t: Scopes, ms: seq<ScopeId>, visible: seq<ScopeId>, owner: ScopeId)
    requires owner !in ms && forall x :: x in ms ==> IsVisible(t, x, visible)
    ensures Keep(t, ms, visible, owner) == []
    decreases |ms|
  {
    if ms != [] {
      KeepNone(t, ms[1..], visible, owner);
    }
  }

  lemma {:induction false} ParentsRankLower(t: Scopes, rank: ScopeId -> nat, s: ScopeId)
    requires Tree(t, rank)
    ensures forall x :: x in Contexts(t, rank, s) ==> rank(x) <= rank(s)
    decreases rank(s)
  {
    if s in t.parents {
      ParentsRankLower(t, rank, t.parents[s]);
    }
  }

  /**
   * Without using directives: the class and the scopes around it are kept up to, and without, the first one that is
   * also around the place of use, in the same opening or another; the class is kept in any case.
   */
  lemma KeptScopes(t: Scopes, rank: ScopeId -> nat, owner: ScopeId, current: ScopeId) returns (n: nat)
    requires Tree(t, rank) && Reopens(t) && !KindOf(t, owner).Namespace?
    ensures var ms, visible := Contexts(t, rank, owner), Contexts(t, rank, current);
      1 <= n <= |ms| && EraseEach(t, ms, visible + Nominated([]), owner) == ms[..n]
      && (forall i :: 1 <= i < n ==> !IsVisible(t, ms[i], visible))
      && (forall i :: n <= i < |ms| ==> IsVisible(t, ms[i], visible))
  {
    hide IsVisible, Reopens, KindOf, EraseEach, Apart, IsCut, Keep;
    var ms, visible := Contexts(t, rank, owner), Contexts(t, rank, current);
    assert visible + Nominated([]) == visible;
    ContextsAreApart(t, rank, owner);
    EraseEachKeeps(t, ms, visible, owner);
    var rest := if owner in t.parents then Contexts(t, rank, t.parents[owner]) else [];
    assert ms == [owner] + rest && ms[1..] == rest;
    var m := 0;
    if owner in t.parents {
      ParentsRankLower(t, rank, t.parents[owner]);
      m := KeepPrefix(t, rank, t.parents[owner], current, owner);
    } else {
      NothingToCut(t, visible, owner);
    }
    n := m + 1;
    KeptFromCut(t, owner, rest, visible, m);
  }

  lemma KeptFromCut(t: Scopes, owner: ScopeId, rest: seq<ScopeId>, visible: seq<ScopeId>, m: nat)
    requires IsCut(t, rest, visible, owner, m)
    ensures var ms, n := [owner] + rest, m + 1;
      && n <= |ms| && Keep(t, ms, visible, owner) == ms[..n]
      && (forall i :: 1 <= i < n ==> !IsVisible(t, ms[i], visible))
      && (forall i :: n <= i < |ms| ==> IsVisible(t, ms[i], visible))
  {
    hide IsVisible;
    var ms := [owner] + rest;
    assert ms[1..] == rest;
    assert ms[..m + 1] == [owner] + rest[..m];
    assert forall i :: 1 <= i < |ms| ==> ms[i] == rest[i - 1];
  }

  /** The result starts with `::` exactly if the outermost scope kept has no name. */
  lemma {:induction false} NeverStartsGlobal(t: Scopes, kept: seq<ScopeId>, name: string)
    requires kept != []
    requires forall i :: 0 <= i < |kept| ==> !(":" <= NameForContext(KindOf(t, kept[i])))
    ensures "::" <= Qualifier(t, kept) + name <==> NameForContext(KindOf(t, kept[|kept| - 1])) == ""
    decreases |kept|
  {
    var q, n := Qualifier(t, kept), NameForContext(KindOf(t, kept[|kept| - 1]));
    hide NameForContext, KindOf, Qualifier;
    QualifierHead(t, kept);
    assert q[..|n| + 2] == n + "::";
    assert (q + name)[..2] == q[..2];
    if n == "" {
      assert n + "::" == "::";
    } else {
      assert q[0] == n[0] && n[..1] == [n[0]];
      assert ":" == [':'] && "::"[0] == ':';
      assert (q + name)[0] == n[0] != ':';
    }
  }

  lemma {:induction false} QualifierHead(t: Scopes, kept: seq<ScopeId>)
    requires kept != []
    ensures NameForContext(KindOf(t, kept[|kept| - 1])) + "::" <= Qualifier(t, kept)
    decreases |kept|
  {
    if |kept| > 1 {
      QualifierHead(t, kept[1..]);
    }
  }

  /** Only the last scope of a chain has no parent. */
  lemma {:induction false} InnerHaveParents(t: Scopes, rank: ScopeId -> nat, s: ScopeId, i: nat)
    requires Tree(t, rank) && i + 1 < |Contexts(t, rank, s)|
    ensures Contexts(t, rank, s)[i] in t.parents
    decreases rank(s)
  {
    if i > 0 {
      InnerHaveParents(t, rank, t.parents[s], i - 1);
    }
  }

  /** Going outwards from `s`, the last scope before the first visible one; `s` itself counts in any case. */
  function OutermostHidden(t: Scopes, ghost rank: ScopeId -> nat, s: ScopeId, visible: seq<ScopeId>): ScopeId
    requires Tree(t, rank)
    decreases rank(s)
  {
    if s in t.parents && !IsVisible(t, t.parents[s], visible) then OutermostHidden(t, rank, t.parents[s], visible)
    else s
  }

  lemma {:induction false} OutermostAt(t: Scopes, rank: ScopeId -> nat, s: ScopeId, visible: seq<ScopeId>, n: nat)
    requires Tree(t, rank)
    requires var c := Contexts(t, rank, s);
      && 1 <= n <= |c|
      && (forall i :: 1 <= i < n ==> !IsVisible(t, c[i], visible)) && (n < |c| ==> IsVisible(t, c[n], visible))
    ensures OutermostHidden(t, rank, s, visible) == Contexts(t, rank, s)[n - 1]
    decreases rank(s)
  {
    hide IsVisible;
    var c := Contexts(t, rank, s);
    if s in t.parents {
      var p := Contexts(t, rank, t.parents[s]);
      assert c == [s] + p && c[1] == p[0] == t.parents[s];
      hide Contexts;
      if n > 1 {
        assert forall i :: 0 <= i < |p| ==> p[i] == c[i + 1];
        OutermostAt(t, rank, t.parents[s], visible, n - 1);
      }
    }
  }

  predicate NoNameStartsWithColon(t: Scopes) {
    forall s :: s in t.kinds ==> !(":" <= NameForContext(t.kinds[s]))
  }

  /**
   * Without using directives: the result starts with `::` exactly if the outermost scope around the class that does
   * not enclose the place of use, in whatever opening, has no name.
   */
  lemma StartsGlobalExactly(t: Scopes, rank: ScopeId -> nat, owner: ScopeId, current: ScopeId, name: string)
    requires Tree(t, rank) && Reopens(t) && !KindOf(t, owner).Namespace? && NoNameStartsWithColon(t)
    ensures var visible := Contexts(t, rank, current);
      "::" <= Qualifier(t, EraseEach(t, Contexts(t, rank, owner), visible + Nominated([]), owner)) + name
      <==> NameForContext(KindOf(t, OutermostHidden(t, rank, owner, visible))) == ""
  {
    var ms, visible := Contexts(t, rank, owner), Contexts(t, rank, current);
    hide EraseEach, Reopens, Qualifier, IsVisible;
    var n := KeptScopes(t, rank, owner, current);
    OutermostAt(t, rank, owner, visible, n);
    NeverStartsGlobal(t, ms[..n], name);
  }

  /** The outermost hidden scope is not the outermost of all, if that one is visible and the class is inside it. */
  lemma {:induction false} HiddenHasParent(t: Scopes, rank: ScopeId -> nat, s: ScopeId, visible: seq<ScopeId>)
    requires Tree(t, rank) && s in t.parents
    requires var c := Contexts(t, rank, s); IsVisible(t, c[|c| - 1], visible)
    ensures OutermostHidden(t, rank, s, visible) in t.parents
    decreases rank(s)
  {
    hide IsVisible;
    var p := t.parents[s];
    if !IsVisible(t, p, visible) {
      assert p in t.parents;
      HiddenHasParent(t, rank, p, visible);
    }
  }

  /**
   * In one tree whose scopes all have names but for the whole unit, the qualified name of a method of a class never
   * starts with `::`.
   */
  lemma NotGlobal(t: Scopes, rank: ScopeId -> nat, owner: ScopeId, current: ScopeId, name: string)
    requires Tree(t, rank) && Reopens(t) && !KindOf(t, owner).Namespace? && owner in t.parents
    requires var ms := Contexts(t, rank, owner); IsVisible(t, ms[|ms| - 1], Contexts(t, rank, current))
    requires NoNameStartsWithColon(t) && forall s :: s in t.parents ==> NameForContext(KindOf(t, s)) != ""
    ensures var kept := EraseEach(t, Contexts(t, rank, owner), Contexts(t, rank, current) + Nominated([]), owner);
      !("::" <= Qualifier(t, kept) + name)
  {
    hide EraseEach, Reopens, Qualifier, IsVisible, KindOf, Contexts, NameForContext;
    HiddenHasParent(t, rank, owner, Contexts(t, rank, current));
    StartsGlobalExactly(t, rank, owner, current, name);
  }

  /** A class `A` in an unnamed namespace, which itself lies in the whole unit. */
  function UnnamedNamespace(): Scopes {
    Scopes(map[0 := TranslationUnit, 1 := Namespace("", "(anonymous namespace)"), 2 := Record("A")],
      map[1 := 0, 2 := 1])
  }

  /** Used outside its unnamed namespace, the method `f` of the class is written `::A::f`. */
  lemma UnnamedNamespaceStartsGlobal()
    ensures var t, rank := UnnamedNamespace(), (s: ScopeId) => s;
      Tree(t, rank) &&
      Qualifier(t, EraseEach(t, Contexts(t, rank, 2), Contexts(t, rank, 0) + Nominated([]), 2)) + "f" == "::A::f"
  {
    var t, rank := UnnamedNamespace(), (s: ScopeId) => s;
    assert Tree(t, rank);
    assert Contexts(t, rank, 0) == [0] && Contexts(t, rank, 1) == [1, 0] && Contexts(t, rank, 2) == [2, 1, 0];
    assert [0] + Nominated([]) == [0];
    assert !SameScope(t, 2, 0) && !SameScope(t, 1, 0) && SameScope(t, 0, 0);
    assert EraseOne(t, [0], 0) == [];
    assert EraseOne(t, [1, 0], 0) == [1] by { assert [1, 0][1..] == [0]; }
    assert EraseOne(t, [2, 1, 0], 0) == [2, 1] by { assert [2, 1, 0][1..] == [1, 0]; }
    assert EraseEach(t, [2, 1, 0], [0], 2) == [2, 1] by { assert [0][1..] == []; }
    assert [2, 1][1..] == [1] && [1][1..] == [];
    assert Qualifier(t, [1]) == "::";
    assert Qualifier(t, [2, 1]) == "::" + "A" + "::";
  }

  /** The class `A` in one of two openings of an unnamed namespace. */
  function ReopenedNamespace(): Scopes {
    var unnamed := Namespace("", "(anonymous namespace)");
    Scopes(map[0 := TranslationUnit, 1 := unnamed, 2 := Record("A"), 3 := unnamed], map[1 := 0, 2 := 1, 3 := 0])
  }

  function ReopenedRank(s: ScopeId): nat {
    if s == 3 then 1 else s
  }

  lemma ReopenedIsTree()
    ensures Tree(ReopenedNamespace(), ReopenedRank)
  {
  }

  lemma ReopenedReopens()
    ensures Reopens(ReopenedNamespace())
  {
    var t := ReopenedNamespace();
    forall a, b | SameScope(t, a, b) ensures a == b || (a in {1, 3} && b in {1, 3}) {
    }
  }

  lemma ContextsUnfold(t: Scopes, rank: ScopeId -> nat, s: ScopeId)
    requires Tree(t, rank)
    ensures Contexts(t, rank, s) == if s in t.parents then [s] + Contexts(t, rank, t.parents[s]) else [s]
  {
  }

  lemma ReopenedChains()
    ensures var t := ReopenedNamespace();
      Tree(t, ReopenedRank) && Reopens(t)
      && Contexts(t, ReopenedRank, 2) == [2, 1, 0] && Contexts(t, ReopenedRank, 3) == [3, 0]
  {
    hide Tree, Reopens, Contexts, ReopenedRank;
    var t := ReopenedNamespace();
    ReopenedIsTree();
    ReopenedReopens();
    ContextsUnfold(t, ReopenedRank, 0);
    ContextsUnfold(t, ReopenedRank, 1);
    ContextsUnfold(t, ReopenedRank, 2);
    ContextsUnfold(t, ReopenedRank, 3);
  }

  lemma ReopenedErased()
    ensures EraseEach(ReopenedNamespace(), [2, 1, 0], [3, 0], 2) == [2]
  {
    var t := ReopenedNamespace();
    assert SameScope(t, 1, 3) && SameScope(t, 0, 0) && !SameScope(t, 2, 3) && !SameScope(t, 2, 0);
    hide SameScope;
    assert [2, 1, 0][1..] == [1, 0] && [1, 0][1..] == [0] && [2, 0][1..] == [0] && [0][1..] == [] && [3, 0][1..] == [0];
    assert EraseOne(t, [1, 0], 3) == [0];
    assert EraseOne(t, [2, 1, 0], 3) == [2, 0];
    assert EraseOne(t, [0], 0) == [];
    assert EraseOne(t, [2, 0], 0) == [2];
    hide EraseOne;
    assert EraseEach(t, [2], [], 2) == [2];
    assert EraseEach(t, [2, 0], [0], 2) == EraseEach(t, [2], [], 2);
  }

  lemma ReopenedHidden()
    ensures var t := ReopenedNamespace();
      Tree(t, ReopenedRank) && OutermostHidden(t, ReopenedRank, 2, [3, 0]) == 2
  {
    var t := ReopenedNamespace();
    ReopenedChains();
    assert SameScope(t, 1, [3, 0][0]);
    assert IsVisible(t, 1, [3, 0]);
  }

  /** Used in the other opening, the namespace is visible, and the method is written `A::f`. */
  lemma ReopenedNamespaceIsVisible()
    ensures var t := ReopenedNamespace();
      Tree(t, ReopenedRank) && Reopens(t)
      && (var visible := Contexts(t, ReopenedRank, 3);
          OutermostHidden(t, ReopenedRank, 2, visible) == 2
          && Qualifier(t, EraseEach(t, Contexts(t, ReopenedRank, 2), visible + Nominated([]), 2)) + "f" == "A::f")
  {
    hide Contexts, EraseEach, Reopens, OutermostHidden, Tree;
    var t := ReopenedNamespace();
    ReopenedChains();
    ReopenedErased();
    ReopenedHidden();
    assert [3, 0] + Nominated([]) == [3, 0];
    assert [2][1..] == [];
    assert Qualifier(t, [2]) == "" + "A" + "::";
  }
}
