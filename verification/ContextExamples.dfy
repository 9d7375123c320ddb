/** Using directives, and the names of nested scopes of every kind, written out. */
module ContextExamples {
  import opened Options
  import opened ContextNames

  /** A namespace counts as visible exactly if a directive that stands before the use names it. */
  lemma {:induction false} NominatedExactly(usings: seq<UsingDirective>, s: ScopeId)
    ensures s in Nominated(usings) <==>
      exists k :: 0 <= k < |usings| && usings[k].namespace_ == Some(s) && usings[k].beforeUse
    decreases |usings|
  {
    if usings != [] {
      NominatedExactly(usings[1..], s);
      assert forall k :: 0 <= k < |usings| - 1 ==> usings[1..][k] == usings[k + 1];
      if k :| 0 <= k < |usings| && usings[k].namespace_ == Some(s) && usings[k].beforeUse {
        assert k > 0 ==> usings[1..][k - 1] == usings[k];
      }
    }
  }

  /** The class `L` in the function `g` of the class `A` in the namespace `N`. */
  function Nested(): Scopes {
    Scopes(map[0 := TranslationUnit, 1 := Namespace("N", "N"), 2 := Record("A"), 3 := Function("g"), 4 := Record("L")],
      map[1 := 0, 2 := 1, 3 := 2, 4 := 3])
  }

  function Depth(s: ScopeId): nat {
    s
  }

  lemma NestedIsTree()
    ensures Tree(Nested(), Depth)
  {
  }

  lemma NestedChains()
    ensures Tree(Nested(), Depth)
    ensures Contexts(Nested(), Depth, 0) == [0] && Contexts(Nested(), Depth, 1) == [1, 0]
    ensures Contexts(Nested(), Depth, 2) == [2, 1, 0] && Contexts(Nested(), Depth, 4) == [4, 3, 2, 1, 0]
  {
    hide Tree, Contexts, Depth;
    var t := Nested();
    NestedIsTree();
    ContextsUnfold(t, Depth, 0);
    ContextsUnfold(t, Depth, 1);
    ContextsUnfold(t, Depth, 2);
    ContextsUnfold(t, Depth, 3);
    ContextsUnfold(t, Depth, 4);
  }

  lemma AllDifferent(a: ScopeId, b: ScopeId)
    requires a <= 4 && b <= 4
    ensures SameScope(Nested(), a, b) <==> a == b
  {
  }

  /** The unit's own scope is the outermost of every chain, and is erased. */
  lemma UnitErased(front: seq<ScopeId>)
    requires forall s :: s in front ==> 1 <= s <= 4
    ensures EraseOne(Nested(), front + [0], 0) == front
  {
    var ms := front + [0];
    forall j | 0 <= j < |front| ensures !SameScope(Nested(), ms[j], 0) {
      assert ms[j] in front;
      AllDifferent(ms[j], 0);
    }
    EraseAt(Nested(), ms, 0, |front|);
    assert ms[..|front|] + ms[|front| + 1..] == front;
  }

  lemma NamespaceErased(front: seq<ScopeId>)
    requires forall s :: s in front ==> 2 <= s <= 4
    ensures EraseOne(Nested(), front + [1], 1) == front
  {
    var ms := front + [1];
    forall j | 0 <= j < |front| ensures !SameScope(Nested(), ms[j], 1) {
      assert ms[j] in front;
      AllDifferent(ms[j], 1);
    }
    EraseAt(Nested(), ms, 1, |front|);
    assert ms[..|front|] + ms[|front| + 1..] == front;
  }

  lemma ErasedInTurn(t: Scopes, ms: seq<ScopeId>, visible: seq<ScopeId>, owner: ScopeId)
    ensures EraseEach(t, ms, [], owner) == ms
    ensures visible != [] && visible[0] != owner ==>
      EraseEach(t, ms, visible, owner) == EraseEach(t, EraseOne(t, ms, visible[0]), visible[1..], owner)
  {
  }

  lemma Qualifiers()
    ensures var t := Nested();
      Qualifier(t, [2, 1]) == "N::A::" && Qualifier(t, [2]) == "A::" && Qualifier(t, [4, 3, 2, 1]) == "N::A::g::L::"
  {
    var t := Nested();
    assert Qualifier(t, []) == "";
    assert [4, 3, 2, 1][1..] == [3, 2, 1] && [3, 2, 1][1..] == [2, 1] && [2, 1][1..] == [1] && [1][1..] == [];
    assert [2][1..] == [];
    assert Qualifier(t, [1]) == "N::" && Qualifier(t, [2]) == "A::";
    assert Qualifier(t, [2, 1]) == "N::A::";
    assert Qualifier(t, [3, 2, 1]) == "N::A::g::";
  }

  /** What a method of class `owner` is written with, at the unit's own scope. */
  function WrittenAtUnit(owner: ScopeId, usings: seq<UsingDirective>): string {
    NestedIsTree();
    Qualifier(Nested(), EraseEach(Nested(), Contexts(Nested(), Depth, owner),
                                  Contexts(Nested(), Depth, 0) + Nominated(usings), owner))
  }

  /** Outside all of them, a method is qualified by every scope around it. */
  lemma AllScopesNamed()
    ensures WrittenAtUnit(2, []) == "N::A::" && WrittenAtUnit(4, []) == "N::A::g::L::"
  {
    hide Contexts, EraseEach, EraseOne, Qualifier;
    NestedChains();
    Qualifiers();
    UnitErased([2, 1]);
    UnitErased([4, 3, 2, 1]);
    assert [2, 1] + [0] == [2, 1, 0] && [4, 3, 2, 1] + [0] == [4, 3, 2, 1, 0];
    assert [0] + Nominated([]) == [0] && [0][1..] == [];
    ErasedInTurn(Nested(), [2, 1, 0], [0], 2);
    ErasedInTurn(Nested(), [4, 3, 2, 1, 0], [0], 4);
    ErasedInTurn(Nested(), [2, 1], [], 2);
    ErasedInTurn(Nested(), [4, 3, 2, 1], [], 4);
  }

  /** A directive for `N` takes the namespace off, but only if it stands before the use. */
  lemma DirectiveBeforeUse(beforeUse: bool)
    ensures WrittenAtUnit(2, [UsingDirective(Some(1), beforeUse)]) == if beforeUse then "A::" else "N::A::"
  {
    hide Contexts, EraseEach, EraseOne, Qualifier;
    var u := UsingDirective(Some(1), beforeUse);
    NestedChains();
    Qualifiers();
    UnitErased([2, 1]);
    NamespaceErased([2]);
    assert [2, 1] + [0] == [2, 1, 0] && [2] + [1] == [2, 1] && [u][1..] == [];
    assert Nominated([u]) == if beforeUse then [1] else [];
    assert [0] + [1] == [0, 1] && [0] + [] == [0];
    assert [0, 1][1..] == [1] && [1][1..] == [] && [0][1..] == [];
    ErasedInTurn(Nested(), [2, 1, 0], [0, 1], 2);
    ErasedInTurn(Nested(), [2, 1, 0], [0], 2);
    ErasedInTurn(Nested(), [2, 1], [1], 2);
    ErasedInTurn(Nested(), [2], [], 2);
    ErasedInTurn(Nested(), [2, 1], [], 2);
  }
}
