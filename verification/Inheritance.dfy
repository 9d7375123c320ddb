/** Walking the base classes of a class: `derivesFrom`, and the inheritance path it leaves behind. */
module Inheritance {
  import opened Options

  type ClassId = nat

  /**
   * The direct bases of every class, in order, where a base need not be a class; qualified names; and the
   * classes that have a definition.
   */
  datatype Hierarchy = Hierarchy(bases: map<ClassId, seq<Option<ClassId>>>, names: map<ClassId, string>,
    defined: set<ClassId>)

  function BasesOf(h: Hierarchy, c: ClassId): seq<Option<ClassId>> {
    if c in h.bases then h.bases[c] else []
  }

  predicate IsDirectBase(h: Hierarchy, base: ClassId, derived: ClassId) {
    Some(base) in BasesOf(h, derived)
  }

  /** `rank` falls from every class to its bases, so no class is its own ancestor. */
  ghost predicate Acyclic(h: Hierarchy, rank: ClassId -> nat) {
    forall b, d :: IsDirectBase(h, b, d) ==> rank(b) < rank(d)
  }

  /** `path` leads from `base` by direct inheritance to a direct base of `derived`. */
  predicate IsPath(h: Hierarchy, path: seq<ClassId>, base: ClassId, derived: ClassId) {
    && path != [] && path[0] == base
    && (forall i :: 0 <= i < |path| - 1 ==> IsDirectBase(h, path[i], path[i + 1]))
    && IsDirectBase(h, path[|path| - 1], derived)
  }

  lemma PathExtends(h: Hierarchy, path: seq<ClassId>, base: ClassId, middle: ClassId, derived: ClassId)
    requires IsPath(h, path, base, middle) && IsDirectBase(h, middle, derived)
    ensures IsPath(h, path + [middle], base, derived)
  {
    var longer := path + [middle];
    forall i | 0 <= i < |longer| - 1 ensures IsDirectBase(h, longer[i], longer[i + 1]) {
    }
  }

  /** A path ends in a direct base, which it reaches by a shorter path unless it is the base sought. */
  lemma PathEnds(h: Hierarchy, path: seq<ClassId>, base: ClassId, derived: ClassId)
    requires IsPath(h, path, base, derived)
    ensures var last := path[|path| - 1];
      IsDirectBase(h, last, derived) && (last == base || IsPath(h, path[..|path| - 1], base, last))
  {
    if |path| > 1 {
      assert IsDirectBase(h, path[|path| - 2], path[|path| - 1]);
    }
  }

  lemma PathThroughBase(h: Hierarchy, path: seq<ClassId>, base: ClassId, derived: ClassId)
    ensures IsPath(h, path, base, derived) ==>
      exists j :: 0 <= j < |BasesOf(h, derived)| && BasesOf(h, derived)[j].Some? &&
        (BasesOf(h, derived)[j] == Some(base) || IsPath(h, path[..|path| - 1], base, BasesOf(h, derived)[j].value))
  {
    if IsPath(h, path, base, derived) {
      PathEnds(h, path, base, derived);
      var j :| 0 <= j < |BasesOf(h, derived)| && BasesOf(h, derived)[j] == Some(path[|path| - 1]);
    }
  }

  lemma {:induction false} PathsDescend(h: Hierarchy, rank: ClassId -> nat, path: seq<ClassId>, base: ClassId,
      derived: ClassId)
    requires Acyclic(h, rank) && IsPath(h, path, base, derived)
    ensures rank(base) < rank(derived)
    decreases |path|
  {
    PathEnds(h, path, base, derived);
    var last := path[|path| - 1];
    if last != base {
      PathsDescend(h, rank, path[..|path| - 1], base, last);
    }
  }

  /**
   * `derivesFrom` on declarations.  It holds exactly for strict ancestors; on success the path, from the
   * base to a direct base of the derived class, has been appended to `baseClasses`, on failure nothing.
   */
  method DerivesFrom(h: Hierarchy, ghost rank: ClassId -> nat, derived: Option<ClassId>, possibleBase: Option<ClassId>,
                     baseClasses: seq<ClassId>)
    returns (result: bool, baseClasses': seq<ClassId>)
    requires Acyclic(h, rank)
    ensures result <==>
      derived.Some? && possibleBase.Some? && exists path :: IsPath(h, path, possibleBase.value, derived.value)
    ensures result ==>
      baseClasses <= baseClasses' && IsPath(h, baseClasses'[|baseClasses|..], possibleBase.value, derived.value)
    ensures !result ==> baseClasses' == baseClasses
    decreases if derived.Some? then rank(derived.value) + 1 else 0
  {
    result, baseClasses' := false, baseClasses;
    if derived.None? || possibleBase.None? || derived == possibleBase {
      if derived.Some? && possibleBase.Some? {
        forall path ensures !IsPath(h, path, possibleBase.value, derived.value) {
          if IsPath(h, path, possibleBase.value, derived.value) {
            PathsDescend(h, rank, path, possibleBase.value, derived.value);
          }
        }
      }
      return;
    }
    var d, b := derived.value, possibleBase.value;
    var bases := BasesOf(h, d);
    var k := 0;
    while k < |bases|
      invariant 0 <= k <= |bases| && baseClasses' == baseClasses
      invariant forall j :: 0 <= j < k ==> bases[j] != Some(b)
      invariant forall j, path :: 0 <= j < k && bases[j].Some? ==> !IsPath(h, path, b, bases[j].value)
    {
      var baseDecl := bases[k];
      assert baseDecl.Some? ==> IsDirectBase(h, baseDecl.value, d);
      if baseDecl == possibleBase {
        baseClasses' := baseClasses' + [b];
        assert baseClasses'[|baseClasses|..] == [b];
        assert IsPath(h, [b], b, d);
        return true, baseClasses';
      }
      var found, longer := DerivesFrom(h, rank, baseDecl, possibleBase, baseClasses');
      if found {
        ghost var path := longer[|baseClasses|..];
        PathExtends(h, path, b, baseDecl.value, d);
        baseClasses' := longer + [baseDecl.value];
        assert baseClasses'[|baseClasses|..] == path + [baseDecl.value];
        return true, baseClasses';
      }
      k := k + 1;
    }
    forall path ensures !IsPath(h, path, b, d) {
      PathThroughBase(h, path, b, d);
    }
  }

  // ----- by name -----

  function NameOf(h: Hierarchy, c: ClassId): string {
    if c in h.names then h.names[c] else ""
  }

  /** `derivesFrom` on a qualified name: the class itself counts, classes without a definition do not. */
  predicate DerivesFromName(h: Hierarchy, ghost rank: ClassId -> nat, derived: Option<ClassId>, name: string)
    requires Acyclic(h, rank)
    decreases if derived.Some? then rank(derived.value) + 1 else 0
  {
    if derived.None? || derived.value !in h.defined then false
    else if NameOf(h, derived.value) == name then true
    else
      var bases := BasesOf(h, derived.value);
      exists k :: 0 <= k < |bases| && DerivesFromName(h, rank, BaseAt(h, rank, derived.value, k), name)
  }

  /** The `k`-th direct base, which ranks below the class. */
  function BaseAt(h: Hierarchy, ghost rank: ClassId -> nat, c: ClassId, k: nat): (b: Option<ClassId>)
    requires Acyclic(h, rank) && k < |BasesOf(h, c)|
    ensures b == BasesOf(h, c)[k] && (b.Some? ==> IsDirectBase(h, b.value, c) && rank(b.value) < rank(c))
  {
    assert BasesOf(h, c)[k].Some? ==> IsDirectBase(h, BasesOf(h, c)[k].value, c);
    BasesOf(h, c)[k]
  }

  /** Defined classes, each a direct base of the one before it, down to one with the name. */
  predicate IsNamedChain(h: Hierarchy, chain: seq<ClassId>, derived: ClassId, name: string) {
    && chain != [] && chain[0] == derived
    && (forall i :: 0 <= i < |chain| ==> chain[i] in h.defined)
    && (forall i :: 0 <= i < |chain| - 1 ==> IsDirectBase(h, chain[i + 1], chain[i]))
    && NameOf(h, chain[|chain| - 1]) == name
  }

  /** By name the class itself or an ancestor is found, through defined classes only. */
  lemma {:induction false} NamedAncestor(h: Hierarchy, rank: ClassId -> nat, derived: ClassId, name: string)
    requires Acyclic(h, rank)
    ensures DerivesFromName(h, rank, Some(derived), name) <==> exists chain :: IsNamedChain(h, chain, derived, name)
    decreases rank(derived)
  {
    var bases := BasesOf(h, derived);
    if DerivesFromName(h, rank, Some(derived), name) {
      if NameOf(h, derived) == name {
        assert IsNamedChain(h, [derived], derived, name);
      } else {
        var k :| 0 <= k < |bases| && DerivesFromName(h, rank, BaseAt(h, rank, derived, k), name);
        var base := BaseAt(h, rank, derived, k).value;
        NamedAncestor(h, rank, base, name);
        var rest :| IsNamedChain(h, rest, base, name);
        ChainExtends(h, rest, base, derived, name);
      }
    }
    if chain :| IsNamedChain(h, chain, derived, name) && NameOf(h, derived) != name {
      var base := chain[1];
      assert IsDirectBase(h, chain[1], chain[0]);
      ChainTail(h, chain, derived, name);
      var k :| 0 <= k < |bases| && bases[k] == Some(base);
      NamedAncestor(h, rank, base, name);
      assert DerivesFromName(h, rank, BaseAt(h, rank, derived, k), name);
      assert chain[0] in h.defined;
    } else if chain :| IsNamedChain(h, chain, derived, name) {
      assert chain[0] in h.defined;
    }
  }

  lemma ChainExtends(h: Hierarchy, rest: seq<ClassId>, base: ClassId, derived: ClassId, name: string)
    requires IsNamedChain(h, rest, base, name) && IsDirectBase(h, base, derived) && derived in h.defined
    ensures IsNamedChain(h, [derived] + rest, derived, name)
  {
    var chain := [derived] + rest;
    forall i | 0 <= i < |chain| - 1 ensures IsDirectBase(h, chain[i + 1], chain[i]) {
      if i > 0 {
        assert IsDirectBase(h, rest[i], rest[i - 1]);
      }
    }
  }

  lemma ChainTail(h: Hierarchy, chain: seq<ClassId>, derived: ClassId, name: string)
    requires IsNamedChain(h, chain, derived, name) && |chain| > 1
    ensures IsNamedChain(h, chain[1..], chain[1], name)
  {
    var rest := chain[1..];
    forall i | 0 <= i < |rest| - 1 ensures IsDirectBase(h, rest[i + 1], rest[i]) {
      assert IsDirectBase(h, chain[i + 2], chain[i + 1]);
    }
  }
}
