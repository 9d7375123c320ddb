/** The search for pure virtual calls below a constructor or destructor. */
module VirtualCalls {
  import opened Options
  import opened MemberCalls

  type BodyId = nat
  type ClassId = nat

  datatype Method = Method(parent: ClassId, pureVirtual: bool, body: Option<BodyId>)

  datatype Program = Program(bodies: map<BodyId, Stmt>, methods: map<MethodId, Method>) {
    /** Every call names a known method, and every body is known. */
    ghost predicate Valid() {
      && (forall b, c :: b in bodies && c in CallsIn(bodies[b]) && c.callee.Some? ==> c.callee.value in methods)
      && (forall m :: m in methods && methods[m].body.Some? ==> methods[m].body.value in bodies)
    }
  }

  // ----- chains of calls -----

  /** A call on `this` to a method of the class itself. */
  predicate IsOwnCall(prog: Program, cls: ClassId, c: Call) {
    c.callee.Some? && c.onThis && c.callee.value in prog.methods && prog.methods[c.callee.value].parent == cls
  }

  predicate CallsPure(prog: Program, c: Call)
    requires c.callee.Some? && c.callee.value in prog.methods
  {
    prog.methods[c.callee.value].pureVirtual
  }

  function BodyCalled(prog: Program, c: Call): Option<BodyId>
    requires c.callee.Some? && c.callee.value in prog.methods
  {
    prog.methods[c.callee.value].body
  }

  /** Own calls lead from body `b` through bodies outside `avoid` to a pure virtual method. */
  predicate Reaches(prog: Program, cls: ClassId, avoid: set<BodyId>, b: BodyId, chain: seq<Call>)
    decreases |chain|
  {
    && chain != [] && b in prog.bodies && chain[0] in CallsIn(prog.bodies[b]) && IsOwnCall(prog, cls, chain[0])
    && (if |chain| == 1 then CallsPure(prog, chain[0])
        else var next := BodyCalled(prog, chain[0]);
          next.Some? && next.value !in avoid && Reaches(prog, cls, avoid, next.value, chain[1..]))
  }

  lemma {:induction false} AvoidingLess(prog: Program, cls: ClassId, avoid: set<BodyId>, less: set<BodyId>, b: BodyId,
      chain: seq<Call>)
    requires less <= avoid && Reaches(prog, cls, avoid, b, chain)
    ensures Reaches(prog, cls, less, b, chain)
    decreases |chain|
  {
    if |chain| > 1 {
      AvoidingLess(prog, cls, avoid, less, BodyCalled(prog, chain[0]).value, chain[1..]);
    }
  }

  // ----- what the visited bodies are known to contain -----

  /** No own call of `u` is pure, and the bodies they lead to are all in `visited`. */
  ghost predicate Settled(prog: Program, cls: ClassId, u: BodyId, visited: set<BodyId>) {
    u in prog.bodies &&
    forall c :: c in CallsIn(prog.bodies[u]) && IsOwnCall(prog, cls, c) ==>
      !CallsPure(prog, c) && (BodyCalled(prog, c).Some? ==> BodyCalled(prog, c).value in visited)
  }

  ghost predicate ClosedExcept(prog: Program, cls: ClassId, visited: set<BodyId>, open: set<BodyId>) {
    forall u :: u in visited && u !in open ==> Settled(prog, cls, u, visited)
  }

  /** From a settled region no chain gets out but through `open`. */
  lemma {:induction false} NoChainFromClosed(prog: Program, cls: ClassId, visited: set<BodyId>, open: set<BodyId>,
      u: BodyId, chain: seq<Call>)
    requires ClosedExcept(prog, cls, visited, open) && u in visited && u !in open
    ensures !Reaches(prog, cls, open, u, chain)
    decreases |chain|
  {
    assert Settled(prog, cls, u, visited);
    if Reaches(prog, cls, open, u, chain) && |chain| > 1 {
      NoChainFromClosed(prog, cls, visited, open, BodyCalled(prog, chain[0]).value, chain[1..]);
    }
  }

  /** `i` is the first call of body `b` that starts a chain which does not come back to `avoid`. */
  ghost predicate FirstToReach(prog: Program, cls: ClassId, avoid: set<BodyId>, b: BodyId, i: nat)
    requires b in prog.bodies
  {
    var calls := CallsIn(prog.bodies[b]);
    && i < |calls|
    && (exists chain :: Reaches(prog, cls, avoid, b, chain) && chain[0] == calls[i])
    && (forall j, chain :: 0 <= j < i && Reaches(prog, cls, avoid, b, chain) ==> chain[0] != calls[j])
  }

  function SetOf(s: seq<BodyId>): set<BodyId> {
    set x | x in s
  }

  /** A pure call, or one whose body reaches a pure method, extends to a chain from here. */
  lemma ExtendChain(prog: Program, cls: ClassId, open: set<BodyId>, b: BodyId, i: nat, next: Option<nat>)
    requires b in prog.bodies && i < |CallsIn(prog.bodies[b])|
    requires var c := CallsIn(prog.bodies[b])[i];
      IsOwnCall(prog, cls, c) &&
      (CallsPure(prog, c) ||
       (var body := BodyCalled(prog, c);
        next.Some? && body.Some? && body.value in prog.bodies && body.value !in open + {b}
        && FirstToReach(prog, cls, open + {b} + {body.value}, body.value, next.value)))
    ensures exists chain :: Reaches(prog, cls, open + {b}, b, chain) && chain[0] == CallsIn(prog.bodies[b])[i]
  {
    var c := CallsIn(prog.bodies[b])[i];
    if CallsPure(prog, c) {
      assert Reaches(prog, cls, open + {b}, b, [c]);
      assert [c][0] == c;
    } else {
      var body := BodyCalled(prog, c).value;
      var wide := open + {b} + {body};
      var rest :| Reaches(prog, cls, wide, body, rest);
      AvoidingLess(prog, cls, wide, open + {b}, body, rest);
      var chain := [c] + rest;
      assert chain[1..] == rest && chain[0] == c;
      assert Reaches(prog, cls, open + {b}, b, chain);
    }
  }

  /** What `Settled` asks of a body's calls. */
  ghost predicate CallsDone(prog: Program, cls: ClassId, calls: seq<Call>, visited: set<BodyId>) {
    forall c :: c in calls && IsOwnCall(prog, cls, c) ==>
      !CallsPure(prog, c) && (BodyCalled(prog, c).Some? ==> BodyCalled(prog, c).value in visited)
  }

  lemma CallsKnown(prog: Program, b: BodyId, k: nat)
    requires prog.Valid() && b in prog.bodies && k < |CallsIn(prog.bodies[b])|
    ensures var c := CallsIn(prog.bodies[b])[k];
      c.callee.Some? ==>
        (c.callee.value in prog.methods
         && (prog.methods[c.callee.value].body.Some? ==> prog.methods[c.callee.value].body.value in prog.bodies))
  {
    assert CallsIn(prog.bodies[b])[k] in CallsIn(prog.bodies[b]);
  }

  lemma OneMoreDone(prog: Program, cls: ClassId, calls: seq<Call>, k: nat, visited: set<BodyId>)
    requires k < |calls| && CallsDone(prog, cls, calls[..k], visited)
    requires var c := calls[k]; IsOwnCall(prog, cls, c) ==>
      !CallsPure(prog, c) && (BodyCalled(prog, c).Some? ==> BodyCalled(prog, c).value in visited)
    ensures CallsDone(prog, cls, calls[..k + 1], visited)
  {
    assert calls[..k + 1] == calls[..k] + [calls[k]];
  }

  lemma BodyAdded(prog: Program, cls: ClassId, visited: set<BodyId>, open: set<BodyId>, b: BodyId)
    requires ClosedExcept(prog, cls, visited, open)
    ensures ClosedExcept(prog, cls, visited + {b}, open + {b})
  {
    forall u | u in visited + {b} && u !in open + {b} ensures Settled(prog, cls, u, visited + {b}) {
      assert Settled(prog, cls, u, visited);
    }
  }

  /** No call of `b` before `k` starts a chain that stays out of the open bodies. */
  lemma NoneBefore(prog: Program, cls: ClassId, visited: set<BodyId>, inner: set<BodyId>, b: BodyId, k: nat)
    requires b in prog.bodies && k <= |CallsIn(prog.bodies[b])|
    requires ClosedExcept(prog, cls, visited, inner)
    requires CallsDone(prog, cls, CallsIn(prog.bodies[b])[..k], visited)
    ensures forall j, chain :: 0 <= j < k && Reaches(prog, cls, inner, b, chain) ==>
      chain[0] != CallsIn(prog.bodies[b])[j]
  {
    var calls := CallsIn(prog.bodies[b]);
    forall j, chain | 0 <= j < k && Reaches(prog, cls, inner, b, chain) ensures chain[0] != calls[j] {
      if chain[0] == calls[j] {
        assert chain[0] == calls[..k][j] && chain[0] in calls[..k];
        NoChainFromClosed(prog, cls, visited, inner, BodyCalled(prog, chain[0]).value, chain[1..]);
      }
    }
  }

  /** The search state: the bodies that were entered, in order. */
  class Search {
    var processed: seq<BodyId>

    constructor ()
      ensures processed == []
    {
      processed := [];
    }

    /**
     * `containsVirtualCall`.  `open` are the bodies whose own search has not returned yet; the
     * others are settled.  On failure the new ones are settled as well, on success the call found is
     * the first one that starts a chain not coming back to an open body.
     */
    method ContainsVirtualCall(prog: Program, cls: ClassId, stmt: Option<BodyId>, ghost open: set<BodyId>)
      returns (loc: Option<Loc>, ghost found: nat)
      requires prog.Valid() && (stmt.Some? ==> stmt.value in prog.bodies)
      requires open <= SetOf(processed) <= prog.bodies.Keys
      requires ClosedExcept(prog, cls, SetOf(processed), open)
      modifies this
      ensures SetOf(old(processed)) <= SetOf(processed) <= prog.bodies.Keys
      ensures loc.None? ==> ClosedExcept(prog, cls, SetOf(processed), open)
      ensures loc.None? && stmt.Some? ==> stmt.value in processed
      ensures loc.Some? ==> stmt.Some? && stmt.value !in old(processed)
      ensures loc.Some? ==> FirstToReach(prog, cls, open + {stmt.value}, stmt.value, found)
      ensures loc.Some? ==> loc.value == CallsIn(prog.bodies[stmt.value])[found].loc
      decreases prog.bodies.Keys - SetOf(processed)
    {
      found := 0;
      if stmt.None? {
        return None, 0;
      }
      var b := stmt.value;
      if b in processed {
        return None, 0;
      }
      processed := processed + [b];
      var memberCalls := GetChildsIgnoreLambda(prog.bodies[b], []);
      ghost var calls := CallsIn(prog.bodies[b]);
      assert [] + calls == calls;
      ghost var inner := open + {b};
      BodyAdded(prog, cls, SetOf(old(processed)), open, b);
      assert SetOf(processed) == SetOf(old(processed)) + {b};
      var k := 0;
      while k < |memberCalls|
        invariant 0 <= k <= |memberCalls| && memberCalls == calls
        invariant SetOf(old(processed)) + {b} <= SetOf(processed) <= prog.bodies.Keys
        invariant ClosedExcept(prog, cls, SetOf(processed), inner)
        invariant CallsDone(prog, cls, calls[..k], SetOf(processed))
      {
        var callExpr := memberCalls[k];
        CallsKnown(prog, b, k);
        if callExpr.callee.Some? && callExpr.onThis {
          var memberDecl := prog.methods[callExpr.callee.value];
          if memberDecl.parent == cls {
            NoneBefore(prog, cls, SetOf(processed), inner, b, k);
            if memberDecl.pureVirtual {
              ExtendChain(prog, cls, open, b, k, None);
              return Some(callExpr.loc), k;
            }
            var deeper;
            ghost var next;
            deeper, next := ContainsVirtualCall(prog, cls, memberDecl.body, inner);
            if deeper.Some? {
              ExtendChain(prog, cls, open, b, k, Some(next));
              return Some(callExpr.loc), k;
            }
          }
        }
        OneMoreDone(prog, cls, calls, k, SetOf(processed));
        k := k + 1;
      }
      assert calls[..k] == calls;
      return None, 0;
    }
  }

  datatype Decl =
    | Constructor(parent: ClassId, body: Option<BodyId>, loc: Loc)
    | Destructor(parent: ClassId, body: Option<BodyId>, loc: Loc)
    | OtherDecl

  /** The pure virtual method is reached from the body at all. */
  ghost predicate ReachesPure(prog: Program, cls: ClassId, b: BodyId) {
    exists chain :: Reaches(prog, cls, {}, b, chain)
  }

  /** An own call to a pure virtual method, or to one whose body reaches a pure virtual method. */
  ghost predicate CallReaches(prog: Program, cls: ClassId, c: Call) {
    IsOwnCall(prog, cls, c) &&
    var m := prog.methods[c.callee.value];
    m.pureVirtual || (m.body.Some? && ReachesPure(prog, cls, m.body.value))
  }

  lemma ChainGoesOn(prog: Program, cls: ClassId, b: BodyId, path: seq<nat>, c: Call)
    requires b in prog.bodies && LeadsTo(prog.bodies[b], path, c) && CallReaches(prog, cls, c)
    ensures ReachesPure(prog, cls, b)
  {
    hide LeadsTo;
    InCallsExactly(prog.bodies[b], c);
    if CallsPure(prog, c) {
      assert [c][0] == c;
      assert Reaches(prog, cls, {}, b, [c]);
    } else {
      var next := BodyCalled(prog, c).value;
      var rest := SomeChain(prog, cls, next);
      var chain := [c] + rest;
      assert chain[0] == c && chain[1..] == rest;
      assert Reaches(prog, cls, {}, b, chain);
    }
  }

  /**
   * A body reaches a pure virtual method if and only if some own call of it outside lambdas names one, or names a
   * method whose body reaches one.
   */
  lemma ReachesExactly(prog: Program, cls: ClassId, b: BodyId)
    requires b in prog.bodies
    ensures ReachesPure(prog, cls, b) <==>
      exists path, c :: LeadsTo(prog.bodies[b], path, c) && CallReaches(prog, cls, c)
  {
    hide LeadsTo, ReachesPure;
    if ReachesPure(prog, cls, b) {
      var chain := SomeChain(prog, cls, b);
      InCallsExactly(prog.bodies[b], chain[0]);
      var path :| LeadsTo(prog.bodies[b], path, chain[0]);
      if |chain| > 1 {
        IsChain(prog, cls, BodyCalled(prog, chain[0]).value, chain[1..]);
      }
    }
    if path, c :| LeadsTo(prog.bodies[b], path, c) && CallReaches(prog, cls, c) {
      ChainGoesOn(prog, cls, b, path, c);
    }
  }

  lemma SomeChain(prog: Program, cls: ClassId, b: BodyId) returns (chain: seq<Call>)
    requires ReachesPure(prog, cls, b)
    ensures chain != [] && Reaches(prog, cls, {}, b, chain)
  {
    chain :| Reaches(prog, cls, {}, b, chain);
  }

  lemma IsChain(prog: Program, cls: ClassId, b: BodyId, chain: seq<Call>)
    requires Reaches(prog, cls, {}, b, chain)
    ensures ReachesPure(prog, cls, b)
  {
  }

  // ----- calls inside lambdas -----

  /** Every own call of the body lies in a lambda. */
  ghost predicate OnlyInLambdas(prog: Program, cls: ClassId, b: BodyId)
    requires b in prog.bodies
  {
    forall path, c :: LeadsTo(prog.bodies[b], path, c) ==> !IsOwnCall(prog, cls, c)
  }

  lemma LambdasAreSilent(prog: Program, cls: ClassId, b: BodyId)
    requires b in prog.bodies && OnlyInLambdas(prog, cls, b)
    ensures !ReachesPure(prog, cls, b)
  {
    hide LeadsTo;
    forall chain ensures !Reaches(prog, cls, {}, b, chain) {
      if Reaches(prog, cls, {}, b, chain) {
        InCallsExactly(prog.bodies[b], chain[0]);
      }
    }
  }

  /**
   * `VisitDecl`: the warnings emitted for a declaration, in order.  A body whose own calls all lie in lambdas gets
   * none.
   */
  method VisitDecl(prog: Program, decl: Decl) returns (warnings: seq<(Loc, string)>)
    requires prog.Valid()
    requires !decl.OtherDecl? && decl.body.Some? ==> decl.body.value in prog.bodies
    ensures warnings != [] <==> !decl.OtherDecl? && decl.body.Some? && ReachesPure(prog, decl.parent, decl.body.value)
    ensures warnings != [] ==> exists k: nat ::
      FirstToReach(prog, decl.parent, {decl.body.value}, decl.body.value, k) &&
      warnings == [(decl.loc, if decl.Constructor? then "Calling pure virtual function in CTOR"
                              else "Calling pure virtual function in DTOR"),
                   (CallsIn(prog.bodies[decl.body.value])[k].loc, "Called here")]
    ensures !decl.OtherDecl? && decl.body.Some? && OnlyInLambdas(prog, decl.parent, decl.body.value) ==> warnings == []
  {
    warnings := [];
    if decl.OtherDecl? || decl.body.None? {
      return;
    }
    var search := new Search();
    var loc;
    ghost var found;
    var b := decl.body.value;
    loc, found := search.ContainsVirtualCall(prog, decl.parent, decl.body, {});
    hide LeadsTo, OnlyInLambdas;
    if OnlyInLambdas(prog, decl.parent, b) {
      LambdasAreSilent(prog, decl.parent, b);
    }
    if loc.Some? {
      var message := "Calling pure virtual function in DTOR";
      if decl.Constructor? {
        message := "Calling pure virtual function in CTOR";
      }
      warnings := [(decl.loc, message), (loc.value, "Called here")];
      assert {} + {b} == {b};
      ghost var chain :| Reaches(prog, decl.parent, {b}, b, chain);
      AvoidingLess(prog, decl.parent, {b}, {}, b, chain);
    } else {
      forall chain ensures !Reaches(prog, decl.parent, {}, b, chain) {
        NoChainFromClosed(prog, decl.parent, SetOf(search.processed), {}, b, chain);
      }
    }
  }

  /** A pure virtual method of class 0, another of class 1, and a constructor body of class 0. */
  function OneCall(body: Stmt): Program {
    Program(map[0 := body], map[0 := Method(0, true, None), 1 := Method(1, true, None)])
  }

  /** A call as the only statement is reported exactly if it names the class's own method on `this`. */
  lemma DirectCall(c: Call)
    requires c.callee != None ==> c.callee.value <= 1
    ensures ReachesPure(OneCall(OtherStmt([MemberCallExpr(c, [])])), 0, 0) <==> c.callee == Some(0) && c.onThis
  {
    var s := OtherStmt([MemberCallExpr(c, [])]);
    var prog := OneCall(s);
    assert CallsIn(s) == [c] by {
      assert CallsIn(MemberCallExpr(c, [])) == [c] + [];
      assert [MemberCallExpr(c, [])][1..] == [];
    }
    if c.callee == Some(0) && c.onThis {
      assert Reaches(prog, 0, {}, 0, [c]);
    }
    forall chain | Reaches(prog, 0, {}, 0, chain) ensures c.callee == Some(0) && c.onThis {
      assert chain[0] in [c];
    }
  }

  lemma NothingInLambda(s: Stmt, path: seq<nat>, c: Call)
    requires s.LambdaExpr?
    ensures !LeadsTo(s, path, c)
  {
  }

  /** The same call inside a lambda is not reported. */
  lemma CallInLambda(c: Call)
    ensures !ReachesPure(OneCall(OtherStmt([LambdaExpr([MemberCallExpr(c, [])])])), 0, 0)
  {
    var s := OtherStmt([LambdaExpr([MemberCallExpr(c, [])])]);
    var prog := OneCall(s);
    forall path, d ensures !LeadsTo(prog.bodies[0], path, d) {
      NothingInLambda(LambdaExpr([MemberCallExpr(c, [])]), path[if path == [] then 0 else 1..], d);
    }
    LambdasAreSilent(prog, 0, 0);
  }
}
