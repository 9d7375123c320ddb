/** The member calls of a statement that the search for pure virtual calls looks at. */
module MemberCalls {
  import opened Options

  type MethodId = nat
  type Loc = nat

  /** A member call: where it begins, the method it names, and whether its object is `this`. */
  datatype Call = Call(loc: Loc, callee: Option<MethodId>, onThis: bool)

  datatype Stmt =
    | NullStmt
    | LambdaExpr(children: seq<Stmt>)
    | MemberCallExpr(call: Call, children: seq<Stmt>)
    | OtherStmt(children: seq<Stmt>)

  /** The member calls of a statement outside lambdas, outer before inner, left to right. */
  function CallsIn(s: Stmt): seq<Call> {
    match s
    case NullStmt => []
    case LambdaExpr(_) => []
    case MemberCallExpr(call, children) => [call] + CallsInAll(children)
    case OtherStmt(children) => CallsInAll(children)
  }

  function CallsInAll(ss: seq<Stmt>): seq<Call> {
    if ss == [] then [] else CallsIn(ss[0]) + CallsInAll(ss[1..])
  }

  /** `getChildsIgnoreLambda` without a depth limit: appends to the list it is given. */
  method GetChildsIgnoreLambda(stmt: Stmt, list: seq<Call>) returns (resultList: seq<Call>)
    ensures resultList == list + CallsIn(stmt)
  {
    resultList := list;
    if stmt.NullStmt? || stmt.LambdaExpr? {
      return;
    }
    if stmt.MemberCallExpr? {
      resultList := resultList + [stmt.call];
    }
    ghost var start := resultList;
    var k := 0;
    assert stmt.children[0..] == stmt.children;
    while k < |stmt.children|
      invariant 0 <= k <= |stmt.children|
      invariant resultList + CallsInAll(stmt.children[k..]) == start + CallsInAll(stmt.children)
    {
      assert stmt.children[k..][1..] == stmt.children[k + 1..];
      assert resultList + (CallsIn(stmt.children[k]) + CallsInAll(stmt.children[k + 1..]))
          == resultList + CallsIn(stmt.children[k]) + CallsInAll(stmt.children[k + 1..]);
      resultList := GetChildsIgnoreLambda(stmt.children[k], resultList);
      k := k + 1;
    }
    assert stmt.children[0..] == stmt.children && stmt.children[k..] == [];
    assert resultList == start + CallsInAll(stmt.children);
    if stmt.MemberCallExpr? {
      assert list + [stmt.call] + CallsInAll(stmt.children) == list + ([stmt.call] + CallsInAll(stmt.children));
    }
  }

  // ----- the paths to the calls -----

  function Below(s: Stmt): seq<Stmt> {
    match s
    case NullStmt => []
    case LambdaExpr(children) => children
    case MemberCallExpr(_, children) => children
    case OtherStmt(children) => children
  }

  /** Going down from `s` to the child with each index in turn ends at the call, and goes through no lambda. */
  predicate LeadsTo(s: Stmt, path: seq<nat>, c: Call)
    decreases |path|
  {
    if path == [] then s.MemberCallExpr? && s.call == c
    else !s.LambdaExpr? && path[0] < |Below(s)| && LeadsTo(Below(s)[path[0]], path[1..], c)
  }

  /** Outer before inner, then left to right. */
  predicate Before(p: seq<nat>, q: seq<nat>)
    decreases |p|
  {
    q != [] && (p == [] || p[0] < q[0] || (p[0] == q[0] && Before(p[1..], q[1..])))
  }

  /** All the paths to calls, in their order, with the calls at their ends. */
  ghost predicate Lists(s: Stmt, paths: seq<seq<nat>>, calls: seq<Call>) {
    && |paths| == |calls|
    && (forall i :: 0 <= i < |paths| ==> LeadsTo(s, paths[i], calls[i]))
    && (forall i, j :: 0 <= i < j < |paths| ==> Before(paths[i], paths[j]))
    && (forall p, c :: LeadsTo(s, p, c) ==> p in paths)
  }

  /** The same for the paths that start at child `k` or later. */
  ghost predicate ListsFrom(s: Stmt, k: nat, paths: seq<seq<nat>>, calls: seq<Call>) {
    && |paths| == |calls|
    && (forall i :: 0 <= i < |paths| ==> paths[i] != [] && paths[i][0] >= k && LeadsTo(s, paths[i], calls[i]))
    && (forall i, j :: 0 <= i < j < |paths| ==> Before(paths[i], paths[j]))
    && (forall p, c :: p != [] && p[0] >= k && LeadsTo(s, p, c) ==> p in paths)
  }

  function Under(k: nat, paths: seq<seq<nat>>): (r: seq<seq<nat>>)
    ensures |r| == |paths| && forall i :: 0 <= i < |r| ==> r[i] == [k] + paths[i]
  {
    seq(|paths|, i requires 0 <= i < |paths| => [k] + paths[i])
  }

  lemma DownOne(s: Stmt, k: nat, path: seq<nat>, c: Call)
    ensures LeadsTo(s, [k] + path, c) <==> !s.LambdaExpr? && k < |Below(s)| && LeadsTo(Below(s)[k], path, c)
  {
    assert ([k] + path)[1..] == path;
  }

  lemma BeforeUnder(k: nat, p: seq<nat>, q: seq<nat>)
    ensures Before([k] + p, [k] + q) <==> Before(p, q)
  {
    assert ([k] + p)[1..] == p && ([k] + q)[1..] == q;
  }

  /** The lists of child `k` and of the later children, put together. */
  lemma ListsStep(s: Stmt, k: nat, first: seq<seq<nat>>, here: seq<Call>, later: seq<seq<nat>>, rest: seq<Call>)
    requires !s.LambdaExpr? && k < |Below(s)|
    requires Lists(Below(s)[k], first, here) && ListsFrom(s, k + 1, later, rest)
    ensures ListsFrom(s, k, Under(k, first) + later, here + rest)
  {
    hide LeadsTo;
    var under := Under(k, first);
    var paths, calls := under + later, here + rest;
    forall i | 0 <= i < |paths| ensures paths[i] != [] && paths[i][0] >= k && LeadsTo(s, paths[i], calls[i]) {
      if i < |under| {
        DownOne(s, k, first[i], here[i]);
      }
    }
    forall i, j | 0 <= i < j < |paths| ensures Before(paths[i], paths[j]) {
      if j < |under| {
        BeforeUnder(k, first[i], first[j]);
      }
    }
    forall p, c | p != [] && p[0] >= k && LeadsTo(s, p, c) ensures p in paths {
      if p[0] == k {
        assert p == [k] + p[1..];
        DownOne(s, k, p[1..], c);
        var i :| 0 <= i < |first| && first[i] == p[1..];
        assert paths[i] == p;
      }
    }
  }

  lemma {:induction false} CollectedBelow(s: Stmt, k: nat) returns (paths: seq<seq<nat>>)
    requires !s.LambdaExpr? && k <= |Below(s)|
    ensures ListsFrom(s, k, paths, CallsInAll(Below(s)[k..]))
    decreases s, 0, |Below(s)| - k
  {
    var children := Below(s);
    if k == |children| {
      paths := [];
    } else {
      var first := Collected(children[k]);
      var later := CollectedBelow(s, k + 1);
      assert children[k..][0] == children[k] && children[k..][1..] == children[k + 1..];
      ListsStep(s, k, first, CallsIn(children[k]), later, CallsInAll(children[k + 1..]));
      paths := Under(k, first) + later;
    }
  }

  lemma {:induction false} Collected(s: Stmt) returns (paths: seq<seq<nat>>)
    ensures Lists(s, paths, CallsIn(s))
    decreases s, 1
  {
    if s.NullStmt? || s.LambdaExpr? {
      paths := [];
    } else {
      var below := CollectedBelow(s, 0);
      assert Below(s)[0..] == Below(s);
      if s.MemberCallExpr? {
        paths := [[]] + below;
        OwnCallFirst(s, below, CallsInAll(Below(s)));
      } else {
        paths := below;
        assert forall p, c :: LeadsTo(s, p, c) ==> p != [];
      }
    }
  }

  lemma OwnCallFirst(s: Stmt, below: seq<seq<nat>>, calls: seq<Call>)
    requires s.MemberCallExpr? && ListsFrom(s, 0, below, calls)
    ensures Lists(s, [[]] + below, [s.call] + calls)
  {
    var paths, all := [[]] + below, [s.call] + calls;
    forall i | 0 <= i < |paths| ensures LeadsTo(s, paths[i], all[i]) {
    }
    hide LeadsTo;
    forall i, j | 0 <= i < j < |paths| ensures Before(paths[i], paths[j]) {
    }
    forall p, c | LeadsTo(s, p, c) ensures p in paths {
      assert p == [] ==> paths[0] == p;
    }
  }

  /** One path leads to one call. */
  lemma {:induction false} OneEnd(s: Stmt, path: seq<nat>, c: Call, d: Call)
    requires LeadsTo(s, path, c) && LeadsTo(s, path, d)
    ensures c == d
    decreases |path|
  {
    if path != [] {
      OneEnd(Below(s)[path[0]], path[1..], c, d);
    }
  }

  lemma InCallsExactly(s: Stmt, c: Call)
    ensures c in CallsIn(s) <==> exists path :: LeadsTo(s, path, c)
  {
    hide LeadsTo, CallsIn;
    var paths := Collected(s);
    if c in CallsIn(s) {
      var i :| 0 <= i < |CallsIn(s)| && CallsIn(s)[i] == c;
      assert LeadsTo(s, paths[i], c);
    }
    if path :| LeadsTo(s, path, c) {
      var i :| 0 <= i < |paths| && paths[i] == path;
      OneEnd(s, path, c, CallsIn(s)[i]);
    }
  }

  /** The calls collected are those a path through no lambda leads to, each path once and in the order of the paths. */
  lemma CollectedInOrder(s: Stmt, calls: seq<Call>)
    ensures calls == CallsIn(s) <==> exists paths :: Lists(s, paths, calls)
  {
    hide CallsIn, Lists;
    var paths := Collected(s);
    if paths' :| Lists(s, paths', calls) {
      OneList(s, paths, CallsIn(s), paths', calls);
    }
  }

  /** Two lists that agree up to `k` have the same path there, or both end. */
  lemma NextPath(s: Stmt, p: seq<seq<nat>>, a: seq<Call>, q: seq<seq<nat>>, b: seq<Call>, k: nat)
    requires Lists(s, p, a) && Lists(s, q, b) && k < |p| && k <= |q| && p[..k] == q[..k]
    ensures k < |q| && (p[k] == q[k] || Before(q[k], p[k]))
  {
    hide LeadsTo, Before;
    assert LeadsTo(s, p[k], a[k]);
    var i :| 0 <= i < |q| && q[i] == p[k];
    if i < k {
      assert p[i] == p[..k][i] == q[..k][i];
      NotBeforeItself(p[k]);
      assert false;
    }
  }

  /** Up to its `k`-th path one list is the other. */
  lemma {:induction false} SamePaths(s: Stmt, p: seq<seq<nat>>, a: seq<Call>, q: seq<seq<nat>>, b: seq<Call>, k: nat)
    requires Lists(s, p, a) && Lists(s, q, b) && k <= |p|
    ensures k <= |q| && p[..k] == q[..k]
    decreases k
  {
    hide Lists, Before;
    if k > 0 {
      SamePaths(s, p, a, q, b, k - 1);
      NextPath(s, p, a, q, b, k - 1);
      NextPath(s, q, b, p, a, k - 1);
      if p[k - 1] != q[k - 1] {
        OneWay(p[k - 1], q[k - 1]);
        assert false;
      }
      assert p[..k] == p[..k - 1] + [p[k - 1]] && q[..k] == q[..k - 1] + [q[k - 1]];
    }
  }

  lemma OneList(s: Stmt, p: seq<seq<nat>>, a: seq<Call>, q: seq<seq<nat>>, b: seq<Call>)
    requires Lists(s, p, a) && Lists(s, q, b)
    ensures a == b
  {
    hide LeadsTo, Before;
    SamePaths(s, p, a, q, b, |p|);
    SamePaths(s, q, b, p, a, |q|);
    assert p == q;
    forall i | 0 <= i < |p| ensures a[i] == b[i] {
      OneEnd(s, p[i], a[i], b[i]);
    }
  }

  lemma NotBeforeItself(p: seq<nat>)
    ensures !Before(p, p)
  {
    if p != [] {
      NotBeforeItself(p[1..]);
    }
  }

  lemma {:induction false} OneWay(p: seq<nat>, q: seq<nat>)
    requires Before(p, q)
    ensures !Before(q, p)
    decreases |p|
  {
    if p != [] && p[0] == q[0] {
      OneWay(p[1..], q[1..]);
    }
  }
}
