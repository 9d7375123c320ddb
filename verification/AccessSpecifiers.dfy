/** The per-class lists of access specifiers, merged from the preprocessor and the class declarations. */
module AccessSpecifiers {
  import opened Options

  type ClassId = nat

  /** A place in a file, or a place inside a macro expansion at that place in the file. */
  datatype Loc = FileLoc(offset: nat) | MacroLoc(offset: nat, id: nat)

  datatype Access = Public | Protected | Private | NoAccess
  datatype QtAccess = QtNone | QtUnknown | QtSlot | QtSignal | QtInvokable

  /** `ClazyAccessSpecifier` */
  datatype Specifier = Specifier(loc: Loc, access: Access, qt: QtAccess)

  /** `accessSpecifierCompare`: at one place in the file what a macro expands to comes before the macro's name. */
  predicate Compare(lhs: Specifier, rhs: Specifier) {
    if lhs.loc.MacroLoc? || rhs.loc.MacroLoc? then
      if lhs.loc.offset == rhs.loc.offset then lhs.loc.MacroLoc? else lhs.loc.offset < rhs.loc.offset
    else lhs.loc.offset < rhs.loc.offset
  }

  /** The order the lists are kept in: by place in the file, macro expansions first. */
  predicate NotAfter(a: Specifier, b: Specifier) {
    a.loc.offset < b.loc.offset || (a.loc.offset == b.loc.offset && (a.loc.MacroLoc? || b.loc.FileLoc?))
  }

  predicate Sorted(v: seq<Specifier>) {
    forall i, j :: 0 <= i < j < |v| ==> NotAfter(v[i], v[j])
  }

  /** Two specifiers at one place in the file that are both expanded, or both written, are the same specifier. */
  predicate Coherent(v: seq<Specifier>) {
    forall a, b :: a in v && b in v && NotAfter(a, b) && NotAfter(b, a) ==> a == b
  }

  /** `std::upper_bound`: the first place whose specifier comes after `item`. */
  method UpperBound(v: seq<Specifier>, item: Specifier) returns (i: nat)
    requires Sorted(v)
    ensures i <= |v|
    ensures forall j :: 0 <= j < i ==> !Compare(item, v[j])
    ensures forall j :: i <= j < |v| ==> Compare(item, v[j])
  {
    var len := |v|;
    i := 0;
    while len > 0
      invariant 0 <= len && i + len <= |v|
      invariant forall j :: 0 <= j < i ==> !Compare(item, v[j])
      invariant forall j :: i + len <= j < |v| ==> Compare(item, v[j])
      decreases len
    {
      var half := len / 2;
      var middle := i + half;
      if Compare(item, v[middle]) {
        forall j | middle <= j < |v| ensures Compare(item, v[j]) {
          assert j > middle ==> NotAfter(v[middle], v[j]);
        }
        len := half;
      } else {
        forall j | 0 <= j <= middle ensures !Compare(item, v[j]) {
          assert j < middle ==> NotAfter(v[j], v[middle]);
        }
        i := middle + 1;
        len := len - half - 1;
      }
    }
  }

  /** `i` divides `v` into the specifiers that `item` does not come before and those it does. */
  predicate Divides(v: seq<Specifier>, item: Specifier, i: nat) {
    i <= |v| && (forall j :: 0 <= j < i ==> !Compare(item, v[j])) && (forall j :: i <= j < |v| ==> Compare(item, v[j]))
  }

  /** `v` with the item in front of the first specifier it comes before. */
  function Insert(v: seq<Specifier>, item: Specifier): seq<Specifier> {
    if v == [] || Compare(item, v[0]) then [item] + v else [v[0]] + Insert(v[1..], item)
  }

  /** `v` after inserting the items one after the other. */
  function InsertEach(v: seq<Specifier>, items: seq<Specifier>): seq<Specifier>
    decreases |items|
  {
    if items == [] then v else InsertEach(Insert(v, items[0]), items[1..])
  }

  /** `sorted_insert` */
  method SortedInsert(v: seq<Specifier>, item: Specifier) returns (r: seq<Specifier>)
    requires Sorted(v)
    ensures r == Insert(v, item) && Sorted(r) && multiset(r) == multiset(v) + multiset{item}
  {
    var i := UpperBound(v, item);
    r := v[..i] + [item] + v[i..];
    assert Divides(v, item, i);
    InsertedIsSorted(v, item, i);
    InsertAtPlace(v, item, i);
  }

  lemma {:induction false} InsertAtPlace(v: seq<Specifier>, item: Specifier, i: nat)
    requires Divides(v, item, i)
    ensures Insert(v, item) == v[..i] + [item] + v[i..]
    decreases |v|
  {
    hide Compare;
    if i == 0 {
      assert v[..0] == [] && v[0..] == v;
      assert [] + [item] + v == [item] + v;
    } else {
      var t := v[1..];
      assert Divides(t, item, i - 1) by {
        assert forall j :: 0 <= j < |t| ==> t[j] == v[j + 1];
      }
      InsertAtPlace(t, item, i - 1);
      assert v[..i] == [v[0]] + t[..i - 1] && v[i..] == t[i - 1..];
    }
  }

  function Inserted(v: seq<Specifier>, item: Specifier, i: nat): (r: seq<Specifier>)
    requires i <= |v|
    ensures |r| == |v| + 1
    ensures forall k :: 0 <= k < i ==> r[k] == v[k]
    ensures r[i] == item
    ensures forall k :: i < k < |r| ==> r[k] == v[k - 1]
  {
    v[..i] + [item] + v[i..]
  }

  lemma InsertedMembers(v: seq<Specifier>, item: Specifier, i: nat)
    requires i <= |v|
    ensures multiset(Inserted(v, item, i)) == multiset(v) + multiset{item}
  {
    assert v == v[..i] + v[i..];
  }

  lemma InsertedInOrder(v: seq<Specifier>, item: Specifier, i: nat, a: nat, b: nat)
    requires Sorted(v) && Divides(v, item, i) && a < b <= |v|
    ensures NotAfter(Inserted(v, item, i)[a], Inserted(v, item, i)[b])
  {
    hide Inserted;
    if a == i {
      assert Compare(item, v[b - 1]);
    } else if b == i {
      assert !Compare(item, v[a]);
    } else {
      assert NotAfter(v[if a < i then a else a - 1], v[if b < i then b else b - 1]);
    }
  }

  lemma InsertedIsSorted(v: seq<Specifier>, item: Specifier, i: nat)
    requires Sorted(v) && Divides(v, item, i)
    ensures Sorted(Inserted(v, item, i)) && multiset(Inserted(v, item, i)) == multiset(v) + multiset{item}
  {
    hide NotAfter, Compare;
    InsertedMembers(v, item, i);
    var r := Inserted(v, item, i);
    hide Inserted, Divides;
    forall a, b | 0 <= a < b < |r| ensures NotAfter(r[a], r[b]) {
      InsertedInOrder(v, item, i, a, b);
    }
  }

  // ----- the order of insertion -----

  /** Both expanded, or both written, at one place. */
  predicate Tied(a: Specifier, b: Specifier) {
    NotAfter(a, b) && NotAfter(b, a)
  }

  lemma InsertFirst(v: seq<Specifier>, item: Specifier)
    requires v != []
    ensures Insert(v, item) == if Compare(item, v[0]) then [item] + v else [v[0]] + Insert(v[1..], item)
  {
    hide Compare;
  }

  /** Behind a specifier that neither comes before, or in front of one that both come before. */
  lemma InsertTwoInFront(a: Specifier, b: Specifier, v: seq<Specifier>)
    requires v == [] || (Compare(a, v[0]) && Compare(b, v[0]))
    ensures Insert(Insert(v, a), b) == if Compare(b, a) then [b, a] + v else [a, b] + v
  {
    hide Compare, Insert;
    InsertInFront(v, a);
    InsertInFront(v, b);
    InsertAtFirst(a, v, b);
    TwoInFront(a, b, v);
    TwoInFront(b, a, v);
  }

  lemma InsertAtFirst(first: Specifier, v: seq<Specifier>, item: Specifier)
    ensures Insert([first] + v, item) ==
      if Compare(item, first) then [item] + ([first] + v) else [first] + Insert(v, item)
  {
    hide Compare, Insert;
    var w := [first] + v;
    assert w[0] == first && w[1..] == v;
    InsertFirst(w, item);
  }

  lemma TwoInFront(a: Specifier, b: Specifier, v: seq<Specifier>)
    ensures [a] + ([b] + v) == [a, b] + v
  {
  }

  lemma InsertInFront(v: seq<Specifier>, item: Specifier)
    requires v == [] || Compare(item, v[0])
    ensures Insert(v, item) == [item] + v
  {
    hide Compare;
  }

  /** Two insertions into any list may change places exactly if the specifiers are not tied. */
  lemma {:induction false} PairOrder(v: seq<Specifier>, a: Specifier, b: Specifier)
    ensures Insert(Insert(v, a), b) == Insert(Insert(v, b), a) <==> a == b || !Tied(a, b)
    decreases |v|
  {
    if v == [] || (Compare(a, v[0]) && Compare(b, v[0])) {
      InsertTwoInFront(a, b, v);
      InsertTwoInFront(b, a, v);
      assert ([a, b] + v)[0] == a && ([b, a] + v)[0] == b;
      assert Compare(a, b) == Compare(b, a) <==> Tied(a, b);
    } else if Compare(a, v[0]) {
      OneInFront(v, a, b);
    } else if Compare(b, v[0]) {
      OneInFront(v, b, a);
    } else {
      var ab, ba := Insert(Insert(v[1..], a), b), Insert(Insert(v[1..], b), a);
      PairOrder(v[1..], a, b);
      BothBehind(v, a, b);
      BothBehind(v, b, a);
      assert ([v[0]] + ab)[1..] == ab && ([v[0]] + ba)[1..] == ba;
    }
  }

  lemma BothBehind(v: seq<Specifier>, a: Specifier, b: Specifier)
    requires v != [] && !Compare(a, v[0]) && !Compare(b, v[0])
    ensures Insert(Insert(v, a), b) == [v[0]] + Insert(Insert(v[1..], a), b)
  {
    hide Compare, Insert;
    InsertFirst(v, a);
    var w := [v[0]] + Insert(v[1..], a);
    assert w[1..] == Insert(v[1..], a);
    InsertFirst(w, b);
  }

  /** One specifier goes in front and the other behind, so they are not tied and each keeps its place. */
  lemma OneInFront(v: seq<Specifier>, a: Specifier, b: Specifier)
    requires v != [] && Compare(a, v[0]) && !Compare(b, v[0])
    ensures Insert(Insert(v, a), b) == Insert(Insert(v, b), a) && !Tied(a, b)
  {
    assert !Compare(b, a) && !Tied(a, b);
    hide Compare, Insert;
    InsertFirst(v, a);
    InsertFirst(v, b);
    var w, u := [a] + v, [v[0]] + Insert(v[1..], b);
    assert w[1..] == v;
    InsertFirst(w, b);
    InsertFirst(u, a);
  }

  lemma {:induction false} InsertEachAppend(v: seq<Specifier>, x: seq<Specifier>, y: seq<Specifier>)
    ensures InsertEach(v, x + y) == InsertEach(InsertEach(v, x), y)
    decreases |x|
  {
    hide Insert;
    if x == [] {
      assert x + y == y;
    } else {
      assert (x + y)[1..] == x[1..] + y;
      InsertEachAppend(Insert(v, x[0]), x[1..], y);
    }
  }

  lemma InsertEachOne(v: seq<Specifier>, x: Specifier, rest: seq<Specifier>)
    ensures InsertEach(v, [x] + rest) == InsertEach(Insert(v, x), rest)
  {
    hide Insert;
    assert ([x] + rest)[1..] == rest;
  }

  /** What is left when one item is taken out. */
  function Except(items: seq<Specifier>, k: nat): (r: seq<Specifier>)
    requires k < |items|
    ensures |r| == |items| - 1
  {
    items[..k] + items[k + 1..]
  }

  lemma ExceptMembers(items: seq<Specifier>, k: nat)
    requires k < |items|
    ensures multiset(items) == multiset(Except(items, k)) + multiset{items[k]}
  {
    assert items == items[..k] + [items[k]] + items[k + 1..];
  }

  /** Among items without ties each may be inserted first. */
  lemma {:induction false} MoveToFront(v: seq<Specifier>, items: seq<Specifier>, k: nat)
    requires Coherent(items) && k < |items|
    ensures InsertEach(v, items) == InsertEach(v, [items[k]] + Except(items, k))
    decreases k
  {
    hide Insert, Coherent;
    var h, t, x := items[0], items[1..], items[k];
    assert items == [h] + t;
    if k == 0 {
      assert [items[0]] + Except(items, 0) == items;
    } else {
      var rest := Except(t, k - 1);
      assert t[k - 1] == x && Except(items, k) == [h] + rest;
      assert Coherent(t) by { FewerAreCoherent(items, t); }
      MoveToFront(Insert(v, h), t, k - 1);
      InsertEachOne(v, h, t);
      InsertEachOne(Insert(v, h), x, rest);
      assert x == h || !Tied(h, x) by { NotTied(items, h, x); }
      PairOrder(v, h, x);
      InsertEachOne(v, x, [h] + rest);
      InsertEachOne(Insert(v, x), h, rest);
    }
  }

  lemma FewerAreCoherent(items: seq<Specifier>, fewer: seq<Specifier>)
    requires Coherent(items) && forall x :: x in fewer ==> x in items
    ensures Coherent(fewer)
  {
    hide NotAfter;
  }

  lemma NotTied(items: seq<Specifier>, a: Specifier, b: Specifier)
    requires Coherent(items) && a in items && b in items
    ensures a == b || !Tied(a, b)
  {
    hide NotAfter;
  }

  lemma {:induction false} SameItemsSameList(v: seq<Specifier>, items: seq<Specifier>, items': seq<Specifier>)
    requires Coherent(items) && multiset(items) == multiset(items')
    ensures InsertEach(v, items) == InsertEach(v, items')
    decreases |items|
  {
    hide Insert, Coherent;
    SameMembers(items, items');
    assert |multiset(items)| == |items| && |multiset(items')| == |items'|;
    if items != [] {
      var x, t := items[0], items[1..];
      assert items == [x] + t;
      assert x in items';
      var k :| 0 <= k < |items'| && items'[k] == x;
      FewerAreCoherent(items, items');
      FewerAreCoherent(items, t);
      MoveToFront(v, items', k);
      ExceptMembers(items', k);
      InsertEachOne(v, x, t);
      InsertEachOne(v, x, Except(items', k));
      WithoutOne(multiset(t), multiset(Except(items', k)), x);
      SameItemsSameList(Insert(v, x), t, Except(items', k));
    }
  }

  lemma WithoutOne(a: multiset<Specifier>, b: multiset<Specifier>, x: Specifier)
    requires a + multiset{x} == b + multiset{x}
    ensures a == b
  {
    forall y ensures a[y] == b[y] {
      assert (a + multiset{x})[y] == (b + multiset{x})[y];
    }
  }

  /** Two tied items, put last in either order, make a difference. */
  lemma TiedItemsMatter(v: seq<Specifier>, items: seq<Specifier>, p: nat, q: nat)
    requires p < q < |items| && items[p] != items[q] && Tied(items[p], items[q])
    ensures var rest := Except(Except(items, q), p);
      && multiset(rest + [items[p], items[q]]) == multiset(items)
      && multiset(rest + [items[q], items[p]]) == multiset(items)
      && InsertEach(v, rest + [items[p], items[q]]) != InsertEach(v, rest + [items[q], items[p]])
  {
    hide Insert, NotAfter;
    var a, b := items[p], items[q];
    var fewer := Except(items, q);
    assert fewer[p] == a;
    var rest := Except(fewer, p);
    ExceptMembers(items, q);
    ExceptMembers(fewer, p);
    var w := InsertEach(v, rest);
    InsertEachAppend(v, rest, [a, b]);
    InsertEachAppend(v, rest, [b, a]);
    InsertTwo(w, a, b);
    InsertTwo(w, b, a);
    PairOrder(w, a, b);
  }

  lemma InsertTwo(v: seq<Specifier>, a: Specifier, b: Specifier)
    ensures InsertEach(v, [a, b]) == Insert(Insert(v, a), b)
  {
    hide Insert;
    assert [a, b] == [a] + [b] && [b] == [b] + [];
    InsertEachOne(v, a, [b]);
    InsertEachOne(Insert(v, a), b, []);
  }

  /** All orders of inserting the items end in one list. */
  ghost predicate AnyOrder(v: seq<Specifier>, items: seq<Specifier>) {
    forall items' :: multiset(items') == multiset(items) ==> InsertEach(v, items') == InsertEach(v, items)
  }

  lemma TwoOrders(v: seq<Specifier>, items: seq<Specifier>, x: seq<Specifier>, y: seq<Specifier>)
    requires AnyOrder(v, items) && multiset(x) == multiset(items) == multiset(y)
    ensures InsertEach(v, x) == InsertEach(v, y)
  {
    hide InsertEach;
  }

  lemma TiesMatter(v: seq<Specifier>, items: seq<Specifier>, p: nat, q: nat)
    requires p < q < |items| && items[p] != items[q] && Tied(items[p], items[q])
    ensures !AnyOrder(v, items)
  {
    hide AnyOrder, Tied, InsertEach, Except;
    var rest := Except(Except(items, q), p);
    var x, y := rest + [items[p], items[q]], rest + [items[q], items[p]];
    TiedItemsMatter(v, items, p, q);
    if AnyOrder(v, items) {
      TwoOrders(v, items, x, y);
    }
  }

  lemma SomeTie(items: seq<Specifier>) returns (p: nat, q: nat)
    requires !Coherent(items)
    ensures p < q < |items| && items[p] != items[q] && Tied(items[p], items[q])
  {
    hide NotAfter;
    var a, b :| a in items && b in items && NotAfter(a, b) && NotAfter(b, a) && a != b;
    p :| 0 <= p < |items| && items[p] == a;
    q :| 0 <= q < |items| && items[q] == b;
    if q < p {
      p, q := q, p;
    }
  }

  /** Into any list: the order does not matter exactly if no two different items are tied. */
  lemma OrderIsIrrelevantExactly(v: seq<Specifier>, items: seq<Specifier>)
    ensures AnyOrder(v, items) <==> Coherent(items)
  {
    if Coherent(items) {
      hide Coherent, InsertEach;
      forall items' | multiset(items') == multiset(items) ensures InsertEach(v, items') == InsertEach(v, items) {
        SameItemsSameList(v, items, items');
      }
    } else {
      hide *;
      var p, q := SomeTie(items);
      TiesMatter(v, items, p, q);
    }
  }

  lemma NothingInserted(v: seq<Specifier>)
    ensures InsertEach(v, []) == v
  {
  }

  lemma {:induction false} InsertEachMembers(v: seq<Specifier>, items: seq<Specifier>)
    requires Sorted(v)
    ensures Sorted(InsertEach(v, items)) && multiset(InsertEach(v, items)) == multiset(v) + multiset(items)
    decreases |items|
  {
    hide Sorted, Insert;
    if items != [] {
      InsertMembers(v, items[0]);
      InsertEachMembers(Insert(v, items[0]), items[1..]);
      assert items == [items[0]] + items[1..];
    }
  }

  lemma InsertMembers(v: seq<Specifier>, item: Specifier)
    requires Sorted(v)
    ensures Sorted(Insert(v, item)) && multiset(Insert(v, item)) == multiset(v) + multiset{item}
  {
    hide Sorted, Insert, Inserted;
    var i := PlaceOf(v, item);
    InsertedIsSorted(v, item, i);
    InsertAtPlace(v, item, i);
    InsertedText(v, item, i);
  }

  lemma InsertedText(v: seq<Specifier>, item: Specifier, i: nat)
    requires i <= |v|
    ensures Inserted(v, item, i) == v[..i] + [item] + v[i..]
  {
  }

  lemma {:induction false} PlaceOf(v: seq<Specifier>, item: Specifier) returns (i: nat)
    requires Sorted(v)
    ensures Divides(v, item, i)
    decreases |v|
  {
    if v == [] {
      i := 0;
    } else if Compare(item, v[0]) {
      i := 0;
      assert forall j :: 0 < j < |v| ==> NotAfter(v[0], v[j]);
    } else {
      var k := PlaceOf(v[1..], item);
      assert forall j :: 0 < j < |v| ==> v[j] == v[1..][j - 1];
      i := k + 1;
    }
  }

  lemma SameMembers(a: seq<Specifier>, b: seq<Specifier>)
    requires multiset(a) == multiset(b)
    ensures forall x :: x in a <==> x in b
  {
    assert forall x :: x in a <==> x in multiset(a);
    assert forall x :: x in b <==> x in multiset(b);
  }

  // ----- the query -----

  /** A specifier's place counts as before a method's if it is the same place in the file. */
  predicate AtOrBefore(s: Loc, method_: Loc) {
    s.offset < method_.offset || (s.offset == method_.offset && method_.FileLoc?)
  }

  /** The specifier that governs a method: the last one at or before it, found by a plain scan. */
  function LastBefore(v: seq<Specifier>, method_: Loc): Option<Specifier>
    decreases |v|
  {
    if v == [] then None
    else if AtOrBefore(v[|v| - 1].loc, method_) then Some(v[|v| - 1])
    else LastBefore(v[..|v| - 1], method_)
  }

  lemma {:induction false} LastBeforeAt(v: seq<Specifier>, method_: Loc, i: nat)
    requires i <= |v|
    requires forall j :: 0 <= j < i ==> AtOrBefore(v[j].loc, method_)
    requires forall j :: i <= j < |v| ==> !AtOrBefore(v[j].loc, method_)
    ensures LastBefore(v, method_) == if i == 0 then None else Some(v[i - 1])
    decreases |v|
  {
    if i < |v| {
      LastBeforeAt(v[..|v| - 1], method_, i);
    }
  }

  /** The binary search for the specifier in front of a method. */
  method SpecifierBefore(v: seq<Specifier>, method_: Loc) returns (r: Option<Specifier>)
    requires Sorted(v)
    ensures r == LastBefore(v, method_)
  {
    var dummy := Specifier(method_, NoAccess, QtNone);
    var i := UpperBound(v, dummy);
    forall j | 0 <= j < |v| ensures AtOrBefore(v[j].loc, method_) <==> !Compare(dummy, v[j]) {
    }
    LastBeforeAt(v, method_, i);
    r := if i == 0 then None else Some(v[i - 1]);
  }

  /**
   * Q_SIGNALS at one place hides a `public` expanded there: the marker comes after it, and so governs
   * the methods up to the next specifier.
   */
  lemma {:induction false} MarkerFollowsHiddenPublic(v: seq<Specifier>, i: nat, j: nat, offset: nat)
    requires Sorted(v) && i < |v| && j < |v|
    requires forall k :: 0 <= k < |v| && v[k].loc == v[j].loc ==> v[k] == v[j]
    requires v[i].loc.MacroLoc? && v[j].loc.FileLoc? && v[i].loc.offset == v[j].loc.offset
    requires offset >= v[j].loc.offset
    requires forall k :: 0 <= k < |v| && v[k].loc.offset > v[j].loc.offset ==> v[k].loc.offset > offset
    ensures i < j && LastBefore(v, FileLoc(offset)) == Some(v[j])
  {
    assert !NotAfter(v[j], v[i]);
    var last := j;
    while last + 1 < |v| && v[last + 1].loc.offset <= offset
      invariant j <= last < |v| && v[last] == v[j]
    {
      assert NotAfter(v[j], v[last + 1]);
      last := last + 1;
    }
    forall k | 0 <= k < |v| ensures k <= last <==> v[k].loc.offset <= offset {
      assert k < last ==> NotAfter(v[k], v[last]);
      assert last + 1 < k ==> NotAfter(v[last + 1], v[k]);
    }
    LastBeforeAt(v, FileLoc(offset), last + 1);
  }

  // ----- the manager -----

  /** A method's declaration: the place of the declaration asked about, and the canonical one inside its class. */
  datatype MethodDecl = MethodDecl(loc: Loc, record: Option<ClassId>, specialization: bool, instantiation: bool,
    canonicalLoc: Loc)

  /** An access specifier as a class declares it. */
  datatype AccessSpecDecl = AccessSpecDecl(loc: Loc, access: Access)

  /** A class definition: which class, whether it is a QObject, and the specifiers it declares itself. */
  datatype RecordDecl = RecordDecl(id: ClassId, isQObject: bool, own: seq<AccessSpecDecl>)

  function SpecifierOf(d: AccessSpecDecl): Specifier {
    Specifier(d.loc, d.access, QtNone)
  }

  function SpecifiersOf(own: seq<AccessSpecDecl>): seq<Specifier> {
    seq(|own|, i requires 0 <= i < |own| => SpecifierOf(own[i]))
  }

  /** Specifiers the preprocessor has seen, as opposed to those of the class declarations. */
  predicate IsMarker(s: Specifier) {
    s.loc.FileLoc? && s.access.NoAccess? && (s.qt.QtSlot? || s.qt.QtSignal?)
  }

  type Lists = map<ClassId, seq<Specifier>>

  ghost function AnyClass(lists: Lists): (c: ClassId)
    requires lists != map[]
    ensures c in lists
  {
    assert lists.Keys != {};
    var c :| c in lists.Keys;
    c
  }

  /** How often the specifier is listed in all classes together. */
  ghost function Listed(lists: Lists, m: Specifier): nat
    decreases |lists.Keys|
  {
    if lists == map[] then 0
    else
      var c := AnyClass(lists);
      FewerClasses(lists, c);
      multiset(lists[c])[m] + Listed(lists - {c}, m)
  }

  lemma FewerClasses(lists: Lists, c: ClassId)
    requires c in lists
    ensures |(lists - {c}).Keys| < |lists.Keys|
  {
    assert (lists - {c}).Keys == lists.Keys - {c};
  }

  /** The sum does not depend on the order of the classes. */
  lemma {:induction false} ListedAt(lists: Lists, c: ClassId, m: Specifier)
    requires c in lists
    ensures Listed(lists, m) == multiset(lists[c])[m] + Listed(lists - {c}, m)
    decreases |lists.Keys|
  {
    var d := AnyClass(lists);
    if d != c {
      FewerClasses(lists, c);
      FewerClasses(lists, d);
      ListedAt(lists - {d}, c, m);
      ListedAt(lists - {c}, d, m);
      assert lists - {d} - {c} == lists - {c} - {d};
    }
  }

  lemma ListedUpdate(lists: Lists, id: ClassId, r: seq<Specifier>, m: Specifier)
    requires id in lists
    ensures Listed(lists[id := r], m) + multiset(lists[id])[m] == Listed(lists, m) + multiset(r)[m]
  {
    ListedAt(lists, id, m);
    ListedAt(lists[id := r], id, m);
    assert lists[id := r] - {id} == lists - {id};
  }

  lemma ListedEntry(lists: Lists, id: ClassId, m: Specifier)
    requires id !in lists
    ensures Listed(lists[id := []], m) == Listed(lists, m)
  {
    ListedAt(lists[id := []], id, m);
    assert lists[id := []] - {id} == lists;
  }

  /** Every marker is in as many places as the preprocessor has seen it times. */
  ghost predicate Conserved(pending: seq<Specifier>, lists: Lists, seen: multiset<Specifier>) {
    && (forall m :: m in pending ==> IsMarker(m))
    && (forall m :: IsMarker(m) ==> multiset(pending)[m] + Listed(lists, m) == seen[m])
  }

  /** A marker seen once waits or is in the list of one class, once, and nowhere else. */
  lemma OnePlaceOnly(pending: seq<Specifier>, lists: Lists, seen: multiset<Specifier>, m: Specifier)
    requires Conserved(pending, lists, seen) && IsMarker(m) && seen[m] == 1
    ensures if m in pending then multiset(pending)[m] == 1 && forall c :: c in lists ==> m !in lists[c]
      else exists c :: c in lists && multiset(lists[c])[m] == 1 && forall d :: d in lists && d != c ==> m !in lists[d]
  {
    hide Listed;
    assert m in pending <==> multiset(pending)[m] > 0;
    if m in pending {
      ListedNowhere(lists, m);
    } else {
      var c := ListedSomewhere(lists, m);
      ListedAt(lists, c, m);
      assert multiset(lists[c])[m] == 1;
      ListedNowhere(lists - {c}, m);
      assert forall d :: d in lists && d != c ==> d in lists - {c} && (lists - {c})[d] == lists[d];
    }
  }

  lemma ListedNowhere(lists: Lists, m: Specifier)
    requires Listed(lists, m) == 0
    ensures forall c :: c in lists ==> m !in lists[c]
  {
    forall c | c in lists ensures m !in lists[c] {
      ListedAt(lists, c, m);
      assert m in lists[c] <==> multiset(lists[c])[m] > 0;
    }
  }

  lemma {:induction false} ListedSomewhere(lists: Lists, m: Specifier) returns (c: ClassId)
    requires Listed(lists, m) > 0
    ensures c in lists && m in lists[c]
    decreases |lists.Keys|
  {
    c := AnyClass(lists);
    if m !in lists[c] {
      assert multiset(lists[c])[m] == 0;
      FewerClasses(lists, c);
      c := ListedSomewhere(lists - {c}, m);
    }
  }

  /** One more marker is seen. */
  lemma SeenConserved(pending: seq<Specifier>, lists: Lists, seen: multiset<Specifier>, marker: Specifier)
    requires Conserved(pending, lists, seen) && IsMarker(marker)
    ensures Conserved(pending + [marker], lists, seen + multiset{marker})
  {
    hide Listed, IsMarker;
  }

  /** A waiting marker goes into the list of a class. */
  lemma MoveConserved(pending: seq<Specifier>, lists: Lists, seen: multiset<Specifier>, id: ClassId, k: nat,
      r: seq<Specifier>)
    requires Conserved(pending, lists, seen) && k < |pending| && id in lists
    requires multiset(r) == multiset(lists[id]) + multiset{pending[k]}
    ensures Conserved(pending[..k] + pending[k + 1..], lists[id := r], seen)
    ensures multiset(pending[..k] + pending[k + 1..]) == multiset(pending) - multiset{pending[k]}
  {
    hide Listed, IsMarker;
    var rest := pending[..k] + pending[k + 1..];
    assert pending == pending[..k] + [pending[k]] + pending[k + 1..];
    assert multiset(pending) == multiset(rest) + multiset{pending[k]};
    forall m | IsMarker(m) ensures multiset(rest)[m] + Listed(lists[id := r], m) == seen[m] {
      ListedUpdate(lists, id, r, m);
    }
  }

  /** A specifier that is no marker changes nothing. */
  lemma OwnConserved(pending: seq<Specifier>, lists: Lists, seen: multiset<Specifier>, id: ClassId, own: Specifier,
      r: seq<Specifier>)
    requires Conserved(pending, lists, seen) && id in lists && !IsMarker(own)
    requires multiset(r) == multiset(lists[id]) + multiset{own}
    ensures Conserved(pending, lists[id := r], seen)
  {
    hide Listed, IsMarker;
    forall m | IsMarker(m) ensures multiset(pending)[m] + Listed(lists[id := r], m) == seen[m] {
      ListedUpdate(lists, id, r, m);
    }
  }

  lemma EntryConserved(pending: seq<Specifier>, lists: Lists, seen: multiset<Specifier>, id: ClassId)
    requires Conserved(pending, lists, seen) && id !in lists
    ensures Conserved(pending, lists[id := []], seen)
  {
    hide Listed, IsMarker;
    forall m | IsMarker(m) ensures multiset(pending)[m] + Listed(lists[id := []], m) == seen[m] {
      ListedEntry(lists, id, m);
    }
  }

  /** The place is in the list of places. */
  predicate AtOneOf(places: seq<nat>, loc: Loc) {
    loc.FileLoc? && loc.offset in places
  }

  /** The specifier is not between the offsets, nor written at the first; what a macro expands to there may be. */
  predicate KeepsOut(s: Specifier, from: nat, to: nat) {
    s.loc.offset < from || s.loc.offset > to || (s.loc.MacroLoc? && s.loc.offset == from)
  }

  /** A marker governs the methods behind it up to the next specifier. */
  lemma {:induction false} MarkerGoverns(v: seq<Specifier>, marker: Specifier, method_: nat)
    requires Sorted(v) && marker in v && marker.loc.FileLoc? && marker.loc.offset <= method_
    requires forall s :: s in v && s != marker ==> KeepsOut(s, marker.loc.offset, method_)
    ensures LastBefore(v, FileLoc(method_)) == Some(marker)
    decreases |v|
  {
    var n := |v| - 1;
    var i :| 0 <= i <= n && v[i] == marker;
    var last, rest := v[n], v[..n];
    assert last in v;
    if last != marker {
      assert NotAfter(marker, last);
      assert rest[i] == marker;
      MarkerGoverns(rest, marker, method_);
    }
  }

  /** A specifier that is not left waiting is in the list, with nothing that was neither waiting nor the class's. */
  lemma MarkerArrives(list: seq<Specifier>, waiting: seq<Specifier>, own: seq<Specifier>, list': seq<Specifier>,
      waiting': seq<Specifier>, marker: Specifier, method_: nat)
    requires multiset(list') + multiset(waiting') == multiset(list) + multiset(waiting) + multiset(own)
    requires marker in waiting + own && marker !in waiting'
    requires forall s :: s in list + waiting + own && s != marker ==> KeepsOut(s, marker.loc.offset, method_)
    ensures marker in list'
    ensures forall s :: s in list' && s != marker ==> KeepsOut(s, marker.loc.offset, method_)
  {
    hide KeepsOut;
    var all := multiset(list) + multiset(waiting) + multiset(own);
    assert marker in multiset(waiting + own) && marker in all;
    assert marker !in multiset(waiting');
    forall s | s in list' && s != marker ensures KeepsOut(s, marker.loc.offset, method_) {
      assert s in multiset(list') && s in all;
    }
  }

  class AccessSpecifierManager {
    const extents: ClassId -> (nat, nat)
    const visitsNonQObjects: bool
    var pending: seq<Specifier>
    var specifiersMap: map<ClassId, seq<Specifier>>
    var individualSignals: seq<nat>
    var individualSlots: seq<nat>
    var invokables: seq<nat>
    var scriptables: seq<nat>
    ghost var seen: multiset<Specifier>

    /** Lists are sorted, and no marker is lost or doubled. */
    ghost predicate Valid()
      reads this`pending, this`specifiersMap, this`seen
    {
      (forall c :: c in specifiersMap ==> Sorted(specifiersMap[c])) && Conserved(pending, specifiersMap, seen)
    }

    constructor (extents: ClassId -> (nat, nat), visitsNonQObjects: bool)
      ensures Valid() && seen == multiset{} && this.extents == extents && this.visitsNonQObjects == visitsNonQObjects
      ensures pending == [] && specifiersMap == map[]
      ensures individualSignals == [] && individualSlots == [] && invokables == [] && scriptables == []
    {
      this.extents := extents;
      this.visitsNonQObjects := visitsNonQObjects;
      pending, specifiersMap := [], map[];
      individualSignals, individualSlots, invokables, scriptables := [], [], [], [];
      seen := multiset{};
    }

    /** `MacroExpands`; `next` is the place of the token behind the macro's name, if there is one. */
    method MacroExpands(name: string, loc: Loc, next: Option<nat>)
      requires Valid()
      modifies this
      ensures Valid() && specifiersMap == old(specifiersMap)
      ensures loc.FileLoc? && (name == "slots" || name == "Q_SLOTS") ==>
        pending == old(pending) + [Specifier(loc, NoAccess, QtSlot)] &&
        seen == old(seen) + multiset{Specifier(loc, NoAccess, QtSlot)}
      ensures loc.FileLoc? && (name == "signals" || name == "Q_SIGNALS") ==>
        pending == old(pending) + [Specifier(loc, NoAccess, QtSignal)] &&
        seen == old(seen) + multiset{Specifier(loc, NoAccess, QtSignal)}
      ensures name != "slots" && name != "Q_SLOTS" && name != "signals" && name != "Q_SIGNALS" ==>
        pending == old(pending) && seen == old(seen)
      ensures individualSignals ==
        old(individualSignals) + (if loc.FileLoc? && name == "Q_SIGNAL" && next.Some? then [next.value] else [])
      ensures individualSlots ==
        old(individualSlots) + (if loc.FileLoc? && name == "Q_SLOT" && next.Some? then [next.value] else [])
      ensures invokables ==
        old(invokables) + (if loc.FileLoc? && name == "Q_INVOKABLE" && next.Some? then [next.value] else [])
      ensures scriptables ==
        old(scriptables) + (if loc.FileLoc? && name == "Q_SCRIPTABLE" && next.Some? then [next.value] else [])
      ensures loc.MacroLoc? ==> unchanged(this)
    {
      hide Conserved, Sorted;
      assert "signals"[0] == 's' && "Q_SLOTS"[0] == 'Q';
      var isSlots := name == "slots" || name == "Q_SLOTS";
      var isSignals := !isSlots && (name == "signals" || name == "Q_SIGNALS");
      if loc.MacroLoc? {
        return;
      }
      if isSlots || isSignals {
        var marker := Specifier(loc, NoAccess, if isSlots then QtSlot else QtSignal);
        SeenConserved(pending, specifiersMap, seen, marker);
        pending := pending + [marker];
        seen := seen + multiset{marker};
      } else if next.Some? {
        if name == "Q_SIGNAL" {
          individualSignals := individualSignals + [next.value];
        } else if name == "Q_SLOT" {
          individualSlots := individualSlots + [next.value];
        } else if name == "Q_INVOKABLE" {
          invokables := invokables + [next.value];
        } else if name == "Q_SCRIPTABLE" {
          scriptables := scriptables + [next.value];
        }
      }
    }

    /** `qtAccessSpecifierType`: single markers in this order, then the specifier that governs the method. */
    method QtAccessSpecifierType(m: Option<MethodDecl>) returns (t: QtAccess)
      requires Valid()
      ensures m.None? || m.value.loc.MacroLoc? ==> t == QtUnknown
      ensures m.Some? && m.value.loc.FileLoc? ==>
        var d := m.value;
        if d.record.None? || d.specialization || d.instantiation then t == QtNone
        else if AtOneOf(individualSignals, d.canonicalLoc) then t == QtSignal
        else if AtOneOf(individualSlots, d.canonicalLoc) then t == QtSlot
        else if AtOneOf(invokables, d.canonicalLoc) then t == QtInvokable
        else if d.record.value !in specifiersMap then t == QtNone
        else
          var governing := LastBefore(specifiersMap[d.record.value], d.canonicalLoc);
          t == if governing.None? then QtNone else governing.value.qt
    {
      hide Conserved, Sorted;
      if m.None? || m.value.loc.MacroLoc? {
        return QtUnknown;
      }
      if m.value.record.None? || m.value.specialization || m.value.instantiation {
        return QtNone;
      }
      var loc := m.value.canonicalLoc;
      var isSignal := Holds(individualSignals, loc);
      if isSignal {
        return QtSignal;
      }
      var isSlot := Holds(individualSlots, loc);
      if isSlot {
        return QtSlot;
      }
      var isInvokable := Holds(invokables, loc);
      if isInvokable {
        return QtInvokable;
      }
      if m.value.record.value !in specifiersMap {
        return QtNone;
      }
      var before := SpecifierBefore(specifiersMap[m.value.record.value], loc);
      t := if before.None? then QtNone else before.value.qt;
    }

    /** The raw encodings compared one after the other; one inside a macro never equals one in a file. */
    static method Holds(places: seq<nat>, loc: Loc) returns (found: bool)
      ensures found <==> AtOneOf(places, loc)
    {
      for k := 0 to |places|
        invariant loc.FileLoc? ==> loc.offset !in places[..k]
      {
        if loc == FileLoc(places[k]) {
          return true;
        }
        assert places[..k + 1] == places[..k] + [places[k]];
      }
      assert places[..|places|] == places;
      found := false;
    }

    predicate Encloses(c: ClassId, loc: Loc) {
      extents(c).0 < loc.offset < extents(c).1
    }

    /** `classDefinitionForLoc`: the known classes are looked at in no particular order. */
    method ClassDefinitionForLoc(loc: Loc) returns (r: Option<ClassId>)
      ensures r.Some? ==> r.value in specifiersMap && Encloses(r.value, loc)
      ensures r.None? ==> forall c :: c in specifiersMap ==> !Encloses(c, loc)
    {
      var keys := specifiersMap.Keys;
      while keys != {}
        invariant keys <= specifiersMap.Keys
        invariant forall c :: c in specifiersMap && c !in keys ==> !Encloses(c, loc)
        decreases |keys|
      {
        var c :| c in keys;
        if Encloses(c, loc) {
          return Some(c);
        }
        keys := keys - {c};
      }
      r := None;
    }

    /** One pending marker moves to its place in the list of class `id`. */
    method MoveMarker(id: ClassId, k: nat)
      requires Valid() && k < |pending| && id in specifiersMap
      modifies this`pending, this`specifiersMap
      ensures Valid() && specifiersMap.Keys == old(specifiersMap.Keys)
      ensures pending == old(pending[..k] + pending[k + 1..])
      ensures multiset(pending) == old(multiset(pending) - multiset{pending[k]})
      ensures multiset(specifiersMap[id]) == old(multiset(specifiersMap[id]) + multiset{pending[k]})
      ensures forall c :: c in specifiersMap && c != id ==> specifiersMap[c] == old(specifiersMap[c])
    {
      hide Sorted, Conserved, Insert;
      var r := SortedInsert(specifiersMap[id], pending[k]);
      MoveConserved(pending, specifiersMap, seen, id, k, r);
      pending := pending[..k] + pending[k + 1..];
      specifiersMap := specifiersMap[id := r];
    }

    /** `entryForClassDefinition` */
    method EntryForClassDefinition(id: ClassId)
      requires Valid()
      modifies this`specifiersMap
      ensures Valid()
      ensures specifiersMap == old(if id in specifiersMap then specifiersMap else specifiersMap[id := []])
    {
      hide Conserved;
      if id !in specifiersMap {
        EntryConserved(pending, specifiersMap, seen, id);
        specifiersMap := specifiersMap[id := []];
      }
    }

    /** Another known class is around the place as well. */
    predicate InOtherClass(known: set<ClassId>, id: ClassId, loc: Loc) {
      exists c :: c in known && c != id && Encloses(c, loc)
    }

    /** `lists` and `waiting` come from `lists0` and `waiting0` by moving markers inside class `id` to its list. */
    ghost predicate Fetched(id: ClassId, lists0: Lists, waiting0: multiset<Specifier>, lists: Lists,
        waiting: multiset<Specifier>)
      requires id in lists0
    {
      && lists.Keys == lists0.Keys
      && (forall c :: c in lists && c != id ==> lists[c] == lists0[c])
      && multiset(lists[id]) + waiting == multiset(lists0[id]) + waiting0
      && waiting <= waiting0
      && (forall m :: waiting[m] < waiting0[m] ==> Encloses(id, m.loc))
    }

    lemma FetchedOneMore(id: ClassId, lists0: Lists, waiting0: multiset<Specifier>, lists: Lists,
        waiting: multiset<Specifier>, marker: Specifier, lists': Lists)
      requires id in lists0 && Fetched(id, lists0, waiting0, lists, waiting)
      requires marker in waiting && Encloses(id, marker.loc)
      requires lists'.Keys == lists.Keys && multiset(lists'[id]) == multiset(lists[id]) + multiset{marker}
      requires forall c :: c in lists && c != id ==> lists'[c] == lists[c]
      ensures Fetched(id, lists0, waiting0, lists', waiting - multiset{marker})
    {
      hide Encloses;
      var less := waiting - multiset{marker};
      assert waiting == less + multiset{marker};
      forall m | less[m] < waiting0[m] ensures Encloses(id, m.loc) {
        assert m != marker ==> less[m] == waiting[m];
      }
    }

    /** The preprocessor's markers that lie in the class, in the order they wait. */
    method FetchMarkers(id: ClassId)
      requires Valid() && id in specifiersMap
      modifies this`pending, this`specifiersMap
      ensures Valid()
      ensures Fetched(id, old(specifiersMap), multiset(old(pending)), specifiersMap, multiset(pending))
      ensures forall m :: m in pending && Encloses(id, m.loc) ==> InOtherClass(specifiersMap.Keys, id, m.loc)
    {
      hide Encloses, Fetched, Valid, InOtherClass;
      ghost var known := specifiersMap.Keys;
      NothingFetched(id, specifiersMap, multiset(pending));
      var k := 0;
      while k < |pending|
        invariant 0 <= k <= |pending|
        invariant Valid() && specifiersMap.Keys == known
        invariant Fetched(id, old(specifiersMap), multiset(old(pending)), specifiersMap, multiset(pending))
        invariant forall j :: 0 <= j < k && Encloses(id, pending[j].loc) ==> InOtherClass(known, id, pending[j].loc)
        decreases |pending| - k
      {
        var def := ClassDefinitionForLoc(pending[k].loc);
        if def == Some(id) {
          ghost var lists, waiting, marker := specifiersMap, multiset(pending), pending[k];
          assert marker in pending;
          MoveMarker(id, k);
          FetchedOneMore(id, old(specifiersMap), multiset(old(pending)), lists, waiting, marker, specifiersMap);
        } else {
          assert Encloses(id, pending[k].loc) ==> InOtherClass(known, id, pending[k].loc) by {
            FoundOther(id, def, pending[k].loc);
          }
          k := k + 1;
        }
      }
    }

    lemma NothingFetched(id: ClassId, lists: Lists, waiting: multiset<Specifier>)
      requires id in lists
      ensures Fetched(id, lists, waiting, lists, waiting)
    {
    }

    lemma FoundOther(id: ClassId, def: Option<ClassId>, loc: Loc)
      requires id in specifiersMap && def != Some(id)
      requires def.Some? ==> def.value in specifiersMap && Encloses(def.value, loc)
      requires def.None? ==> forall c :: c in specifiersMap ==> !Encloses(c, loc)
      ensures Encloses(id, loc) ==> InOtherClass(specifiersMap.Keys, id, loc)
    {
      hide Encloses;
    }

    /** The class's own specifiers. */
    method AddOwn(id: ClassId, own: seq<AccessSpecDecl>)
      requires Valid() && id in specifiersMap
      modifies this`specifiersMap
      ensures Valid() && specifiersMap.Keys == old(specifiersMap.Keys)
      ensures forall c :: c in specifiersMap && c != id ==> specifiersMap[c] == old(specifiersMap[c])
      ensures specifiersMap[id] == InsertEach(old(specifiersMap[id]), SpecifiersOf(own))
    {
      hide Valid, InsertEach, Insert;
      ghost var all := SpecifiersOf(own);
      ghost var whole := InsertEach(specifiersMap[id], all);
      assert all[0..] == all;
      for k := 0 to |own|
        invariant Valid() && specifiersMap.Keys == old(specifiersMap.Keys)
        invariant forall c :: c in specifiersMap && c != id ==> specifiersMap[c] == old(specifiersMap[c])
        invariant InsertEach(specifiersMap[id], all[k..]) == whole
      {
        assert all[k..] == [all[k]] + all[k + 1..];
        InsertEachOne(specifiersMap[id], all[k], all[k + 1..]);
        AddOne(id, own[k]);
      }
      assert all[|own|..] == [];
      NothingInserted(specifiersMap[id]);
    }

    method AddOne(id: ClassId, d: AccessSpecDecl)
      requires Valid() && id in specifiersMap
      modifies this`specifiersMap
      ensures Valid() && specifiersMap.Keys == old(specifiersMap.Keys)
      ensures forall c :: c in specifiersMap && c != id ==> specifiersMap[c] == old(specifiersMap[c])
      ensures specifiersMap[id] == Insert(old(specifiersMap[id]), SpecifierOf(d))
    {
      hide Conserved, Sorted, Insert;
      var r := SortedInsert(specifiersMap[id], SpecifierOf(d));
      OwnConserved(pending, specifiersMap, seen, id, SpecifierOf(d), r);
      specifiersMap := specifiersMap[id := r];
    }

    lemma SortedEntry(id: ClassId)
      requires Valid() && id in specifiersMap
      ensures Sorted(specifiersMap[id])
    {
    }

    /** `VisitDeclaration`: the class gets its markers and its own specifiers; no marker is lost or doubled. */
    method VisitDeclaration(record: RecordDecl, fixitsEnabled: bool)
      requires Valid()
      modifies this`pending, this`specifiersMap
      ensures Valid()
      ensures !record.isQObject && !(fixitsEnabled && visitsNonQObjects) ==> unchanged(this)
      ensures record.isQObject || (fixitsEnabled && visitsNonQObjects) ==>
        specifiersMap.Keys == old(specifiersMap.Keys) + {record.id} &&
        multiset(specifiersMap[record.id]) + multiset(pending) ==
          old(multiset(if record.id in specifiersMap then specifiersMap[record.id] else []) + multiset(pending))
          + multiset(SpecifiersOf(record.own))
      ensures forall c :: c in old(specifiersMap) && c != record.id ==>
        c in specifiersMap && specifiersMap[c] == old(specifiersMap[c])
      ensures multiset(pending) <= old(multiset(pending))
      ensures forall m :: multiset(pending)[m] < old(multiset(pending))[m] ==> Encloses(record.id, m.loc)
      ensures record.isQObject || (fixitsEnabled && visitsNonQObjects) ==>
        forall m :: m in pending && Encloses(record.id, m.loc) ==> InOtherClass(specifiersMap.Keys, record.id, m.loc)
    {
      hide Encloses, Valid, InOtherClass, Sorted, InsertEach, SpecifiersOf;
      if !record.isQObject && !(fixitsEnabled && visitsNonQObjects) {
        return;
      }
      EntryForClassDefinition(record.id);
      FetchMarkers(record.id);
      SortedEntry(record.id);
      InsertEachMembers(specifiersMap[record.id], SpecifiersOf(record.own));
      AddOwn(record.id, record.own);
    }

    /** The specifiers of the class so far. */
    function ListOf(id: ClassId): seq<Specifier>
      reads this`specifiersMap
    {
      if id in specifiersMap then specifiersMap[id] else []
    }

    /** The method is asked about with the sections of the class, and is not marked by itself. */
    predicate AskedOfSections(m: MethodDecl, id: ClassId)
      reads this`individualSignals, this`individualSlots, this`invokables
    {
      && m.loc.FileLoc? && m.record == Some(id) && !m.specialization && !m.instantiation && m.canonicalLoc.FileLoc?
      && m.canonicalLoc.offset !in individualSignals && m.canonicalLoc.offset !in individualSlots
      && m.canonicalLoc.offset !in invokables
    }

    /**
     * From a waiting marker to the answer: once its class has been visited, a method behind the marker with no
     * specifier between them is of the marker's kind.
     */
    method VisitAndAsk(marker: Specifier, record: RecordDecl, fixitsEnabled: bool, m: MethodDecl) returns (t: QtAccess)
      requires Valid() && record.isQObject && marker in pending && marker.loc.FileLoc?
      requires Encloses(record.id, marker.loc)
      requires !InOtherClass(specifiersMap.Keys + {record.id}, record.id, marker.loc)
      requires AskedOfSections(m, record.id) && marker.loc.offset <= m.canonicalLoc.offset
      requires forall s :: s in ListOf(record.id) + pending + SpecifiersOf(record.own) && s != marker ==>
        KeepsOut(s, marker.loc.offset, m.canonicalLoc.offset)
      modifies this`pending, this`specifiersMap
      ensures Valid() && t == marker.qt
    {
      hide Conserved, Sorted, Encloses, InOtherClass, SpecifiersOf, KeepsOut;
      ghost var list, waiting, own := ListOf(record.id), pending, SpecifiersOf(record.own);
      VisitDeclaration(record, fixitsEnabled);
      MarkerArrives(list, waiting, own, specifiersMap[record.id], pending, marker, m.canonicalLoc.offset);
      SortedEntry(record.id);
      MarkerGoverns(specifiersMap[record.id], marker, m.canonicalLoc.offset);
      t := QtAccessSpecifierType(Some(m));
    }

    /** A specifier of the class itself ends the section: a method behind it is neither signal nor slot. */
    method VisitAndAskBehindOwn(d: AccessSpecDecl, record: RecordDecl, fixitsEnabled: bool, m: MethodDecl)
      returns (t: QtAccess)
      requires Valid() && record.isQObject && d in record.own && d.loc.FileLoc?
      requires AskedOfSections(m, record.id) && d.loc.offset <= m.canonicalLoc.offset
      requires var end := Specifier(d.loc, d.access, QtNone);
        forall s :: s in ListOf(record.id) + pending + SpecifiersOf(record.own) && s != end ==>
          KeepsOut(s, d.loc.offset, m.canonicalLoc.offset)
      modifies this`pending, this`specifiersMap
      ensures Valid() && t == QtNone
    {
      hide Sorted, Encloses, InOtherClass, KeepsOut, Listed;
      ghost var list, waiting, own := ListOf(record.id), pending, SpecifiersOf(record.own);
      var end := Specifier(d.loc, d.access, QtNone);
      assert end in own by {
        var i :| 0 <= i < |record.own| && record.own[i] == d;
        assert own[i] == end;
      }
      hide SpecifiersOf;
      VisitDeclaration(record, fixitsEnabled);
      assert end !in pending by { assert !IsMarker(end); }
      MarkerArrives(list, waiting, own, specifiersMap[record.id], pending, end, m.canonicalLoc.offset);
      SortedEntry(record.id);
      MarkerGoverns(specifiersMap[record.id], end, m.canonicalLoc.offset);
      t := QtAccessSpecifierType(Some(m));
    }

    lemma OnlyInside(id: ClassId, offset: nat)
      requires extents(id).0 < offset < extents(id).1
      requires forall c :: c in specifiersMap && c != id ==> !(extents(c).0 < offset < extents(c).1)
      ensures Encloses(id, FileLoc(offset)) && !InOtherClass(specifiersMap.Keys + {id}, id, FileLoc(offset))
    {
    }

    /** From the macro's name to the answer. */
    method SectionKind(name: string, offset: nat, next: Option<nat>, record: RecordDecl, fixitsEnabled: bool,
        m: MethodDecl) returns (t: QtAccess)
      requires Valid() && record.isQObject
      requires name == "slots" || name == "Q_SLOTS" || name == "signals" || name == "Q_SIGNALS"
      requires extents(record.id).0 < offset < extents(record.id).1
      requires forall c :: c in specifiersMap && c != record.id ==> !(extents(c).0 < offset < extents(c).1)
      requires AskedOfSections(m, record.id) && offset <= m.canonicalLoc.offset
      requires forall s :: s in ListOf(record.id) + pending + SpecifiersOf(record.own) ==>
        KeepsOut(s, offset, m.canonicalLoc.offset)
      modifies this
      ensures Valid()
      ensures name == "slots" || name == "Q_SLOTS" ==> t == QtSlot
      ensures name == "signals" || name == "Q_SIGNALS" ==> t == QtSignal
    {
      hide Conserved, Sorted, Encloses, InOtherClass, SpecifiersOf, KeepsOut;
      OnlyInside(record.id, offset);
      MacroExpands(name, FileLoc(offset), next);
      t := VisitAndAsk(pending[|pending| - 1], record, fixitsEnabled, m);
    }
  }
}
