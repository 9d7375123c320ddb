/** The one-column edit distance of `levenshtein_distance`, and what it measures. */
module Levenshtein {

  function Min(a: nat, b: nat): nat {
    if a <= b then a else b
  }

  function Mismatch(x: char, y: char): nat {
    if x == y then 0 else 1
  }

  function Init(s: string): string
    requires s != ""
  {
    s[..|s| - 1]
  }

  function Last(s: string): char
    requires s != ""
  {
    s[|s| - 1]
  }

  /** The two-dimensional recurrence, on whole texts. */
  function Distance(a: string, b: string): nat
    decreases |a| + |b|
  {
    if a == "" then |b|
    else if b == "" then |a|
    else Min(Min(Distance(Init(a), b) + 1, Distance(a, Init(b)) + 1),
             Distance(Init(a), Init(b)) + Mismatch(Last(a), Last(b)))
  }

  /** The entry of the two-dimensional table for the first `y` and `x` characters. */
  function Cell(s1: string, s2: string, y: nat, x: nat): nat
    requires y <= |s1| && x <= |s2|
  {
    Distance(s1[..y], s2[..x])
  }

  lemma CellStep(s1: string, s2: string, y: nat, x: nat)
    requires 1 <= y <= |s1| && 1 <= x <= |s2|
    ensures Cell(s1, s2, y, x) ==
      Min(Min(Cell(s1, s2, y - 1, x) + 1, Cell(s1, s2, y, x - 1) + 1),
          Cell(s1, s2, y - 1, x - 1) + Mismatch(s1[y - 1], s2[x - 1]))
  {
    assert Init(s1[..y]) == s1[..y - 1] && Init(s2[..x]) == s2[..x - 1];
  }

  lemma CellBorder(s1: string, s2: string, y: nat, x: nat)
    requires y <= |s1| && x <= |s2|
    ensures y == 0 ==> Cell(s1, s2, y, x) == x
    ensures x == 0 ==> Cell(s1, s2, y, x) == y
  {
  }

  /** `std::iota`: the column for the empty second text. */
  method FirstColumn(s1: string, s2: string, column: array<nat>)
    requires column.Length == |s1| + 1
    modifies column
    ensures forall i :: 0 <= i <= |s1| ==> column[i] == Cell(s1, s2, i, 0)
  {
    var k := 0;
    while k <= |s1|
      invariant 0 <= k <= |s1| + 1
      invariant forall i :: 0 <= i < k ==> column[i] == Cell(s1, s2, i, 0)
    {
      CellBorder(s1, s2, k, 0);
      column[k] := k;
      k := k + 1;
    }
  }

  /** One column, overwritten in place: below `y` it is the new column, from `y` on still the old one. */
  method LevenshteinDistance(s1: string, s2: string) returns (result: nat)
    ensures result == Distance(s1, s2)
  {
    hide Distance, Cell;
    var s1len, s2len := |s1|, |s2|;
    var column := new nat[s1len + 1];
    FirstColumn(s1, s2, column);
    var x := 1;
    while x <= s2len
      invariant 1 <= x <= s2len + 1
      invariant forall i :: 0 <= i <= s1len ==> column[i] == Cell(s1, s2, i, x - 1)
    {
      CellBorder(s1, s2, 0, x);
      CellBorder(s1, s2, 0, x - 1);
      column[0] := x;
      var lastDiagonal := x - 1;
      var y := 1;
      while y <= s1len
        invariant 1 <= y <= s1len + 1
        invariant forall i :: 0 <= i < y ==> column[i] == Cell(s1, s2, i, x)
        invariant forall i :: y <= i <= s1len ==> column[i] == Cell(s1, s2, i, x - 1)
        invariant lastDiagonal == Cell(s1, s2, y - 1, x - 1)
      {
        CellStep(s1, s2, y, x);
        var oldDiagonal := column[y];
        column[y] := Min(Min(column[y] + 1, column[y - 1] + 1),
                         lastDiagonal + (if s1[y - 1] == s2[x - 1] then 0 else 1));
        lastDiagonal := oldDiagonal;
        y := y + 1;
      }
      x := x + 1;
    }
    result := column[s1len];
    WholeCell(s1, s2);
  }

  lemma WholeCell(s1: string, s2: string)
    ensures Cell(s1, s2, |s1|, |s2|) == Distance(s1, s2)
  {
    assert s1[..|s1|] == s1 && s2[..|s2|] == s2;
  }

  // ----- a metric -----

  lemma {:induction false} LengthBounds(a: string, b: string)
    ensures Distance(a, b) >= |a| - |b| && Distance(a, b) >= |b| - |a|
    ensures Distance(a, b) <= if |a| >= |b| then |a| else |b|
    decreases |a| + |b|
  {
    if a != "" && b != "" {
      LengthBounds(Init(a), b);
      LengthBounds(a, Init(b));
      LengthBounds(Init(a), Init(b));
    }
  }

  lemma {:induction false} ZeroOnlyOnEqual(a: string, b: string)
    ensures Distance(a, b) == 0 <==> a == b
    decreases |a| + |b|
  {
    if a != "" && b != "" {
      ZeroOnlyOnEqual(Init(a), Init(b));
      assert a == Init(a) + [Last(a)] && b == Init(b) + [Last(b)];
    }
  }

  lemma {:induction false} Symmetric(a: string, b: string)
    ensures Distance(a, b) == Distance(b, a)
    decreases |a| + |b|
  {
    if a != "" && b != "" {
      Symmetric(Init(a), b);
      Symmetric(a, Init(b));
      Symmetric(Init(a), Init(b));
    }
  }

  lemma {:induction false} Triangle(a: string, b: string, c: string)
    ensures Distance(a, c) <= Distance(a, b) + Distance(b, c)
    decreases |a| + |b| + |c|
  {
    LengthBounds(a, c);
    LengthBounds(a, b);
    LengthBounds(b, c);
    if a != "" && b != "" && c != "" {
      var a', b', c' := Init(a), Init(b), Init(c);
      if Distance(a, b) == Distance(a', b) + 1 {
        Triangle(a', b, c);
      } else if Distance(b, c) == Distance(b, c') + 1 {
        Triangle(a, b, c');
      } else if Distance(a, b) == Distance(a, b') + 1 {
        if Distance(b, c) == Distance(b', c) + 1 {
          Triangle(a, b', c);
        } else {
          Triangle(a, b', c');
        }
      } else if Distance(b, c) == Distance(b', c) + 1 {
        Triangle(a', b', c);
      } else {
        Triangle(a', b', c');
      }
    }
  }

  // ----- edit scripts -----

  /** One edit of a text, at any place. */
  datatype Edit = Insert(at: nat, c: char) | Delete(at: nat) | Substitute(at: nat, c: char)

  predicate Applies(e: Edit, s: string) {
    if e.Insert? then e.at <= |s| else e.at < |s|
  }

  function Apply(e: Edit, s: string): string
    requires Applies(e, s)
  {
    match e
    case Insert(at, c) => s[..at] + [c] + s[at..]
    case Delete(at) => s[..at] + s[at + 1..]
    case Substitute(at, c) => s[..at] + [c] + s[at + 1..]
  }

  /** The script turns `a` into `b`, edit by edit. */
  predicate Turns(script: seq<Edit>, a: string, b: string)
    decreases |script|
  {
    if script == [] then a == b
    else Applies(script[0], a) && Turns(script[1..], Apply(script[0], a), b)
  }

  lemma {:induction false} SameSuffix(a: string, b: string, w: string)
    ensures Distance(a + w, b + w) <= Distance(a, b)
    decreases |w|
  {
    if w == "" {
      assert a + w == a && b + w == b;
    } else {
      SameSuffix(a, b, Init(w));
      InitOfSum(a, w);
      InitOfSum(b, w);
      SameLast(a + w, b + w);
    }
  }

  lemma InitOfSum(a: string, w: string)
    requires w != ""
    ensures Init(a + w) == a + Init(w) && Last(a + w) == Last(w)
  {
  }

  /** A common last character does not add to the distance. */
  lemma SameLast(a: string, b: string)
    requires a != "" && b != "" && Last(a) == Last(b)
    ensures Distance(a, b) <= Distance(Init(a), Init(b))
  {
  }

  lemma OneMore(p: string, c: char)
    ensures Distance(p, p + [c]) <= 1 && Distance(p + [c], p) <= 1
  {
    ZeroOnlyOnEqual(p, p);
    assert Init(p + [c]) == p;
  }

  lemma OneOther(p: string, c: char, d: char)
    ensures Distance(p + [c], p + [d]) <= 1
  {
    ZeroOnlyOnEqual(p, p);
    assert Init(p + [c]) == p && Init(p + [d]) == p;
  }

  lemma OneEdit(e: Edit, s: string)
    requires Applies(e, s)
    ensures Distance(s, Apply(e, s)) <= 1
  {
    hide Distance;
    var p := s[..e.at];
    if e.Insert? {
      var w := s[e.at..];
      assert s == p + w;
      OneMore(p, e.c);
      SameSuffix(p, p + [e.c], w);
    } else {
      var q, w := p + [s[e.at]], s[e.at + 1..];
      assert s == q + w;
      if e.Delete? {
        OneMore(p, s[e.at]);
        SameSuffix(q, p, w);
      } else {
        OneOther(p, s[e.at], e.c);
        SameSuffix(q, p + [e.c], w);
      }
    }
  }

  /** No script is shorter than the distance. */
  lemma {:induction false} NoShorterScript(script: seq<Edit>, a: string, b: string)
    requires Turns(script, a, b)
    ensures Distance(a, b) <= |script|
    decreases |script|
  {
    if script == [] {
      ZeroOnlyOnEqual(a, b);
    } else {
      var a' := Apply(script[0], a);
      NoShorterScript(script[1..], a', b);
      OneEdit(script[0], a);
      Triangle(a, a', b);
    }
  }

  /** A script of exactly that length. */
  function BestScript(a: string, b: string): seq<Edit>
    decreases |a| + |b|
  {
    if a == "" && b == "" then []
    else if a == "" || (b != "" && Distance(a, b) == Distance(a, Init(b)) + 1) then
      BestScript(a, Init(b)) + [Insert(|b| - 1, Last(b))]
    else if b == "" || Distance(a, b) == Distance(Init(a), b) + 1 then
      BestScript(Init(a), b) + [Delete(|b|)]
    else
      BestScript(Init(a), Init(b)) + (if Last(a) == Last(b) then [] else [Substitute(|b| - 1, Last(b))])
  }

  lemma {:induction false} TurnsAppend(script: seq<Edit>, more: seq<Edit>, a: string, b: string, c: string)
    requires Turns(script, a, b) && Turns(more, b, c)
    ensures Turns(script + more, a, c)
    decreases |script|
  {
    hide Apply, Applies;
    if script == [] {
      assert script + more == more;
    } else {
      assert (script + more)[1..] == script[1..] + more;
      TurnsAppend(script[1..], more, Apply(script[0], a), b, c);
    }
  }

  lemma ApplyBefore(e: Edit, a: string, w: string)
    requires Applies(e, a)
    ensures Applies(e, a + w) && Apply(e, a + w) == Apply(e, a) + w
  {
    assert (a + w)[..e.at] == a[..e.at];
    if e.Insert? {
      assert (a + w)[e.at..] == a[e.at..] + w;
    } else {
      assert (a + w)[e.at + 1..] == a[e.at + 1..] + w;
    }
  }

  /** A script does not touch what follows its text. */
  lemma {:induction false} TurnsBefore(script: seq<Edit>, a: string, b: string, w: string)
    requires Turns(script, a, b)
    ensures Turns(script, a + w, b + w)
    decreases |script|
  {
    hide Apply, Applies;
    if script != [] {
      ApplyBefore(script[0], a, w);
      TurnsBefore(script[1..], Apply(script[0], a), b, w);
    }
  }

  lemma TurnsOne(e: Edit, s: string)
    requires Applies(e, s)
    ensures Turns([e], s, Apply(e, s))
  {
    assert [e][1..] == [];
  }

  /** One more edit at the end of a script. */
  lemma TurnsThen(script: seq<Edit>, a: string, m: string, e: Edit)
    requires Turns(script, a, m) && Applies(e, m)
    ensures Turns(script + [e], a, Apply(e, m))
  {
    TurnsOne(e, m);
    TurnsAppend(script, [e], a, m, Apply(e, m));
  }

  lemma LastEdits(p: string, c: char, d: char)
    ensures Applies(Insert(|p|, c), p) && Apply(Insert(|p|, c), p) == p + [c]
    ensures Applies(Delete(|p|), p + [c]) && Apply(Delete(|p|), p + [c]) == p
    ensures Applies(Substitute(|p|, d), p + [c]) && Apply(Substitute(|p|, d), p + [c]) == p + [d]
  {
  }

  lemma DistanceStep(a: string, b: string)
    ensures a == "" ==> Distance(a, b) == |b|
    ensures b == "" ==> Distance(a, b) == |a|
    ensures a != "" && b != "" ==>
      || Distance(a, b) == Distance(a, Init(b)) + 1
      || Distance(a, b) == Distance(Init(a), b) + 1
      || Distance(a, b) == Distance(Init(a), Init(b)) + Mismatch(Last(a), Last(b))
    ensures a == "" && b != "" ==> Distance(a, b) == Distance(a, Init(b)) + 1
    ensures a != "" && b == "" ==> Distance(a, b) == Distance(Init(a), b) + 1
  {
  }

  lemma BestScriptStep(a: string, b: string)
    ensures BestScript(a, b) ==
      if a == "" && b == "" then []
      else if a == "" || (b != "" && Distance(a, b) == Distance(a, Init(b)) + 1) then
        BestScript(a, Init(b)) + [Insert(|b| - 1, Last(b))]
      else if b == "" || Distance(a, b) == Distance(Init(a), b) + 1 then
        BestScript(Init(a), b) + [Delete(|b|)]
      else
        BestScript(Init(a), Init(b)) + (if Last(a) == Last(b) then [] else [Substitute(|b| - 1, Last(b))])
  {
    hide Distance;
  }

  lemma {:induction false} BestScriptWorks(a: string, b: string)
    ensures Turns(BestScript(a, b), a, b) && |BestScript(a, b)| == Distance(a, b)
    decreases |a| + |b|
  {
    hide Turns, Apply, Applies, BestScript, Distance;
    DistanceStep(a, b);
    BestScriptStep(a, b);
    if a == "" && b == "" {
      NothingToDo();
    } else if a == "" || (b != "" && Distance(a, b) == Distance(a, Init(b)) + 1) {
      BestScriptWorks(a, Init(b));
      LastEdits(Init(b), Last(b), Last(b));
      TurnsThen(BestScript(a, Init(b)), a, Init(b), Insert(|b| - 1, Last(b)));
      assert Init(b) + [Last(b)] == b;
    } else {
      var x := Last(a);
      assert a == Init(a) + [x];
      if b == "" || Distance(a, b) == Distance(Init(a), b) + 1 {
        BestScriptWorks(Init(a), b);
        TurnsBefore(BestScript(Init(a), b), Init(a), b, [x]);
        LastEdits(b, x, x);
        TurnsThen(BestScript(Init(a), b), a, b + [x], Delete(|b|));
      } else {
        var b', y := Init(b), Last(b);
        assert b == b' + [y];
        BestScriptWorks(Init(a), b');
        TurnsBefore(BestScript(Init(a), b'), Init(a), b', [x]);
        if x != y {
          LastEdits(b', x, y);
          TurnsThen(BestScript(Init(a), b'), a, b' + [x], Substitute(|b'|, y));
        } else {
          assert BestScript(Init(a), b') + [] == BestScript(Init(a), b');
        }
      }
    }
  }

  lemma NothingToDo()
    ensures Turns([], "", "")
  {
  }

  /** The distance is the length of a shortest script, and is reached. */
  lemma DistanceIsOptimal(a: string, b: string)
    ensures exists script :: Turns(script, a, b) && |script| == Distance(a, b)
    ensures forall script :: Turns(script, a, b) ==> Distance(a, b) <= |script|
  {
    BestScriptWorks(a, b);
    forall script | Turns(script, a, b) ensures Distance(a, b) <= |script| {
      NoShorterScript(script, a, b);
    }
  }
}
