/** What the normaliser returns for a spelled type, in terms of the type. */
module TypeRender {
  import opened CText
  import opened NormalizeSpec
  import opened TypeGrammar

  /** The name after the type substitutions. */
  function ShortName(base: string): string {
    var p := Simplify(base);
    p.done + p.rest
  }

  predicate IsConst(ty: CppType) {
    ty.place != NoConst
  }

  /** The name and arguments; `closer` asks for the space that keeps two `>` apart. */
  function RenderBody(ty: CppType, closer: bool): string
    decreases ty, 0
  {
    ShortName(ty.base) + (if ty.args == [] then "" else "<" + RenderAll(ty.args) + ">" + (if closer then " " else ""))
  }

  /** A template argument: `const` moves to the front; the closer is missing if the code did not see the next `>`. */
  function RenderArg(ty: CppType, last: bool): string
    decreases ty, 1
  {
    (if IsConst(ty) then CONST_SPACE else "") + RenderBody(ty, last && SpellTail(ty) == "") + Suffix(ty.stars, ty.amps)
  }

  function RenderAll(tys: seq<CppType>): string
    requires tys != []
    decreases tys, 2
  {
    RenderArg(tys[0], |tys| == 1) + (if |tys| == 1 then "" else "," + RenderAll(tys[1..]))
  }

  /** `const` is in front once the text has been rebuilt. */
  predicate ConstLeads(ty: CppType) {
    ty.place == InFront || (ty.place == Behind && ty.args == [])
  }

  /** `const` follows a closing `>`. */
  predicate ConstTrails(ty: CppType) {
    ty.place == Behind && ty.args != []
  }

  /** The suffix of a parameter: a `const` between the last `*` and an `&` goes, and the `&` with it. */
  function Settled(stars: seq<bool>, amps: nat): string {
    if EndsConst(stars) && amps > 0 then Suffix(Unconst(stars), amps - 1) else Suffix(stars, amps)
  }

  /** A whole parameter type. */
  function RenderTop(ty: CppType): string {
    var body := RenderBody(ty, false);
    if ConstLeads(ty) && ty.amps > 0 then body + Settled(ty.stars, ty.amps - 1)
    else if ConstLeads(ty) && ty.stars != [] && !EndsConst(ty.stars) then CONST_SPACE + (body + Suffix(ty.stars, 0))
    else if ConstTrails(ty) && ty.stars == [] && ty.amps > 0 then body + Suffix([], ty.amps - 1)
    else body + Settled(ty.stars, ty.amps)
  }

  // ----- no keyword test succeeds past the name -----

  /** What may follow a name: nothing, template arguments, or the suffix. */
  predicate FollowsName(y: string) {
    y == "" || y[0] == '<' || y[0] == '*' || y[0] == '&'
  }

  lemma WordInName(lit: string, b: string, y: string)
    requires FollowsName(y)
    requires forall i :: 0 <= i < |lit| ==> IsIdentChar(lit[i]) || IsSpace(lit[i])
    ensures lit <= b + y <==> lit <= b
    ensures lit <= b ==> (b + y)[|lit|..] == b[|lit|..] + y
  {
    assert y != "" ==> (b + y)[|b|] == y[0];
    if lit <= b + y {
      assert forall i :: 0 <= i < |lit| ==> lit[i] == (b + y)[i];
      assert |lit| <= |b|;
      assert lit == (b + y)[..|lit|] == b[..|lit|];
    }
    if lit <= b {
      assert lit == b[..|lit|] == (b + y)[..|lit|];
    }
  }

  lemma ConstInName(b: string, y: string)
    requires FollowsName(y)
    ensures StartsWithConst(b + y) <==> StartsWithConst(b)
  {
    WordInName(CONST, b, y);
    if CONST <= b && |b + y| > 5 {
      assert (b + y)[5] == if |b| > 5 then b[5] else y[0];
    }
  }

  /** Inside a name no later `const` is found. */
  lemma NoConstInside(l: string, b: string, y: string, k: nat)
    requires l == "" || l == CONST_SPACE
    requires IsBase(b) && FollowsName(y)
    requires 1 <= k < |l| + |b|
    ensures !ConstWordAt(l + b + y, k)
    ensures var c := (l + b + y)[k]; c != '&' && c != '*' && c != '<'
  {
    var s := l + b + y;
    if k < |l| {
      assert s[k..][0] == s[k] == CONST_SPACE[k];
    } else {
      var j := k - |l|;
      assert s[k] == b[j];
      assert IsIdentChar(b[j]) || b[j] == ':' || b[j] == ' ';
      assert s[k..] == b[j..] + y;
      ConstInName(b[j..], y);
      if StartsWithConst(b[j..]) {
        assert j > 0 && IsIdentChar(b[j - 1]);
        assert s[k - 1] == b[j - 1];
      }
    }
  }

  lemma {:induction false} ScanName(l: string, b: string, y: string, k: nat)
    requires l == "" || l == CONST_SPACE
    requires IsBase(b) && FollowsName(y)
    requires 1 <= k <= |l| + |b|
    ensures ConstIndex(l + b + y, k) == ConstIndex(l + b + y, |l| + |b|)
    decreases |l| + |b| - k
  {
    hide IsBase, ConstWordAt;
    if k < |l| + |b| {
      NoConstInside(l, b, y, k);
      ScanName(l, b, y, k + 1);
    }
  }

  /** Without a `const` behind the bare name the text is not rebuilt. */
  lemma NothingToHoist(l: string, b: string, y: string)
    requires l == "" || l == CONST_SPACE
    requires IsBase(b) && FollowsName(y)
    ensures ConstIndex(l + b + y, 1) == |l + b + y|
  {
    var s, n := l + b + y, |l| + |b|;
    ScanName(l, b, y, 1);
    if y != "" {
      assert s[n] == y[0] && s[n..][0] == y[0];
    }
  }

  /** A `const` behind the bare name goes to the front. */
  lemma ConstBehindNameHoisted(b: string, y: string)
    requires IsBase(b) && FollowsName(y)
    ensures var s := b + " const" + y;
      ConstIndex(s, 1) == |b| + 1 < |s| && ConstWordAt(s, |b| + 1) && Hoist(s, |b| + 1) == CONST_SPACE + (b + y)
  {
    hide ConstIndex, Hoist;
    var s, n := b + " const" + y, |b|;
    ScanBareName(b, y, 1);
    ConstBehindName(b, y);
    ConstIndexStep(s, n);
    ConstIndexStep(s, n + 1);
    HoistBehindName(b, y);
  }

  /** The blank behind the name starts no word, and the character after it starts `const`. */
  lemma ConstBehindName(b: string, y: string)
    requires IsBase(b) && FollowsName(y)
    ensures var s := b + " const" + y;
      |s| > |b| + 5 && !ConstWordAt(s, |b|) && !EndsScan(s[|b|]) && ConstWordAt(s, |b| + 1)
  {
    var s, n := b + " const" + y, |b|;
    assert s[n..] == " const" + y && s[n] == ' ';
    assert s[n..][0] == ' ' && CONST[0] == 'c';
    assert s[n + 1..] == CONST + y;
    ConstInName(CONST, y);
  }

  lemma HoistBehindName(b: string, y: string)
    requires b != "" && ConstWordAt(b + " const" + y, |b| + 1)
    ensures Hoist(b + " const" + y, |b| + 1) == CONST_SPACE + (b + y)
  {
    hide ConstWordAt;
    var s, n := b + " const" + y, |b|;
    assert s[n] == ' ';
    assert s[..n] == b && s[n + 6..] == y;
  }

  /** Inside the name the scan goes on. */
  lemma NoConstInBareName(b: string, y: string, k: nat)
    requires IsBase(b) && 1 <= k < |b|
    ensures var s := b + " const" + y; !ConstWordAt(s, k) && !EndsScan(s[k])
  {
    var s := b + " const" + y;
    assert s[k..] == b[k..] + (" const" + y);
    assert s[k] == b[k] && s[k - 1] == b[k - 1];
    assert IsIdentChar(b[k]) || b[k] == ':' || b[k] == ' ';
    ConstBeforeBlank(b[k..], CONST + y);
    assert [' '] + (CONST + y) == " const" + y;
  }

  lemma {:induction false} ScanBareName(b: string, y: string, k: nat)
    requires IsBase(b) && FollowsName(y) && 1 <= k <= |b|
    ensures ConstIndex(b + " const" + y, k) == ConstIndex(b + " const" + y, |b|)
    decreases |b| - k
  {
    hide IsBase, ConstIndex, ConstWordAt, EndsScan;
    if k < |b| {
      NoConstInBareName(b, y, k);
      ConstIndexStep(b + " const" + y, k);
      ScanBareName(b, y, k + 1);
    }
  }

  lemma ConstBeforeBlank(b: string, z: string)
    requires b != ""
    ensures StartsWithConst(b + ([' '] + z)) ==> StartsWithConst(b)
  {
    var s := b + ([' '] + z);
    assert s[|b|] == ' ';
    if StartsWithConst(s) {
      assert forall i :: 0 <= i < 5 ==> CONST[i] == s[i];
      assert |b| >= 5;
      assert b[..5] == s[..5];
      if |b| > 5 {
        assert s[5] == b[5];
      }
    }
  }
}
