/** Check-name globs, the regular expressions they are turned into, and what both accept. */
module Glob {
  import opened Options

  /** `*` stands for any run of characters, every other character for itself. */
  predicate GlobMatches(glob: string, name: string)
    decreases |glob|
  {
    if glob == "" then name == ""
    else if glob[0] == '*' then exists n :: 0 <= n <= |name| && GlobMatches(glob[1..], name[n..])
    else name != "" && name[0] == glob[0] && GlobMatches(glob[1..], name[1..])
  }

  predicate IsMeta(c: char) {
    c in "()^$|*+?.[]\\{}"
  }

  /** What one glob character adds to the expression. */
  function Escaped(c: char): string {
    if c == '*' then ".*" else if IsMeta(c) then ['\\', c] else [c]
  }

  function Body(glob: string): string {
    if glob == "" then "" else Escaped(glob[0]) + Body(glob[1..])
  }

  lemma BodyStep(glob: string, k: nat, before: string, text: string)
    requires k < |glob| && text == before + Escaped(glob[k])
    ensures text + Body(glob[k + 1..]) == before + Body(glob[k..])
  {
    assert glob[k..][1..] == glob[k + 1..];
    assert before + Escaped(glob[k]) + Body(glob[k + 1..]) == before + (Escaped(glob[k]) + Body(glob[k + 1..]));
  }

  /** The characters one glob character adds, pushed one after the other. */
  method PushEscaped(before: string, c: char) returns (text: string)
    ensures text == before + Escaped(c)
  {
    text := before;
    if c == '*' {
      text := text + ['.'];
    } else if IsMeta(c) {
      text := text + ['\\'];
    }
    text := text + [c];
  }

  /** `createRegexFromGlob`: the expression's text, grown character by character. */
  method CreateRegexFromGlob(glob: string) returns (text: string)
    ensures text == RegexText(glob)
  {
    hide Escaped, Body;
    text := "^";
    var k := 0;
    assert glob[0..] == glob;
    while k < |glob|
      invariant 0 <= k <= |glob|
      invariant text + Body(glob[k..]) == "^" + Body(glob)
    {
      ghost var before := text;
      text := PushEscaped(text, glob[k]);
      BodyStep(glob, k, before, text);
      k := k + 1;
    }
    assert glob[k..] == "";
    EmptyBody();
    assert text + "" == text;
    text := text + ['$'];
  }

  lemma EmptyBody()
    ensures Body("") == ""
  {
  }

  function RegexText(glob: string): string {
    "^" + Body(glob) + "$"
  }

  // ----- a fragment of the extended regular expressions of IEEE Std 1003.1, section 9.4 -----

  /** The characters with a meaning of their own outside brackets, section 9.4.3. */
  predicate IsSpecial(c: char) {
    c in ".[\\()*+?{|^$"
  }

  /** One character, given or any. */
  datatype Atom = Literal(c: char) | AnyCharacter

  /** An atom, once or any number of times. */
  datatype Piece = Piece(atom: Atom, starred: bool)

  predicate AtomMatches(a: Atom, c: char) {
    a.AnyCharacter? || a.c == c
  }

  /** The text is a concatenation of what the pieces stand for. */
  predicate PiecesMatch(ps: seq<Piece>, s: string)
    decreases |ps|
  {
    if ps == [] then s == ""
    else if ps[0].starred then
      exists n :: 0 <= n <= |s| && (forall i :: 0 <= i < n ==> AtomMatches(ps[0].atom, s[i]))
        && PiecesMatch(ps[1..], s[n..])
    else s != "" && AtomMatches(ps[0].atom, s[0]) && PiecesMatch(ps[1..], s[1..])
  }

  /** An ordinary character, a quoted special one, or a period; a `*` behind it repeats it. */
  function ParsePieces(text: string): Option<seq<Piece>>
    decreases |text|
  {
    if text == "" then Some([])
    else
      var quoted := text[0] == '\\' && |text| > 1;
      if !quoted && IsSpecial(text[0]) && text[0] != '.' then None
      else
        var atom := if quoted then Literal(text[1]) else if text[0] == '.' then AnyCharacter else Literal(text[0]);
        var rest := text[if quoted then 2 else 1..];
        var starred := rest != "" && rest[0] == '*';
        var more := ParsePieces(if starred then rest[1..] else rest);
        if more.None? then None else Some([Piece(atom, starred)] + more.value)
  }

  /** An expression anchored at both ends, as the code builds them. */
  function ParseAnchored(text: string): Option<seq<Piece>> {
    if |text| >= 2 && text[0] == '^' && text[|text| - 1] == '$' then ParsePieces(text[1..|text| - 1]) else None
  }

  /** `llvm::Regex::match` on an expression of the fragment. */
  predicate RegexMatches(text: string, name: string) {
    ParseAnchored(text).Some? && PiecesMatch(ParseAnchored(text).value, name)
  }

  // ----- both accept the same names -----

  function PieceOf(c: char): Piece {
    if c == '*' then Piece(AnyCharacter, true) else Piece(Literal(c), false)
  }

  function PiecesOf(glob: string): seq<Piece> {
    if glob == "" then [] else [PieceOf(glob[0])] + PiecesOf(glob[1..])
  }

  /** The text of a glob never starts with a star that could repeat what stands before it. */
  lemma BodyHead(glob: string)
    ensures Body(glob) != "" ==> Body(glob)[0] != '*'
  {
  }

  lemma {:induction false} ParseBody(glob: string)
    ensures ParsePieces(Body(glob)) == Some(PiecesOf(glob))
    decreases |glob|
  {
    if glob != "" {
      var c, rest := glob[0], Body(glob[1..]);
      ParseBody(glob[1..]);
      BodyHead(glob[1..]);
      var text := Escaped(c) + rest;
      if c == '*' {
        assert text[0] == '.' && text[1..] == ['*'] + rest && text[1..][1..] == rest;
      } else if IsMeta(c) {
        assert text[0] == '\\' && text[1] == c && text[2..] == rest;
      } else {
        assert text[0] == c && text[1..] == rest;
      }
    }
  }

  lemma {:induction false} PiecesMatchGlob(glob: string, name: string)
    ensures PiecesMatch(PiecesOf(glob), name) <==> GlobMatches(glob, name)
    decreases |glob|
  {
    if glob != "" {
      var ps := PiecesOf(glob);
      assert ps[1..] == PiecesOf(glob[1..]);
      if glob[0] == '*' {
        forall n | 0 <= n <= |name| ensures PiecesMatch(ps[1..], name[n..]) <==> GlobMatches(glob[1..], name[n..]) {
          PiecesMatchGlob(glob[1..], name[n..]);
        }
      } else if name != "" {
        PiecesMatchGlob(glob[1..], name[1..]);
      }
    }
  }

  /** The expression built from a glob is well formed and accepts exactly the names the glob accepts. */
  lemma RegexAcceptsWhatGlobAccepts(glob: string, name: string)
    ensures RegexMatches(RegexText(glob), name) <==> GlobMatches(glob, name)
  {
    var text := RegexText(glob);
    assert text[1..|text| - 1] == Body(glob);
    ParseBody(glob);
    PiecesMatchGlob(glob, name);
  }

  /** A glob without a star is just a name. */
  lemma {:induction false} PlainGlob(glob: string, name: string)
    requires '*' !in glob
    ensures GlobMatches(glob, name) <==> name == glob
    decreases |glob|
  {
    if glob != "" {
      assert glob == [glob[0]] + glob[1..];
      if name != "" {
        assert name == [name[0]] + name[1..];
        PlainGlob(glob[1..], name[1..]);
      }
    }
  }

  /** A star at the end of a name stands for any continuation. */
  lemma {:induction false} PrefixGlob(prefix: string, name: string)
    requires '*' !in prefix
    ensures GlobMatches(prefix + "*", name) <==> prefix <= name
    decreases |prefix|
  {
    var glob := prefix + "*";
    if prefix == "" {
      assert glob[1..] == "" && name[|name|..] == "";
      assert GlobMatches(glob[1..], name[|name|..]);
    } else {
      assert glob[0] == prefix[0] && glob[1..] == prefix[1..] + "*";
      if name != "" {
        PrefixGlob(prefix[1..], name[1..]);
        assert name == [name[0]] + name[1..] && prefix == [prefix[0]] + prefix[1..];
      }
    }
  }
}
