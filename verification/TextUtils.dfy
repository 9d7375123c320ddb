/** String helpers: `std::string::find`, and the splitting of `clazy_stl.h`. */
module TextUtils {

  predicate At(s: string, pattern: string, i: int) {
    0 <= i && i + |pattern| <= |s| && s[i..i + |pattern|] == pattern
  }

  /** The first place at or after `from` where `pattern` stands, or -1. */
  function Find(s: string, pattern: string, from: nat): (i: int)
    ensures i == -1 || (from <= i && At(s, pattern, i))
    ensures forall j :: from <= j && (i == -1 || j < i) ==> !At(s, pattern, j)
    decreases |s| - from
  {
    if from + |pattern| > |s| then -1
    else if At(s, pattern, from) then from
    else Find(s, pattern, from + 1)
  }

  /** The length of the text before the first separator. */
  function TokenLength(s: string, separator: char): (n: nat)
    ensures n <= |s| && (n < |s| ==> s[n] == separator) && separator !in s[..n]
  {
    if s == "" || s[0] == separator then 0 else
      var n := 1 + TokenLength(s[1..], separator);
      assert s[..n] == [s[0]] + s[1..][..n - 1];
      n
  }

  /** What repeated `std::getline` reads: tokens between separators, none behind a final one. */
  function Split(s: string, separator: char): seq<string>
    decreases |s|
  {
    if s == "" then []
    else
      var n := TokenLength(s, separator);
      if n == |s| then [s] else [s[..n]] + Split(s[n + 1..], separator)
  }

  /** `std::getline`: the characters up to a separator, which is read but not stored. */
  method GetLine(str: string, start: nat, separator: char) returns (token: string, pos: nat)
    requires start < |str|
    ensures start < pos <= |str|
    ensures Split(str[start..], separator) == [token] + Split(str[pos..], separator)
  {
    hide Split, TokenLength;
    token, pos := "", start;
    while pos < |str| && str[pos] != separator
      invariant start <= pos <= |str| && token == str[start..pos]
      invariant TokenLength(str[start..], separator) == pos - start + TokenLength(str[pos..], separator)
    {
      TokenGoesOn(str, separator, pos);
      token := token + [str[pos]];
      pos := pos + 1;
    }
    TokenEnds(str, separator, pos);
    TokenRead(str, separator, start, pos);
    if pos < |str| {
      pos := pos + 1;
    }
  }

  /** `splitString` */
  method SplitString(str: string, separator: char) returns (result: seq<string>)
    ensures result == Split(str, separator)
  {
    hide Split;
    result := [];
    var pos := 0;
    assert str[0..] == str;
    while pos < |str|
      invariant 0 <= pos <= |str|
      invariant result + Split(str[pos..], separator) == Split(str, separator)
      decreases |str| - pos
    {
      var token, next := GetLine(str, pos, separator);
      assert result + ([token] + Split(str[next..], separator)) == result + [token] + Split(str[next..], separator);
      result := result + [token];
      pos := next;
    }
    assert str[pos..] == "";
    NothingToSplit(separator);
  }

  lemma NothingToSplit(separator: char)
    ensures Split("", separator) == []
  {
  }

  lemma TokenGoesOn(str: string, separator: char, pos: nat)
    requires pos < |str| && str[pos] != separator
    ensures TokenLength(str[pos..], separator) == 1 + TokenLength(str[pos + 1..], separator)
  {
    assert str[pos..][0] == str[pos] && str[pos..][1..] == str[pos + 1..];
  }

  lemma TokenEnds(str: string, separator: char, pos: nat)
    requires pos <= |str| && (pos < |str| ==> str[pos] == separator)
    ensures TokenLength(str[pos..], separator) == 0
  {
    assert pos < |str| ==> str[pos..][0] == str[pos];
  }

  lemma WholeToken(s: string, separator: char)
    requires s != "" && TokenLength(s, separator) == |s|
    ensures Split(s, separator) == [s]
  {
    hide TokenLength;
  }

  lemma TokenRead(str: string, separator: char, start: nat, pos: nat)
    requires start < |str| && start <= pos <= |str| && TokenLength(str[start..], separator) == pos - start
    ensures Split(str[start..], separator) ==
      [str[start..pos]] + Split(str[if pos < |str| then pos + 1 else pos..], separator)
  {
    hide Split, TokenLength;
    var s := str[start..];
    assert s[..pos - start] == str[start..pos];
    if pos < |str| {
      assert s[pos - start + 1..] == str[pos + 1..];
      SplitStep(s, separator, pos - start);
    } else {
      assert str[pos..] == "" && s == str[start..pos];
      WholeToken(s, separator);
      NothingToSplit(separator);
    }
  }

  /** The tokens with separators between them. */
  function Joined(tokens: seq<string>, separator: char): string {
    if tokens == [] then ""
    else if |tokens| == 1 then tokens[0]
    else tokens[0] + [separator] + Joined(tokens[1..], separator)
  }

  lemma SplitStep(s: string, separator: char, n: nat)
    requires n == TokenLength(s, separator) < |s|
    ensures Split(s, separator) == [s[..n]] + Split(s[n + 1..], separator)
    ensures separator !in s[..n]
  {
    hide TokenLength;
  }

  lemma CutAt(s: string, n: nat)
    requires n < |s|
    ensures s == s[..n] + ([s[n]] + s[n + 1..])
  {
  }

  /** Splitting loses nothing but one final separator. */
  lemma {:induction false} SplitJoins(s: string, separator: char)
    ensures forall t :: t in Split(s, separator) ==> separator !in t
    ensures s == Joined(Split(s, separator), separator) || s == Joined(Split(s, separator), separator) + [separator]
    decreases |s|
  {
    if s != "" {
      var n := TokenLength(s, separator);
      if n < |s| {
        hide Split;
        SplitStep(s, separator, n);
        CutAt(s, n);
        var token, tail := s[..n], s[n + 1..];
        SplitJoins(tail, separator);
        var rest := Split(tail, separator);
        var tokens := [token] + rest;
        assert tokens[1..] == rest;
        JoinedStep(token, rest, tail, separator);
      } else {
        assert s[..n] == s;
      }
    }
  }

  lemma JoinedStep(token: string, rest: seq<string>, tail: string, separator: char)
    requires tail == Joined(rest, separator) || tail == Joined(rest, separator) + [separator]
    requires rest == [] ==> tail == ""
    ensures var whole, joined := token + ([separator] + tail), Joined([token] + rest, separator);
      whole == joined || whole == joined + [separator]
  {
    var joined := Joined([token] + rest, separator);
    assert ([token] + rest)[1..] == rest;
    if rest == [] {
      assert joined == token;
    } else {
      assert joined == token + [separator] + Joined(rest, separator);
      assert token + ([separator] + tail) == token + [separator] + tail;
    }
  }

  predicate NoneContains(tokens: seq<string>, separator: char) {
    forall k :: 0 <= k < |tokens| ==> separator !in tokens[k]
  }

  lemma NoneInTail(tokens: seq<string>, separator: char)
    requires tokens != [] && NoneContains(tokens, separator)
    ensures separator !in tokens[0] && NoneContains(tokens[1..], separator)
  {
  }

  lemma JoinedParts(tokens: seq<string>, separator: char)
    requires |tokens| > 1
    ensures Joined(tokens, separator) == tokens[0] + ([separator] + Joined(tokens[1..], separator))
  {
    var rest := Joined(tokens[1..], separator);
    assert Joined(tokens, separator) == tokens[0] + [separator] + rest;
  }

  /** A final empty token is not read back. */
  function WithoutEmptyEnd(tokens: seq<string>): seq<string> {
    if tokens != [] && tokens[|tokens| - 1] == "" then tokens[..|tokens| - 1] else tokens
  }

  /** What the joined text of a token list splits into. */
  lemma {:induction false} JoinedSplitsInto(tokens: seq<string>, separator: char)
    requires NoneContains(tokens, separator)
    ensures Split(Joined(tokens, separator), separator) == WithoutEmptyEnd(tokens)
    decreases |tokens|
  {
    if tokens == [] {
      NothingToSplit(separator);
    } else {
      NoneInTail(tokens, separator);
      if |tokens| == 1 {
        if tokens[0] == "" {
          NothingToSplit(separator);
        } else {
          LastToken(tokens[0], separator);
        }
      } else {
        hide Split, Joined, NoneContains;
        JoinedParts(tokens, separator);
        JoinedSplitsInto(tokens[1..], separator);
        FirstToken(tokens[0], Joined(tokens[1..], separator), separator);
        assert [tokens[0]] + WithoutEmptyEnd(tokens[1..]) == WithoutEmptyEnd(tokens);
      }
    }
  }

  /** A token list without separators is what its joined text splits into exactly if its last token is not empty. */
  lemma JoinedSplits(tokens: seq<string>, separator: char)
    requires NoneContains(tokens, separator)
    ensures Split(Joined(tokens, separator), separator) == tokens <==> tokens == [] || tokens[|tokens| - 1] != ""
  {
    hide Split, Joined, NoneContains;
    JoinedSplitsInto(tokens, separator);
  }

  lemma LastToken(t: string, separator: char)
    requires t != "" && separator !in t
    ensures Split(t, separator) == [t]
  {
    TokenBefore(t, "", separator);
    assert t + "" == t;
  }

  lemma FirstToken(t: string, rest: string, separator: char)
    requires separator !in t
    ensures Split(t + ([separator] + rest), separator) == [t] + Split(rest, separator)
  {
    hide Split, TokenLength;
    var s := t + ([separator] + rest);
    TokenBefore(t, [separator] + rest, separator);
    SplitStep(s, separator, |t|);
    assert s[..|t|] == t && s[|t| + 1..] == rest;
  }

  lemma {:induction false} TokenBefore(t: string, rest: string, separator: char)
    requires separator !in t && (rest == "" || rest[0] == separator)
    ensures TokenLength(t + rest, separator) == |t|
    decreases |t|
  {
    if t == "" {
      assert t + rest == rest;
    } else {
      assert (t + rest)[1..] == t[1..] + rest;
      assert t[0] != separator;
      TokenBefore(t[1..], rest, separator);
    }
  }
}
