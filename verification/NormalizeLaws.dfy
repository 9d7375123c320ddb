/** What the character tests, the name table and the bracket counters of the normaliser mean. */
module NormalizeLaws {
  import opened CText
  import opened TokenTexts
  import opened Whitespace
  import opened NormalizeSpec
  import opened TypeRender
  import opened TypeProof

  const LOWER := "abcdefghijklmnopqrstuvwxyz"
  const UPPER := "ABCDEFGHIJKLMNOPQRSTUVWXYZ"
  const DIGITS := "0123456789"

  lemma IdentifierCharacters(c: char)
    ensures IsIdentChar(c) <==> c in LOWER || c in UPPER || c in DIGITS || c in "_$"
    ensures IsSpace(c) <==> c in [' ', '\t']
  {
    Lowers(c);
    Uppers(c);
    Digits(c);
  }

  lemma Lowers(c: char)
    ensures c in LOWER <==> 'a' <= c <= 'z'
  {
    if 'a' <= c <= 'z' {
      assert LOWER[c as int - 'a' as int] == c;
    }
  }

  lemma Uppers(c: char)
    ensures c in UPPER <==> 'A' <= c <= 'Z'
  {
    if 'A' <= c <= 'Z' {
      assert UPPER[c as int - 'A' as int] == c;
    }
  }

  lemma Digits(c: char)
    ensures c in DIGITS <==> '0' <= c <= '9'
  {
    if '0' <= c <= '9' {
      assert DIGITS[c as int - '0' as int] == c;
    }
  }

  // ----- the word `const` -----

  lemma {:induction false} FirstToken(word: string, s: string)
    requires word != ""
    ensures Lex(word, s) != [] && word <= Lex(word, s)[0]
    ensures Lex(word, s)[0] == word <==> s == "" || !IsIdentChar(s[0])
    decreases |s|
  {
    if s != "" && IsIdentChar(s[0]) {
      FirstToken(word + [s[0]], s[1..]);
      assert word <= word + [s[0]];
      assert |Lex(word, s)[0]| > |word|;
    }
  }

  lemma {:induction false} LexOfWord(word: string, w: string, rest: string)
    requires forall i :: 0 <= i < |w| ==> IsIdentChar(w[i])
    ensures Lex(word, w + rest) == Lex(word + w, rest)
    decreases |w|
  {
    if w == "" {
      assert w + rest == rest && word + w == word;
    } else {
      assert (w + rest)[0] == w[0] && (w + rest)[1..] == w[1..] + rest;
      LexOfWord(word + [w[0]], w[1..], rest);
      assert word + [w[0]] + w[1..] == word + w;
    }
  }

  /** The longest identifier at the head of a text. */
  function Run(s: string): (n: nat)
    ensures n <= |s| && (forall i :: 0 <= i < n ==> IsIdentChar(s[i])) && (n < |s| ==> !IsIdentChar(s[n]))
  {
    if s != "" && IsIdentChar(s[0]) then
      var n := 1 + Run(s[1..]);
      assert forall i :: 1 <= i < n ==> s[i] == s[1..][i - 1];
      n
    else 0
  }

  /** The test for a leading `const` succeeds exactly if that is the first token, with no blank before it. */
  lemma ConstIsAToken(s: string)
    ensures StartsWithConst(s) <==> s != "" && !IsSpace(s[0]) && Tokens(s) != [] && Tokens(s)[0] == CONST
  {
    hide StartsWithConst, Lex;
    var n := Run(s);
    FirstWordIsConst(s, n);
    assert |CONST| == 5;
    if n == 0 {
      if s != "" && !IsSpace(s[0]) {
        OtherToken(s);
        assert |Tokens(s)[0]| == 1;
      }
    } else {
      var w, rest := s[..n], s[n..];
      assert s == w + rest;
      LexOfWord("", w, rest);
      assert "" + w == w;
      FirstToken(w, rest);
      assert Tokens(s)[0] == w && IsIdentChar(s[0]);
    }
  }

  lemma OtherToken(s: string)
    requires s != "" && !IsSpace(s[0]) && !IsIdentChar(s[0])
    ensures Tokens(s) != [] && Tokens(s)[0] == [s[0]]
  {
    assert Lex("", s) == Flush("") + [[s[0]]] + Lex("", s[1..]);
  }

  lemma FirstWordIsConst(s: string, n: nat)
    requires n == Run(s)
    ensures StartsWithConst(s) <==> s[..n] == CONST
  {
    hide Run;
    assert CONST[0] == 'c' && CONST[1] == 'o' && CONST[2] == 'n' && CONST[3] == 's' && CONST[4] == 't';
    if CONST <= s {
      assert s[..5] == CONST;
      forall i | 0 <= i < 5 ensures IsIdentChar(s[i]) {
        assert s[..5][i] == s[i];
      }
      assert n >= 5;
      assert s[..n][..5] == CONST;
    }
  }

  // ----- the names with `unsigned` -----

  lemma ShortUnsigned(rest: string, name: string, covered: nat)
    requires rest == "" || !IsIdentChar(rest[0])
    requires UnsignedName(rest) == (name, covered)
    ensures ShortName("unsigned" + rest) == if name == "" then "unsigned" + rest else name + rest[covered..]
  {
    hide UnsignedName;
    var b := "unsigned" + rest;
    assert "unsigned" <= b && b[8..] == rest;
    assert |b| > 8 ==> b[8] == rest[0];
    assert b[8 + covered..] == rest[covered..];
    assert "" + b == b;
  }

  lemma StartsDifferently(rest: string)
    requires |rest| > 1 && rest[0] == ' '
    ensures rest[1] != 'i' ==> !(" int" <= rest)
    ensures rest[1] != 'l' ==> !(" long" <= rest)
    ensures rest[1] != 's' ==> !(" short" <= rest)
    ensures rest[1] != 'c' ==> !(" char" <= rest)
  {
    assert " int"[1] == 'i' && " long"[1] == 'l' && " short"[1] == 's' && " char"[1] == 'c';
  }

  /** `unsigned` and `unsigned int` are `uint`, with anything else behind them that is no other known word. */
  lemma UnsignedIsUint(other: string)
    requires other != "" && other[0] !in "ilsc"
    ensures ShortName("unsigned" + "") == "uint" && ShortName("unsigned" + " int") == "uint"
    ensures ShortName("unsigned" + (" " + other)) == "uint " + other
  {
    assert UnsignedName("") == ("uint", 0);
    ShortUnsigned("", "uint", 0);
    assert UnsignedName(" int") == ("uint", 4);
    ShortUnsigned(" int", "uint", 4);
    assert "uint" + ""[0..] == "uint" && " int"[4..] == "";
    var rest := " " + other;
    assert rest[0] == ' ' && rest[1] == other[0];
    StartsDifferently(rest);
    assert UnsignedName(rest) == ("uint", 0);
    ShortUnsigned(rest, "uint", 0);
    assert "uint" + rest[0..] == "uint " + other;
  }

  /** `unsigned long` alone is `ulong`; with `int` or `long` behind it, and for `short` and `char`, nothing changes. */
  lemma UnsignedLongShortChar()
    ensures ShortName("unsigned" + " long") == "ulong"
    ensures ShortName("unsigned" + " long int") == "unsigned" + " long int"
    ensures ShortName("unsigned" + " long long") == "unsigned" + " long long"
    ensures ShortName("unsigned" + " short") == "unsigned" + " short"
    ensures ShortName("unsigned" + " char") == "unsigned" + " char"
  {
    hide ShortName;
    StartsDifferently(" long");
    StartsDifferently(" long int");
    StartsDifferently(" long long");
    StartsDifferently(" short");
    StartsDifferently(" char");
    assert " long"[5..] == "" && " long int"[5..] == " int" && " long long"[5..] == " long";
    assert " long int"[..5] == " long" && " long long"[..5] == " long";
    ShortUnsigned(" long", "ulong", 5);
    ShortUnsigned(" long int", "", 0);
    ShortUnsigned(" long long", "", 0);
    ShortUnsigned(" short", "", 0);
    ShortUnsigned(" char", "", 0);
    assert "ulong" + "" == "ulong";
  }

  /** A longer word that begins like `unsigned` is a name of its own. */
  lemma UnsignedPrefix(rest: string)
    requires rest != "" && IsIdentChar(rest[0])
    ensures ShortName("unsigned" + rest) == "unsigned" + rest
  {
    var b := "unsigned" + rest;
    assert "unsigned" <= b && b[8] == rest[0];
    assert "" + b == b;
  }

  lemma BeginsOtherwise(word: string, s: string)
    requires word != "" && s != "" && word[0] != s[0]
    ensures !(word <= s)
  {
  }

  lemma Keyword(keyword: string, name: string)
    requires keyword in {"struct ", "class ", "enum "}
    ensures Simplify(keyword + name) == Step("", name)
  {
    var s := keyword + name;
    assert keyword <= s && s[|keyword|..] == name && s[0] == keyword[0];
    BeginsOtherwise("unsigned", s);
    if keyword != "struct " {
      BeginsOtherwise("struct ", s);
      if keyword != "class " {
        BeginsOtherwise("class ", s);
      }
    }
  }

  /** `struct`, `class` and `enum` go, with the blank behind them. */
  lemma ElaborationGoes(name: string)
    ensures ShortName("struct " + name) == ShortName("class " + name) == ShortName("enum " + name) == name
  {
    hide Simplify;
    Keyword("struct ", name);
    Keyword("class ", name);
    Keyword("enum ", name);
    assert "" + name == name;
  }

  // ----- brackets in template arguments -----

  function Weight(c: char): int {
    if c in "{([" then 1 else if c in "})]" then -1 else 0
  }

  /** How many brackets are open behind the first `n` characters, other than angle brackets. */
  function OpenAfter(s: string, n: nat): int
    requires n <= |s|
  {
    if n == 0 then 0 else Weight(s[0]) + OpenAfter(s[1..], n - 1)
  }

  /** With `open` brackets open before it, one at least stays open within the first `n` characters and behind them. */
  predicate StaysOpen(s: string, n: nat, open: int)
    requires n <= |s|
  {
    open >= 1 && (n > 0 ==> StaysOpen(s[1..], n - 1, open + Weight(s[0])))
  }

  lemma OneInside(s: string, depth: int, open: int)
    requires s != "" && open + Weight(s[0]) != 0
    ensures ArgLength(s, depth, open) == 1 + ArgLength(s[1..], depth, open + Weight(s[0]))
  {
  }

  /** Nothing inside brackets ends or divides an argument, neither commas nor angle brackets. */
  lemma {:induction false} InsideBrackets(s: string, n: nat, depth: int, open: int)
    requires n <= |s| && StaysOpen(s, n, open)
    ensures ArgLength(s, depth, open) == n + ArgLength(s[n..], depth, open + OpenAfter(s, n))
    decreases n
  {
    hide ArgLength, Weight;
    if n > 0 {
      var t, open' := s[1..], open + Weight(s[0]);
      OneInside(s, depth, open);
      InsideBrackets(t, n - 1, depth, open');
      assert t[n - 1..] == s[n..];
    } else {
      assert s[0..] == s;
    }
  }

  /** A bracketed part of an argument is passed over as a whole, whatever kinds its brackets are of. */
  lemma BracketsAreSkipped(s: string, n: nat, depth: int)
    requires n + 2 <= |s| && depth >= 1 && s[0] in "{([" && s[n + 1] in "})]"
    requires StaysOpen(s[1..], n, 1) && OpenAfter(s[1..], n) == 0
    ensures ArgLength(s, depth, 0) == n + 2 + ArgLength(s[n + 2..], depth, 0)
  {
    hide ArgLength, StaysOpen, OpenAfter;
    var t := s[1..];
    OneInside(s, depth, 0);
    InsideBrackets(t, n, depth, 1);
    ClosesBrackets(t[n..], depth);
    assert t[n..][1..] == s[n + 2..];
  }

  lemma ClosesBrackets(s: string, depth: int)
    requires s != "" && s[0] in "})]" && depth >= 1
    ensures ArgLength(s, depth, 1) == 1 + ArgLength(s[1..], depth, 0)
  {
  }

  lemma {:induction false} NothingCloses(s: string)
    requires forall c :: c in s ==> c !in "<>,"
    ensures forall scope :: ArgLength(s, 1, scope) == |s|
    decreases |s|
  {
    if s != "" {
      assert s[0] in s && forall c :: c in s[1..] ==> c in s;
      NothingCloses(s[1..]);
      forall scope ensures ArgLength(s, 1, scope) == |s| {
        assert ArgLength(s[1..], 1, scope + Weight(s[0])) == |s| - 1;
      }
    }
  }

  /** Arguments that are never closed are lost, the whole text behind the `<`. */
  lemma UnclosedArgumentsGo(s: string, stop: char, adjustConst: bool, star: bool, out: string)
    requires forall c :: c in s ==> c !in "<>,"
    ensures Emit("<" + s, stop, adjustConst, star, out) == out + "<"
  {
    hide ArgLength;
    NothingCloses(s);
    var t := "<" + s;
    assert t[0] == '<' && t[1..] == s;
    assert Arguments(s, stop) == Step("", "");
    assert out + ['<'] + "" == out + "<";
  }

  // ----- blanks behind a `const` -----

  /** Behind a star a `const` is kept without the blank that separates it from a name. */
  lemma BlankBehindConstGoes(name: string, stop: char, adjustConst: bool, out: string)
    requires name != "" && IsIdentChar(name[0])
    ensures Emit("*const " + name, stop, adjustConst, false, out) == Emit(name, stop, adjustConst, true, out + "*const")
  {
    hide Emit;
    var s, rest := "*const " + name, "const " + name;
    assert s[0] == '*' && s[1..] == rest;
    EmitPlaces(s, stop, adjustConst, false, out);
    assert CONST <= rest by { assert rest[..5] == CONST; }
    assert rest[5] == ' ' && rest[5..] == " " + name;
    assert DropSpaces(" " + name) == name by {
      assert (" " + name)[1..] == name;
    }
    assert out + ['*'] + CONST == out + "*const";
  }
}
