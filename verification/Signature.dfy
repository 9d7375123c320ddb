/** `normalizedType` and `normalizedSignature`: from whole texts to normal forms. */
module Signature {
  import opened CText
  import opened Whitespace
  import opened NormalizeSpec
  import opened NormalizeType

  /** How many characters come before the end of a parameter type: `,` or `)` outside template brackets. */
  function TypeLength(s: string, depth: int): (n: nat)
    ensures n <= |s|
    ensures n < |s| ==> s[n] == ',' || s[n] == ')'
  {
    if s == "" || (depth == 0 && (s[0] == ',' || s[0] == ')')) then 0
    else 1 + TypeLength(s[1..], if s[0] == '<' then depth + 1 else if s[0] == '>' then depth - 1 else depth)
  }

  /** The normal form of the parameter type that fills the first `n` characters; a lone `void)` has none. */
  function Parameter(s: CString, n: nat): string
    requires n <= |s|
  {
    if StrNEqual("void)", s, n + 1) then "" else Normalize(s[..n], CharAt(s, n), true)
  }

  /** `normalizedType` */
  function NormalizedTypeOf(text: CString): string {
    SqueezeKeepsNulFree(text, '\0');
    var s: CString := RemoveWhitespace(text);
    if text == "" then "" else Parameter(s, TypeLength(s, 0))
  }

  /** The signature loop over squeezed text, `argDepth` parentheses deep. */
  function SignatureFrom(s: CString, argDepth: int): string
    decreases |s|
  {
    if s == "" then ""
    else if argDepth == 1 then
      var n := TypeLength(s, 0);
      Parameter(s, n) +
      (if n == |s| then "" else [s[n]] + SignatureFrom(s[n + 1..], if s[n] == ')' then 0 else 1))
    else
      [s[0]] +
      SignatureFrom(s[1..], if s[0] == '(' then argDepth + 1 else if s[0] == ')' then argDepth - 1 else argDepth)
  }

  /** `normalizedSignature` */
  function NormalizedSignatureOf(text: CString): string {
    SqueezeKeepsNulFree(text, '\0');
    SignatureFrom(RemoveWhitespace(text), 0)
  }

  lemma EmptyNormalForm(stop: char)
    ensures Normalize("", stop, true) == ""
  {
  }

  /** A text of blanks alone has no type in it. */
  lemma BlankType(text: CString)
    requires RemoveWhitespace(text) == ""
    ensures NormalizedTypeOf(text) == ""
  {
    EmptyNormalForm('\0');
  }

  /** Among the blanks between tokens only those in gaps matter, for any text. */
  lemma OnlyGapsMatter(a: CString, b: CString)
    requires Tokens(a) == Tokens(b) && GapsOf(a) == GapsOf(b)
    ensures NormalizedTypeOf(a) == NormalizedTypeOf(b) && NormalizedSignatureOf(a) == NormalizedSignatureOf(b)
  {
    hide Parameter, SignatureFrom, TypeLength, Tokens, GapsOf, RemoveWhitespace;
    SqueezedAlikeExactly(a, b);
    if a == "" || b == "" {
      EmptyIsSqueezed();
      BlankType(a);
      BlankType(b);
    }
  }

  lemma EmptyIsSqueezed()
    ensures RemoveWhitespace("") == ""
  {
  }

  /** One more character belongs to the parameter. */
  lemma ParameterGoesOn(buf: CString, d: nat, depth: int)
    requires d < |buf| && (depth != 0 || (buf[d] != ',' && buf[d] != ')'))
    ensures TypeLength(buf[d..], depth) ==
      1 + TypeLength(buf[d + 1..], if buf[d] == '<' then depth + 1 else if buf[d] == '>' then depth - 1 else depth)
  {
    assert buf[d..][0] == buf[d] && buf[d..][1..] == buf[d + 1..];
  }

  lemma ParameterEnds(buf: CString, d: nat, depth: int)
    requires d <= |buf| && (d < |buf| ==> depth == 0 && (buf[d] == ',' || buf[d] == ')'))
    ensures TypeLength(buf[d..], depth) == 0
  {
    assert d < |buf| ==> buf[d..][0] == buf[d];
  }

  /** `Parameter`, in terms of the range. */
  lemma ParameterOfRange(buf: CString, begin: nat, d: nat)
    requires begin <= d <= |buf|
    ensures Parameter(buf[begin..], d - begin) ==
      if StrNEqual("void)", buf[begin..], d - begin + 1) then "" else Normalize(buf[begin..d], CharAt(buf, d), true)
  {
    hide Normalize, StrNEqual;
    assert buf[begin..][..d - begin] == buf[begin..d];
    assert CharAt(buf[begin..], d - begin) == CharAt(buf, d);
  }

  /** `qNormalizeType`: called with balanced brackets it leaves them balanced, unless the text has ended. */
  method QNormalizeType(buf: CString, begin: nat, depth: int, before: string)
    returns (d: nat, templDepth: int, result: string)
    requires begin <= |buf| && depth == 0
    ensures d == begin + TypeLength(buf[begin..], 0) && d <= |buf|
    ensures d < |buf| ==> templDepth == 0
    ensures result == before + Parameter(buf[begin..], d - begin)
  {
    hide Normalize, StrNEqual, TypeLength, Parameter;
    d, templDepth, result := begin, depth, before;
    while d < |buf| && (templDepth != 0 || (buf[d] != ',' && buf[d] != ')'))
      invariant begin <= d <= |buf|
      invariant TypeLength(buf[begin..], 0) == d - begin + TypeLength(buf[d..], templDepth)
    {
      ParameterGoesOn(buf, d, templDepth);
      if buf[d] == '<' {
        templDepth := templDepth + 1;
      }
      if buf[d] == '>' {
        templDepth := templDepth - 1;
      }
      d := d + 1;
    }
    ParameterEnds(buf, d, templDepth);
    ParameterOfRange(buf, begin, d);
    if !StrNEqual("void)", buf[begin..], d - begin + 1) {
      var normal := NormalizeTypeInternal(buf, begin, d, true);
      result := result + normal;
    } else {
      assert before + "" == before;
    }
  }

  /** `normalizedType`, by way of a scratch buffer one longer than the text. */
  method NormalizedType(text: CString) returns (result: string)
    ensures result == NormalizedTypeOf(text)
  {
    hide Normalize, StrNEqual, TypeLength, Parameter, RemoveWhitespace;
    result := "";
    if text == "" {
      return;
    }
    var stackbuf := new char[|text| + 1];
    QRemoveWhitespace(text, stackbuf);
    var buf := Terminated(stackbuf, text);
    var d, templDepth;
    d, templDepth, result := QNormalizeType(buf, 0, 0, result);
    assert buf[0..] == buf;
  }

  /** The buffer read back as a C string. */
  method Terminated(stackbuf: array<char>, ghost text: CString) returns (buf: CString)
    requires |RemoveWhitespace(text)| < stackbuf.Length
    requires stackbuf[..|RemoveWhitespace(text)|] == RemoveWhitespace(text)
    requires stackbuf[|RemoveWhitespace(text)|] == '\0'
    ensures buf == RemoveWhitespace(text)
  {
    ghost var s := RemoveWhitespace(text);
    SqueezeKeepsNulFree(text, '\0');
    buf := "";
    var n := 0;
    while stackbuf[n] != '\0'
      invariant n <= |s| && buf == s[..n]
      decreases |s| - n
    {
      assert stackbuf[n] == stackbuf[..|s|][n];
      buf := buf + [stackbuf[n]];
      n := n + 1;
    }
  }

  lemma ParameterStep(buf: CString, d: nat, n: nat)
    requires d < |buf| && n == TypeLength(buf[d..], 0) && d + n < |buf|
    ensures buf[d + n] == ',' || buf[d + n] == ')'
    ensures SignatureFrom(buf[d..], 1) ==
      Parameter(buf[d..], n) + ([buf[d + n]] + SignatureFrom(buf[d + n + 1..], if buf[d + n] == ')' then 0 else 1))
  {
    hide Normalize, StrNEqual, TypeLength, Parameter;
    var s := buf[d..];
    assert s[n] == buf[d + n];
    assert s[n + 1..] == buf[d + n + 1..];
  }

  lemma LastParameterStep(buf: CString, d: nat)
    requires d < |buf| && d + TypeLength(buf[d..], 0) == |buf|
    ensures SignatureFrom(buf[d..], 1) == Parameter(buf[d..], |buf| - d)
  {
    hide Normalize, StrNEqual, TypeLength, Parameter;
  }

  lemma CharacterStep(buf: CString, d: nat, argDepth: int)
    requires d < |buf| && argDepth != 1
    ensures SignatureFrom(buf[d..], argDepth) == [buf[d]] +
      SignatureFrom(buf[d + 1..],
                    if buf[d] == '(' then argDepth + 1 else if buf[d] == ')' then argDepth - 1 else argDepth)
  {
    hide Normalize, StrNEqual;
    assert buf[d..][0] == buf[d] && buf[d..][1..] == buf[d + 1..];
  }

  /** `normalizedSignature` */
  method NormalizedSignature(text: CString) returns (result: string)
    ensures result == NormalizedSignatureOf(text)
  {
    hide Normalize, StrNEqual, SignatureFrom, Parameter, TypeLength, RemoveWhitespace;
    result := "";
    if text == "" {
      EmptySignature();
      return;
    }
    var stackbuf := new char[|text| + 1];
    QRemoveWhitespace(text, stackbuf);
    var buf := Terminated(stackbuf, text);
    var d, argDepth, templDepth := 0, 0, 0;
    ghost var whole := SignatureFrom(buf, 0);
    ghost var rest := whole;
    assert buf[0..] == buf;
    while d < |buf|
      invariant 0 <= d <= |buf| && templDepth == 0
      invariant rest == SignatureFrom(buf[d..], argDepth)
      invariant result + rest == whole
      decreases |buf| - d
    {
      ghost var before, start, depth := result, d, argDepth;
      if argDepth == 1 {
        d, templDepth, result := QNormalizeType(buf, d, templDepth, result);
        if d == |buf| {
          LastParameterStep(buf, start);
          return;
        }
        ParameterStep(buf, start, d - start);
      } else {
        CharacterStep(buf, d, argDepth);
      }
      if buf[d] == '(' {
        argDepth := argDepth + 1;
      }
      if buf[d] == ')' {
        argDepth := argDepth - 1;
      }
      rest := SignatureFrom(buf[d + 1..], argDepth);
      Assoc(result, [buf[d]], rest);
      Assoc(before, if depth == 1 then Parameter(buf[start..], d - start) else "", [buf[d]] + rest);
      result := result + [buf[d]];
      d := d + 1;
    }
    assert buf[d..] == "";
    EmptySignature();
  }

  lemma EmptySignature()
    ensures forall argDepth :: SignatureFrom("", argDepth) == ""
    ensures NormalizedSignatureOf("") == ""
  {
  }
}
