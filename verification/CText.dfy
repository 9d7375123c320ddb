/** Characters and NUL-terminated text, as the signature normaliser reads them. */
module CText {

  /** The characters before the terminating NUL of a C string. */
  type CString = s: string | '\0' !in s

  predicate IsSpace(c: char) {
    c == ' ' || c == '\t'
  }

  predicate IsIdentChar(c: char) {
    'a' <= c <= 'z' || 'A' <= c <= 'Z' || '0' <= c <= '9' || c == '_' || c == '$'
  }

  /** `*(s + i)`: the terminator itself may be read, nothing behind it. */
  function CharAt(s: CString, i: nat): char
    requires i <= |s|
  {
    if i < |s| then s[i] else '\0'
  }

  /** `strncmp(a, b, n) == 0`: equal up to `n` characters or a common terminator. */
  predicate StrNEqual(a: string, b: string, n: nat) {
    n == 0 || (if a == "" || b == "" then a == b else a[0] == b[0] && StrNEqual(a[1..], b[1..], n - 1))
  }

  lemma {:induction false} StrNEqualIsPrefix(a: string, b: string, n: nat)
    requires n <= |a|
    ensures StrNEqual(a, b, n) <==> a[..n] <= b
  {
    if n == 0 || b == "" {
    } else {
      StrNEqualIsPrefix(a[1..], b[1..], n - 1);
      assert a[..n] == [a[0]] + a[1..][..n - 1];
      assert b == [b[0]] + b[1..];
      if a[0] == b[0] && a[1..][..n - 1] <= b[1..] {
        assert b[..n] == [b[0]] + b[1..][..n - 1];
      }
      if a[..n] <= b {
        assert a[1..][..n - 1] == a[..n][1..] == b[..n][1..] == b[1..][..n - 1];
      }
    }
  }

  lemma {:induction false} StrNEqualWhole(a: string, b: string, n: nat)
    requires n > |a|
    ensures StrNEqual(a, b, n) <==> a == b
  {
    if a == "" || b == "" {
    } else {
      StrNEqualWhole(a[1..], b[1..], n - 1);
      assert a == [a[0]] + a[1..] && b == [b[0]] + b[1..];
    }
  }

  /** The text after its leading blanks. */
  function DropSpaces(s: string): (r: string)
    ensures |r| <= |s|
    ensures r == "" || !IsSpace(r[0])
  {
    if s != "" && IsSpace(s[0]) then DropSpaces(s[1..]) else s
  }

  lemma {:induction false} DropSpacesIsSuffix(s: string)
    ensures var r := DropSpaces(s); r == s[|s| - |r|..] && forall i :: 0 <= i < |s| - |r| ==> IsSpace(s[i])
  {
    if s != "" && IsSpace(s[0]) {
      DropSpacesIsSuffix(s[1..]);
      var r := DropSpaces(s);
      forall i | 0 <= i < |s| - |r| ensures IsSpace(s[i]) {
        if i > 0 {
          assert s[i] == s[1..][i - 1];
        }
      }
    }
  }

  lemma Assoc(a: string, b: string, c: string)
    ensures a + b + c == a + (b + c)
  {
  }

  function Repeat(c: char, n: nat): (r: string)
    ensures |r| == n && forall i :: 0 <= i < n ==> r[i] == c
  {
    seq(n, _ => c)
  }
}
