/** NUL-terminated strings. */
module CStrings {
  const NUL := 0 as char

  /** A C string holds no NUL character. */
  predicate NulFree(s: string) { forall i :: 0 <= i < |s| ==> s[i] != NUL }

  /** The part of a text a C program sees as a string. */
  function CString(s: string): (c: string)
    ensures NulFree(c) && c <= s && (c == s || s[|c|] == NUL)
  {
    if s == "" || s[0] == NUL then "" else [s[0]] + CString(s[1..])
  }

  lemma {:induction false} CStringUnique(s: string, n: nat)
    requires n <= |s| && NulFree(s[..n]) && (n == |s| || s[n] == NUL)
    ensures CString(s) == s[..n]
  {
    if n > 0 {
      assert s[1..][..n - 1] == s[..n][1..];
      CStringUnique(s[1..], n - 1);
      assert s[0] != NUL by {
        assert s[..n][0] != NUL;
      }
    }
  }

  /** The array holds a text and a NUL character behind it. */
  ghost predicate Terminated(a: array<char>, s: string)
    reads a
  {
    |s| < a.Length && a[..|s|] == s && a[|s|] == NUL
  }

  /** The array holds a C string. */
  ghost predicate HoldsText(a: array<char>, s: string)
    reads a
  {
    Terminated(a, s) && NulFree(s)
  }

  /** The C string an array holds. */
  method ReadCString(a: array<char>, ghost s: string) returns (c: string)
    requires Terminated(a, s)
    ensures c == CString(s)
  {
    var length := 0;
    assert forall i :: 0 <= i < |s| ==> a[i] == s[i];
    while a[length] != NUL
      invariant length <= |s| && NulFree(a[..length])
      decreases |s| - length
    {
      length := length + 1;
    }
    assert a[..length] == s[..length];
    CStringUnique(s, length);
    c := a[..length];
  }

  lemma Assoc(a: string, b: string, c: string)
    ensures a + b + c == a + (b + c)
  {
  }
}
