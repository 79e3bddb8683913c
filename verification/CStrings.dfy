/** NUL-terminated strings of string.c: `strlen`, `strchr` and `strcmp` over buffers. */
module CStrings {

  /** The C `char`, signed on this target. */
  type cchar = c: int | -128 <= c < 128

  predicate Terminated(s: seq<cchar>) {
    0 in s
  }

  /** Characters in front of the first NUL. */
  function Length(s: seq<cchar>): (n: nat)
    requires Terminated(s)
    ensures n < |s| && s[n] == 0 && forall k :: 0 <= k < n ==> s[k] != 0
  {
    if s[0] == 0 then 0 else 1 + Length(s[1..])
  }

  function Text(s: seq<cchar>): (t: seq<cchar>)
    requires Terminated(s)
    ensures 0 !in t && |t| == Length(s)
  {
    s[..Length(s)]
  }

  lemma LengthIs(s: seq<cchar>, n: nat)
    requires n < |s| && s[n] == 0 && forall k :: 0 <= k < n ==> s[k] != 0
    ensures Terminated(s) && Length(s) == n
  {
    var l := Length(s);
    assert l == n;
  }

  method Strlen(s: seq<cchar>) returns (len: nat)
    requires Terminated(s)
    ensures len == Length(s)
  {
    len := 0;
    while s[len] != 0
      invariant len <= Length(s)
      decreases Length(s) - len
    {
      len := len + 1;
    }
  }

  /** `strchr(s, ch) != 0`: the terminator itself is not searched. */
  method Strchr(s: seq<cchar>, ch: cchar) returns (found: bool)
    requires Terminated(s)
    ensures found <==> ch in Text(s)
  {
    var i := 0;
    while s[i] != 0
      invariant i <= Length(s) && ch !in s[..i]
      decreases Length(s) - i
    {
      if s[i] == ch {
        assert Text(s)[i] == ch;
        return true;
      }
      i := i + 1;
    }
    assert Text(s) == s[..i];
    return false;
  }

  /** `b` begins with the string in `a`, its NUL included. */
  predicate Matches(a: seq<cchar>, b: seq<cchar>)
    requires Terminated(a)
  {
    a[..Length(a) + 1] <= b
  }

  /** The comparison never leaves either buffer. */
  predicate Comparable(a: seq<cchar>, b: seq<cchar>) {
    Terminated(a) && (Terminated(b) || Length(a) < |b|)
  }

  ghost predicate DifferFirstAt(a: seq<cchar>, b: seq<cchar>, k: nat) {
    k < |a| && k < |b| && a[k] != b[k] && a[..k] == b[..k] && 0 !in a[..k]
  }

  method Strcmp(a: seq<cchar>, b: seq<cchar>) returns (r: int)
    requires Comparable(a, b)
    ensures r == 0 <==> Matches(a, b)
    ensures r != 0 ==> exists k: nat :: DifferFirstAt(a, b, k) && r == if a[k] < b[k] then -1 else 1
  {
    var i := 0;
    while true
      invariant i <= Length(a) && i <= |b| && a[..i] == b[..i]
      invariant Terminated(b) ==> i <= Length(b)
      decreases Length(a) - i
    {
      if a[i] != b[i] {
        assert DifferFirstAt(a, b, i);
        assert !Matches(a, b) by { assert a[..Length(a) + 1][i] == a[i]; }
        return if a[i] < b[i] then -1 else 1;
      }
      if a[i] == 0 {
        assert a[..i + 1] == b[..i + 1];
        return 0;
      }
      i := i + 1;
    }
  }

  /** On terminated strings matching is equality of the texts. */
  lemma MatchesIsEquality(a: seq<cchar>, b: seq<cchar>)
    requires Terminated(a) && Terminated(b)
    ensures Matches(a, b) <==> Text(a) == Text(b)
  {
    var n := Length(a);
    if Matches(a, b) {
      assert forall k :: 0 <= k <= n ==> b[k] == a[..n + 1][k];
      LengthIs(b, n);
      assert Text(a) == Text(b);
    }
    if Text(a) == Text(b) {
      assert forall k :: 0 <= k < n ==> a[k] == Text(a)[k] && b[k] == Text(b)[k];
    }
  }
}
