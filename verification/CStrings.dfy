/** NUL-terminated strings and the libc comparisons the program relies on. */
module CStrings {

  /** The text of a C string: no NUL inside. */
  type CString = s: string | '\0' !in s

  /** The text held by a character buffer: everything before its first NUL. */
  function Text(buf: seq<char>): (s: CString)
    ensures |s| <= |buf| && s == buf[..|s|]
    ensures |s| < |buf| ==> buf[|s|] == '\0'
  {
    if buf == [] || buf[0] == '\0' then [] else [buf[0]] + Text(buf[1..])
  }

  lemma TextOfTerminated(buf: seq<char>, n: nat)
    requires n < |buf| && buf[n] == '\0' && '\0' !in buf[..n]
    ensures Text(buf) == buf[..n]
  {
    var s := Text(buf);
    assert forall k | 0 <= k < n :: buf[k] == buf[..n][k] && buf[k] in buf[..n];
    assert forall k | 0 <= k < |s| :: buf[k] == s[k] && buf[k] in s;
  }

  /** Character `i` of a C string; the terminator is the last one that may be read. */
  function At(s: string, i: nat): char
    requires i <= |s|
  {
    if i < |s| then s[i] else '\0'
  }

  lemma NulOnlyAtEnd(s: CString, i: nat)
    requires i <= |s|
    ensures At(s, i) == '\0' <==> i == |s|
  {
    assert i < |s| ==> s[i] in s;
  }

  /** Ends the text of a buffer at `len`. */
  method Terminate(buf: array<char>, len: nat) returns (s: CString)
    requires len < buf.Length && '\0' !in buf[..len]
    modifies buf
    ensures s == old(buf[..len])
    ensures Text(buf[..]) == s
    ensures forall k | 0 <= k < buf.Length && k != len :: buf[k] == old(buf[k])
  {
    buf[len] := '\0';
    assert buf[..][..len] == old(buf[..len]);
    TextOfTerminated(buf[..], len);
    s := Text(buf[..]);
  }

  /** Whether `strncmp(a, b, n)` returns zero. */
  predicate StrncmpEqual(a: string, b: string, n: nat)
    decreases n
  {
    n == 0 ||
    (At(a, 0) == At(b, 0) &&
     (a == [] || b == [] || StrncmpEqual(a[1..], b[1..], n - 1)))
  }

  lemma PrefixSteps(a: string, b: string, n: nat)
    requires 0 < n <= |a| && n <= |b|
    ensures a[..n] == b[..n] <==> a[0] == b[0] && a[1..][..n - 1] == b[1..][..n - 1]
  {
    assert a[..n] == [a[0]] + a[1..][..n - 1] && b[..n] == [b[0]] + b[1..][..n - 1];
  }

  /** On C strings, `strncmp` over at most `strlen(a)` characters decides a common prefix. */
  lemma {:induction false} StrncmpDecidesPrefix(a: CString, b: CString, n: nat)
    requires n <= |a|
    ensures StrncmpEqual(a, b, n) <==> n <= |b| && a[..n] == b[..n]
    decreases n
  {
    if n > 0 {
      assert a[0] in a;
      if b != [] {
        assert b[0] in b;
        StrncmpDecidesPrefix(a[1..], b[1..], n - 1);
        if n <= |b| {
          PrefixSteps(a, b, n);
        } else {
          assert n - 1 > |b[1..]|;
        }
      }
    }
  }

  /** The sign of `strcmp(a, b)`. */
  function StrCmp(a: string, b: string): int {
    if a == [] then (if b == [] then 0 else -1)
    else if b == [] then 1
    else if a[0] < b[0] then -1
    else if b[0] < a[0] then 1
    else StrCmp(a[1..], b[1..])
  }

  /** `strcmp` is zero exactly on equal strings, and swapping its arguments swaps the sign. */
  lemma {:induction false} StrCmpAntisymmetric(a: string, b: string)
    ensures StrCmp(a, b) == 0 <==> a == b
    ensures StrCmp(a, b) == -StrCmp(b, a)
    ensures -1 <= StrCmp(a, b) <= 1
  {
    if a != [] && b != [] {
      StrCmpAntisymmetric(a[1..], b[1..]);
      assert a == [a[0]] + a[1..] && b == [b[0]] + b[1..];
    }
  }

  lemma {:induction false} StrCmpTransitive(a: string, b: string, c: string)
    requires StrCmp(a, b) <= 0 && StrCmp(b, c) <= 0
    ensures StrCmp(a, c) <= 0
    decreases |a|
  {
    if a != [] && b != [] && c != [] && a[0] == b[0] == c[0] {
      StrCmpTransitive(a[1..], b[1..], c[1..]);
    }
  }

  /** Up to `n` the strings agree; there `a` ends and `b` goes on, or `a` has the smaller character. */
  predicate SmallerAt(a: string, b: string, n: nat) {
    && n <= |a| && n < |b| && a[..n] == b[..n]
    && (n < |a| ==> a[n] < b[n])
  }

  /** The order of `strcmp`: a proper prefix comes first, and otherwise the first difference decides. */
  lemma {:induction false} StrCmpLexicographic(a: string, b: string)
    ensures StrCmp(a, b) < 0 <==> exists n: nat :: SmallerAt(a, b, n)
  {
    if a == [] || b == [] || a[0] != b[0] {
      assert a[..0] == b[..0] == [];
      assert SmallerAt(a, b, 0) <==> StrCmp(a, b) < 0;
      forall n: nat | n > 0 ensures !SmallerAt(a, b, n) {
        assert n <= |a| && n <= |b| && a != [] && b != [] ==> a[..n][0] == a[0] && b[..n][0] == b[0];
      }
    } else {
      StrCmpLexicographic(a[1..], b[1..]);
      assert !SmallerAt(a, b, 0);
      forall n: nat | n > 0 ensures SmallerAt(a, b, n) <==> SmallerAt(a[1..], b[1..], n - 1) {
        if n <= |a| && n <= |b| {
          PrefixSteps(a, b, n);
        }
      }
      if n: nat :| SmallerAt(a[1..], b[1..], n) {
        assert SmallerAt(a, b, n + 1);
      }
    }
  }
}
