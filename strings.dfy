/** Character classes and string predicates shared by every grammar.
    The classes follow the byte classes of the English graph utilities that the
    Italian grammars import: white space is space, tab, newline, carriage return
    and the no-break space; a "not quote" character is anything but '"'. */
module Strings {

  predicate IsWhiteSpace(c: char) {
    c == ' ' || c == '\t' || c == '\n' || c == '\r' || c == '\U{00A0}'
  }

  predicate AllWhiteSpace(s: string) {
    forall i | 0 <= i < |s| :: IsWhiteSpace(s[i])
  }

  predicate NoWhiteSpace(s: string) {
    forall i | 0 <= i < |s| :: !IsWhiteSpace(s[i])
  }

  predicate QuoteFree(s: string) {
    forall i | 0 <= i < |s| :: s[i] != '"'
  }

  /** A single orthographic word: white space may only stand at the very end. */
  predicate NoInnerSpace(s: string) {
    forall i | 0 <= i < |s| - 1 :: !IsWhiteSpace(s[i])
  }

  predicate StartsWith(s: string, p: string) {
    |p| <= |s| && s[..|p|] == p
  }

  predicate EndsWith(s: string, p: string) {
    |p| <= |s| && s[|s| - |p|..] == p
  }

  /** `p` occurs somewhere in `s` (at any position, possibly at the end when `p` is empty). */
  predicate Contains(s: string, p: string)
    decreases |s|
  {
    StartsWith(s, p) || (|s| > 0 && Contains(s[1..], p))
  }

  lemma {:induction false} ContainsSuffix(s: string, p: string, i: nat)
    requires i <= |s| && Contains(s[i..], p)
    ensures Contains(s, p)
    decreases i
  {
    if i > 0 {
      assert s[1..][i - 1..] == s[i..];
      ContainsSuffix(s[1..], p, i - 1);
    }
  }

  lemma NotContainsSuffix(s: string, p: string, i: nat)
    requires i <= |s| && !Contains(s, p)
    ensures !Contains(s[i..], p)
  {
    if Contains(s[i..], p) {
      ContainsSuffix(s, p, i);
    }
  }

  /** An occurrence in `a + b` that cannot start inside `a` lies in `b`. */
  lemma {:induction false} ContainsSkipPrefix(a: string, b: string, p: string)
    requires |p| > 0 && forall i | 0 <= i < |a| :: a[i] != p[0]
    requires Contains(a + b, p)
    ensures Contains(b, p)
    decreases |a|
  {
    if |a| > 0 {
      assert (a + b)[0] == a[0];
      assert (a + b)[1..] == a[1..] + b;
      ContainsSkipPrefix(a[1..], b, p);
    } else {
      assert a + b == b;
    }
  }

  /** A string whose characters are all blank-free up to its last one holds no
      occurrence of a pattern that has white space before its last character. */
  lemma {:induction false} NoInnerSpaceExcludes(s: string, p: string, j: nat)
    requires NoInnerSpace(s) && j + 1 < |p| && IsWhiteSpace(p[j])
    ensures !Contains(s, p)
    decreases |s|
  {
    if |s| > 0 {
      NoInnerSpaceExcludes(s[1..], p, j);
    }
  }

  /** The characters of `s` that are not white space, in order. */
  function NonSpace(s: string): (r: string)
    ensures NoWhiteSpace(r) && |r| <= |s|
  {
    if s == [] then []
    else (if IsWhiteSpace(s[0]) then [] else [s[0]]) + NonSpace(s[1..])
  }

  lemma StartsWithConcat(a: string, b: string)
    ensures StartsWith(a + b, a)
  {
    assert (a + b)[..|a|] == a;
  }

  lemma {:induction false} NonSpaceConcat(a: string, b: string)
    ensures NonSpace(a + b) == NonSpace(a) + NonSpace(b)
    decreases |a|
  {
    if a != [] {
      assert (a + b)[1..] == a[1..] + b;
      NonSpaceConcat(a[1..], b);
    } else {
      assert a + b == b;
    }
  }

  lemma {:induction false} NonSpaceOfNoWhiteSpace(s: string)
    requires NoWhiteSpace(s)
    ensures NonSpace(s) == s
    decreases |s|
  {
    if s != [] {
      NonSpaceOfNoWhiteSpace(s[1..]);
    }
  }

  /** Cutting a text and gluing the halves gives it back. */
  lemma SplitAt(s: string, k: nat)
    requires k <= |s|
    ensures s[..k] + s[k..] == s
  {
  }

  /** A two-character pattern occurs only where its two characters stand side by side. */
  lemma {:induction false} NotContainsPair(s: string, p: string)
    requires |p| == 2
    requires forall i | 0 <= i < |s| - 1 :: !(s[i] == p[0] && s[i + 1] == p[1])
    ensures !Contains(s, p)
    decreases |s|
  {
    if |s| > 0 {
      NotContainsPair(s[1..], p);
      if |s| >= 2 {
        assert s[..2] != p by {
          assert !(s[0] == p[0] && s[1] == p[1]);
        }
      }
    }
  }
}
