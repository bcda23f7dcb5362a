/** Context-dependent rewrite passes. Each pass is the function a context-dependent
    rewrite rule applied obligatorily from left to right computes: the input is
    scanned from the start, every match of the rule whose right context holds is
    rewritten, scanning resumes after the match, and everything between matches
    is copied. Matches therefore never overlap. Contexts are tested on the input text.
    A left context of a left-to-right rewrite is in general matched against the text
    already rewritten. The two readings agree for every pass here: the only left
    contexts are the start of the text and a space followed by non-blank characters,
    and no pass with a left context writes or removes a blank. */
module Rewrite {
  import opened Strings

  /** Every non-overlapping occurrence of `p` becomes `q` (no context on either side). */
  function ReplaceAll(s: string, p: string, q: string): string
    requires |p| > 0
    decreases |s|
  {
    if StartsWith(s, p) then q + ReplaceAll(s[|p|..], p, q)
    else if s == [] then []
    else [s[0]] + ReplaceAll(s[1..], p, q)
  }

  /** A character that cannot start the pattern is copied. */
  lemma ReplaceAllSkip(s: string, p: string, q: string)
    requires |p| > 0 && |s| > 0 && s[0] != p[0]
    ensures ReplaceAll(s, p, q) == [s[0]] + ReplaceAll(s[1..], p, q)
  {
    assert !StartsWith(s, p) by {
      if |p| <= |s| {
        assert s[..|p|][0] != p[0];
      }
    }
  }

  /** Without an occurrence of `p` the pass copies its input. */
  lemma {:induction false} ReplaceAllIdentity(s: string, p: string, q: string)
    requires |p| > 0 && !Contains(s, p)
    ensures ReplaceAll(s, p, q) == s
    decreases |s|
  {
    if s != [] {
      ReplaceAllIdentity(s[1..], p, q);
    }
  }

  /** A prefix made of characters of `p` can only come from the same prefix of the input,
      because every replacement starts with a character foreign to `p`. */
  lemma {:induction false} ReplaceAllPrefix(t: string, p: string, q: string, w: string)
    requires |p| > 0 && |q| > 0 && q[0] !in p
    requires forall i | 0 <= i < |w| :: w[i] in p
    requires StartsWith(ReplaceAll(t, p, q), w)
    ensures StartsWith(t, w)
    decreases |t|
  {
    if |w| > 0 {
      var r := ReplaceAll(t, p, q);
      assert r[0] == w[0];
      assert !StartsWith(t, p);
      assert t != [];
      assert r == [t[0]] + ReplaceAll(t[1..], p, q);
      assert StartsWith(ReplaceAll(t[1..], p, q), w[1..]);
      ReplaceAllPrefix(t[1..], p, q, w[1..]);
      assert t == [t[0]] + t[1..];
    }
  }

  /** When the replacement shares no character with the pattern, the pattern is gone
      from the result: no occurrence survives and none is created. */
  lemma {:induction false} ReplaceAllRemovesPattern(s: string, p: string, q: string)
    requires |p| > 0 && |q| > 0
    requires forall i | 0 <= i < |q| :: q[i] !in p
    ensures !Contains(ReplaceAll(s, p, q), p)
    decreases |s|
  {
    if StartsWith(s, p) {
      ReplaceAllRemovesPattern(s[|p|..], p, q);
      if Contains(q + ReplaceAll(s[|p|..], p, q), p) {
        ContainsSkipPrefix(q, ReplaceAll(s[|p|..], p, q), p);
      }
    } else if s != [] {
      var rest := ReplaceAll(s[1..], p, q);
      ReplaceAllRemovesPattern(s[1..], p, q);
      if StartsWith([s[0]] + rest, p) {
        assert StartsWith(rest, p[1..]);
        forall i | 0 <= i < |p[1..]| ensures p[1..][i] in p {
          assert p[1..][i] == p[i + 1];
        }
        ReplaceAllPrefix(s[1..], p, q, p[1..]);
      }
      assert ([s[0]] + rest)[1..] == rest;
    }
  }

  /** `t` opens with a run of white space (possibly empty) followed by something `ctx` accepts. */
  predicate SpaceRunThen(t: string, ctx: string -> bool)
    decreases |t|
  {
    ctx(t) || (|t| > 0 && IsWhiteSpace(t[0]) && SpaceRunThen(t[1..], ctx))
  }

  /** Deletion of white space whose right context `ctx` holds once the rest of its run
      is skipped: a whole run of blanks before the context disappears. */
  function DeleteSpaceBefore(s: string, ctx: string -> bool): string
    decreases |s|
  {
    if s == [] then []
    else (if IsWhiteSpace(s[0]) && SpaceRunThen(s[1..], ctx) then [] else [s[0]])
         + DeleteSpaceBefore(s[1..], ctx)
  }

  /** The right context "any character". */
  predicate AnyChar(t: string) {
    |t| > 0
  }

  /** The right context "the word `w` follows". */
  function Before(w: string): string -> bool {
    t => StartsWith(t, w)
  }

  /** Blank-free text is copied, whatever the context. */
  lemma {:induction false} DeleteSpaceBeforeNoSpace(s: string, ctx: string -> bool)
    requires NoWhiteSpace(s)
    ensures DeleteSpaceBefore(s, ctx) == s
    decreases |s|
  {
    if s != [] {
      DeleteSpaceBeforeNoSpace(s[1..], ctx);
    }
  }

  /** A blank-free prefix is copied and the pass goes on with the rest. */
  lemma {:induction false} DeleteSpaceBeforeNoSpacePrefix(a: string, b: string, ctx: string -> bool)
    requires NoWhiteSpace(a)
    ensures DeleteSpaceBefore(a + b, ctx) == a + DeleteSpaceBefore(b, ctx)
    decreases |a|
  {
    if a != [] {
      assert (a + b)[0] == a[0];
      assert (a + b)[1..] == a[1..] + b;
      DeleteSpaceBeforeNoSpacePrefix(a[1..], b, ctx);
    } else {
      assert a + b == b;
    }
  }

  /** Deleting white space before any character leaves every non-blank character in
      order and drops every blank except a final one. */
  lemma {:induction false} DeleteSpaceBeforeAnyChar(s: string)
    requires |s| > 0
    ensures DeleteSpaceBefore(s, AnyChar) == NonSpace(s[..|s| - 1]) + s[|s| - 1..]
    decreases |s|
  {
    if |s| == 1 {
      assert DeleteSpaceBefore(s[1..], AnyChar) == [];
      assert !SpaceRunThen(s[1..], AnyChar);
    } else {
      assert SpaceRunThen(s[1..], AnyChar);
      DeleteSpaceBeforeAnyChar(s[1..]);
      assert s[1..][..|s| - 2] == s[..|s| - 1][1..];
      assert s[1..][|s| - 2..] == s[|s| - 1..];
    }
  }

  /** Two contexts that hold of the same texts give the same pass. */
  lemma {:induction false} SpaceRunThenSameContext(t: string, ctx: string -> bool, ctx': string -> bool)
    requires forall w :: ctx(w) == ctx'(w)
    ensures SpaceRunThen(t, ctx) == SpaceRunThen(t, ctx')
    decreases |t|
  {
    if |t| > 0 {
      SpaceRunThenSameContext(t[1..], ctx, ctx');
    }
  }

  lemma {:induction false} DeleteSpaceBeforeSameContext(s: string, ctx: string -> bool, ctx': string -> bool)
    requires forall w :: ctx(w) == ctx'(w)
    ensures DeleteSpaceBefore(s, ctx) == DeleteSpaceBefore(s, ctx')
    decreases |s|
  {
    if s != [] {
      SpaceRunThenSameContext(s[1..], ctx, ctx');
      DeleteSpaceBeforeSameContext(s[1..], ctx, ctx');
    }
  }

  /** Deletion of every `c` that is immediately followed by `ctx`. */
  function DeleteBefore(s: string, c: char, ctx: string): string
    decreases |s|
  {
    if s == [] then []
    else (if s[0] == c && StartsWith(s[1..], ctx) then [] else [s[0]]) + DeleteBefore(s[1..], c, ctx)
  }

  /** `s` starts with a site of the pass: a `c` immediately followed by `ctx`. */
  lemma SiteAtStart(s: string, c: char, ctx: string)
    requires |s| > 0
    ensures (s[0] == c && StartsWith(s[1..], ctx)) <==> StartsWith(s, [c] + ctx)
  {
    if StartsWith(s, [c] + ctx) {
      assert s[1..][..|ctx|] == s[..|ctx| + 1][1..];
    }
    if s[0] == c && StartsWith(s[1..], ctx) {
      assert s[..|ctx| + 1] == [s[0]] + s[1..][..|ctx|];
    }
  }

  /** The pass changes its input exactly when there is something to delete. */
  lemma {:induction false} DeleteBeforeIdentity(s: string, c: char, ctx: string)
    ensures DeleteBefore(s, c, ctx) == s <==> !Contains(s, [c] + ctx)
    ensures |DeleteBefore(s, c, ctx)| <= |s|
    decreases |s|
  {
    if s != [] {
      DeleteBeforeIdentity(s[1..], c, ctx);
      SiteAtStart(s, c, ctx);
      var r' := DeleteBefore(s[1..], c, ctx);
      if !(s[0] == c && StartsWith(s[1..], ctx)) {
        assert DeleteBefore(s, c, ctx) == [s[0]] + r';
        assert s == [s[0]] + s[1..];
      }
    }
  }

  /** The pass only ever removes copies of `c`: every other character keeps its count. */
  lemma {:induction false} DeleteBeforeOnlyDeletes(s: string, c: char, ctx: string)
    ensures multiset(DeleteBefore(s, c, ctx)) <= multiset(s)
    ensures forall x | x != c :: multiset(DeleteBefore(s, c, ctx))[x] == multiset(s)[x]
    decreases |s|
  {
    if s != [] {
      DeleteBeforeOnlyDeletes(s[1..], c, ctx);
      var r' := DeleteBefore(s[1..], c, ctx);
      assert s == [s[0]] + s[1..];
      assert multiset(s) == multiset{s[0]} + multiset(s[1..]);
      if !(s[0] == c && StartsWith(s[1..], ctx)) {
        assert DeleteBefore(s, c, ctx) == [s[0]] + r';
        assert multiset(DeleteBefore(s, c, ctx)) == multiset{s[0]} + multiset(r');
      }
    }
  }

  /** The rewrite of `p` into `q` whose left context is the start of the input and whose
      right context is its end; `atStart` tells whether the scan is still at the start. */
  function RewriteWhole(s: string, p: string, q: string, atStart: bool): string
    requires |p| > 0
    decreases |s|
  {
    if atStart && StartsWith(s, p) && |s[|p|..]| == 0 then q + RewriteWhole(s[|p|..], p, q, false)
    else if s == [] then []
    else [s[0]] + RewriteWhole(s[1..], p, q, false)
  }

  /** Once past the start no match has its left context: the rest is copied. */
  lemma {:induction false} RewriteWholeAfterStart(s: string, p: string, q: string)
    requires |p| > 0
    ensures RewriteWhole(s, p, q, false) == s
    decreases |s|
  {
    if s != [] {
      RewriteWholeAfterStart(s[1..], p, q);
    }
  }

  /** The pass rewrites its input only when the whole input is `p`; an occurrence of `p`
      inside a longer text is left alone. */
  lemma RewriteWholeExact(s: string, p: string, q: string)
    requires |p| > 0
    ensures s == p ==> RewriteWhole(s, p, q, true) == q
    ensures s != p ==> RewriteWhole(s, p, q, true) == s
  {
    if s == p {
      assert StartsWith(s, p) && s[|p|..] == [];
    } else {
      assert StartsWith(s, p) ==> |s[|p|..]| > 0 by {
        assert |s| == |p| ==> s == s[..|p|];
      }
      if s != [] {
        RewriteWholeAfterStart(s[1..], p, q);
      }
    }
  }
}
