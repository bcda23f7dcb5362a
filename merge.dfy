/** The four passes that turn a fraction's denominator into one word, in the order the
    fraction verbalizer composes them: the conjunction " e " becomes "i", white space in
    front of a character is deleted, accents are removed from words that go on to an
    ordinal ending, and doubled "a" and "o" are collapsed. */
module Merge {
  import opened Strings
  import opened Rewrite

  // ---------------------------------------------------------------------------
  // 1. The conjunction

  /** Every " e " becomes "i": "trenta e tre" becomes "trentaitre". */
  function JoinConjunction(s: string): string {
    ReplaceAll(s, " e ", "i")
  }

  lemma JoinConjunctionRemoves(s: string)
    ensures !Contains(JoinConjunction(s), " e ")
  {
    ReplaceAllRemovesPattern(s, " e ", "i");
  }

  // ---------------------------------------------------------------------------
  // 2. White space

  /** The right context of the white-space deletion: one character that is not the word
      "parte". */
  predicate CharNotParte(t: string) {
    |t| > 0 && t[..1] != "parte"
  }

  function DeleteSpaceBeforeChar(s: string): string {
    DeleteSpaceBefore(s, CharNotParte)
  }

  /** A single character is never the five-letter word "parte", so the context excludes
      nothing: every blank that some character follows is deleted, and only a final blank
      can remain. */
  lemma DeleteSpaceBeforeCharExact(s: string)
    requires |s| > 0
    ensures DeleteSpaceBeforeChar(s) == NonSpace(s[..|s| - 1]) + s[|s| - 1..]
  {
    forall w ensures CharNotParte(w) == AnyChar(w) {
      if |w| > 0 {
        assert |w[..1]| != |"parte"|;
      }
    }
    DeleteSpaceBeforeSameContext(s, CharNotParte, AnyChar);
    DeleteSpaceBeforeAnyChar(s);
  }

  lemma DeleteSpaceBeforeCharWord(s: string)
    ensures NoInnerSpace(DeleteSpaceBeforeChar(s))
  {
    if |s| > 0 {
      DeleteSpaceBeforeCharExact(s);
      var a := NonSpace(s[..|s| - 1]);
      assert forall i | 0 <= i < |a| :: (a + s[|s| - 1..])[i] == a[i];
    }
  }

  // ---------------------------------------------------------------------------
  // 3. Accents

  /** The left context of the accent removal: the text so far ends with the start of the
      text or a space, then non-blank characters. */
  ghost predicate WordStartBefore(p: string) {
    exists j :: 0 <= j <= |p| && (j == 0 || p[j - 1] == ' ') && NoWhiteSpace(p[j..])
  }

  /** The right context: non-blank characters, then "esimo" or "esima". */
  ghost predicate OrdinalEndingAhead(t: string) {
    exists m :: 0 <= m <= |t| && NoWhiteSpace(t[..m]) && (StartsWith(t[m..], "esimo") || StartsWith(t[m..], "esima"))
  }

  /** The right context, checked by walking the rest of the word. */
  predicate ReachesOrdinalEnding(t: string)
    decreases |t|
  {
    StartsWith(t, "esimo") || StartsWith(t, "esima")
    || (|t| > 0 && !IsWhiteSpace(t[0]) && ReachesOrdinalEnding(t[1..]))
  }

  /** How the left context evolves over one character. */
  function NextLeft(left: bool, c: char): bool {
    if c == ' ' then true else if IsWhiteSpace(c) then false else left
  }

  /** The scan: `left` says whether the left context holds at the current position. */
  function RemoveAccentsFrom(s: string, accents: map<char, char>, left: bool): string
    decreases |s|
  {
    if s == [] then []
    else [if s[0] in accents && left && ReachesOrdinalEnding(s[1..]) then accents[s[0]] else s[0]]
         + RemoveAccentsFrom(s[1..], accents, NextLeft(left, s[0]))
  }

  function RemoveAccents(s: string, accents: map<char, char>): string {
    RemoveAccentsFrom(s, accents, true)
  }

  /** Position `i` of `w` is a site of the accent removal. */
  ghost predicate AccentSite(w: string, i: nat, accents: map<char, char>)
    requires i < |w|
  {
    w[i] in accents && WordStartBefore(w[..i]) && OrdinalEndingAhead(w[i + 1..])
  }

  lemma {:induction false} ReachesOrdinalEndingExact(t: string)
    ensures ReachesOrdinalEnding(t) <==> OrdinalEndingAhead(t)
    decreases |t|
  {
    if StartsWith(t, "esimo") || StartsWith(t, "esima") {
      assert t[..0] == [] && t[0..] == t;
    } else if |t| > 0 && !IsWhiteSpace(t[0]) {
      ReachesOrdinalEndingExact(t[1..]);
      if OrdinalEndingAhead(t[1..]) {
        var m :| 0 <= m <= |t[1..]| && NoWhiteSpace(t[1..][..m])
               && (StartsWith(t[1..][m..], "esimo") || StartsWith(t[1..][m..], "esima"));
        EndingAheadExtend(t, m);
      }
      if OrdinalEndingAhead(t) {
        var m :| 0 <= m <= |t| && NoWhiteSpace(t[..m]) && (StartsWith(t[m..], "esimo") || StartsWith(t[m..], "esima"));
        EndingAheadShrink(t, m);
      }
    } else {
      NoEndingAhead(t);
    }
  }

  /** A non-blank character in front keeps the ending ahead. */
  lemma EndingAheadExtend(t: string, m: nat)
    requires |t| > 0 && !IsWhiteSpace(t[0])
    requires m <= |t[1..]| && NoWhiteSpace(t[1..][..m])
    requires StartsWith(t[1..][m..], "esimo") || StartsWith(t[1..][m..], "esima")
    ensures OrdinalEndingAhead(t)
  {
    assert t[..m + 1] == [t[0]] + t[1..][..m];
    assert t[m + 1..] == t[1..][m..];
  }

  /** An ending ahead that does not start here starts after the first character. */
  lemma EndingAheadShrink(t: string, m: nat)
    requires !(StartsWith(t, "esimo") || StartsWith(t, "esima"))
    requires m <= |t| && NoWhiteSpace(t[..m])
    requires StartsWith(t[m..], "esimo") || StartsWith(t[m..], "esima")
    ensures OrdinalEndingAhead(t[1..])
  {
    assert m > 0 by {
      assert t[0..] == t;
    }
    assert t[1..][..m - 1] == t[..m][1..];
    assert t[1..][m - 1..] == t[m..];
  }

  /** At a blank, or at the end, with no ending right here, there is no ending ahead. */
  lemma NoEndingAhead(t: string)
    requires !(StartsWith(t, "esimo") || StartsWith(t, "esima"))
    requires |t| == 0 || IsWhiteSpace(t[0])
    ensures !OrdinalEndingAhead(t)
  {
    forall m | 0 <= m <= |t|
      ensures !(NoWhiteSpace(t[..m]) && (StartsWith(t[m..], "esimo") || StartsWith(t[m..], "esima")))
    {
      if m == 0 {
        assert t[0..] == t;
      } else {
        assert t[..m][0] == t[0];
      }
    }
  }

  lemma WordStartBeforeStep(p: string, c: char)
    ensures WordStartBefore(p + [c]) == NextLeft(WordStartBefore(p), c)
  {
    if c == ' ' {
      var q := p + [c];
      assert (|q| == 0 || q[|q| - 1] == ' ') && NoWhiteSpace(q[|q|..]);
    } else if IsWhiteSpace(c) {
      WordStartBeforeBlank(p, c);
    } else {
      WordStartBeforeLetter(p, c);
    }
  }

  /** A blank other than a space ends every word start. */
  lemma WordStartBeforeBlank(p: string, c: char)
    requires IsWhiteSpace(c) && c != ' '
    ensures !WordStartBefore(p + [c])
  {
    var q := p + [c];
    forall j | 0 <= j <= |q| && (j == 0 || q[j - 1] == ' ')
      ensures !NoWhiteSpace(q[j..])
    {
      assert q[j..][|q| - 1 - j] == c;
    }
  }

  /** A non-blank character extends the current word. */
  lemma WordStartBeforeLetter(p: string, c: char)
    requires !IsWhiteSpace(c)
    ensures WordStartBefore(p + [c]) == WordStartBefore(p)
  {
    var q := p + [c];
    if WordStartBefore(p) {
      var j :| 0 <= j <= |p| && (j == 0 || p[j - 1] == ' ') && NoWhiteSpace(p[j..]);
      WordStartExtend(p, c, j);
    }
    if WordStartBefore(q) {
      var j :| 0 <= j <= |q| && (j == 0 || q[j - 1] == ' ') && NoWhiteSpace(q[j..]);
      WordStartShrink(p, c, j);
    }
  }

  lemma WordStartExtend(p: string, c: char, j: nat)
    requires !IsWhiteSpace(c)
    requires j <= |p| && (j == 0 || p[j - 1] == ' ') && NoWhiteSpace(p[j..])
    ensures WordStartBefore(p + [c])
  {
    var q := p + [c];
    assert q[j..] == p[j..] + [c];
    assert j == 0 || q[j - 1] == ' ';
  }

  lemma WordStartShrink(p: string, c: char, j: nat)
    requires !IsWhiteSpace(c)
    requires j <= |p| + 1 && (j == 0 || (p + [c])[j - 1] == ' ') && NoWhiteSpace((p + [c])[j..])
    ensures WordStartBefore(p)
  {
    var q := p + [c];
    assert j <= |p|;
    assert p[j..] == q[j..][..|p| - j];
    assert j == 0 || p[j - 1] == ' ';
  }

  /** What the accent removal writes at position `i` of `w`. */
  ghost function AccentResult(w: string, i: nat, accents: map<char, char>): char
    requires i < |w|
  {
    if AccentSite(w, i, accents) then accents[w[i]] else w[i]
  }

  lemma {:induction false} RemoveAccentsFromLength(s: string, accents: map<char, char>, left: bool)
    ensures |RemoveAccentsFrom(s, accents, left)| == |s|
    decreases |s|
  {
    if s != [] {
      RemoveAccentsFromLength(s[1..], accents, NextLeft(left, s[0]));
    }
  }

  lemma {:induction false} RemoveAccentsFromAt(p: string, s: string, w: string, left: bool, accents: map<char, char>, i: nat)
    requires w == p + s && left == WordStartBefore(p) && i < |s|
    ensures |RemoveAccentsFrom(s, accents, left)| == |s|
    ensures RemoveAccentsFrom(s, accents, left)[i] == AccentResult(w, |p| + i, accents)
    decreases i
  {
    RemoveAccentsFromLength(s, accents, left);
    if i == 0 {
      ReachesOrdinalEndingExact(s[1..]);
      assert w[..|p|] == p;
      assert w[|p| + 1..] == s[1..];
    } else {
      var p' := p + [s[0]];
      WordStartBeforeStep(p, s[0]);
      assert p' + s[1..] == w;
      RemoveAccentsFromAt(p', s[1..], w, NextLeft(left, s[0]), accents, i - 1);
    }
  }

  /** Each character is kept, except an accented letter whose word runs on, without a blank,
      to "esimo" or "esima"; that letter is replaced by its unaccented form. */
  lemma RemoveAccentsExact(s: string, accents: map<char, char>)
    ensures |RemoveAccents(s, accents)| == |s|
    ensures forall i | 0 <= i < |s| :: RemoveAccents(s, accents)[i] == AccentResult(s, i, accents)
  {
    RemoveAccentsFromLength(s, accents, true);
    forall i | 0 <= i < |s| ensures RemoveAccents(s, accents)[i] == AccentResult(s, i, accents) {
      RemoveAccentsAt(s, accents, i);
    }
  }

  /** The scan from the start of the text, at one position. */
  lemma RemoveAccentsAt(s: string, accents: map<char, char>, i: nat)
    requires i < |s|
    ensures |RemoveAccentsFrom(s, accents, true)| == |s|
    ensures RemoveAccentsFrom(s, accents, true)[i] == AccentResult(s, i, accents)
  {
    EmptyWordStart();
    assert s == "" + s;
    RemoveAccentsFromAt("", s, s, true, accents, i);
  }

  /** The start of the text is a word start. */
  lemma EmptyWordStart()
    ensures WordStartBefore("")
  {
    assert NoWhiteSpace(""[0..]);
  }

  /** With blank-free replacements the accent removal keeps a single word single. */
  lemma RemoveAccentsWord(s: string, accents: map<char, char>)
    requires forall c | c in accents :: !IsWhiteSpace(accents[c])
    requires NoInnerSpace(s)
    ensures NoInnerSpace(RemoveAccents(s, accents))
  {
    RemoveAccentsExact(s, accents);
  }

  // ---------------------------------------------------------------------------
  // 4. Doubled vowels

  /** "aa" becomes "a" and "oo" becomes "o", scanning from the left without overlap. */
  function CollapsePairs(s: string): string
    decreases |s|
  {
    if StartsWith(s, "aa") then "a" + CollapsePairs(s[2..])
    else if StartsWith(s, "oo") then "o" + CollapsePairs(s[2..])
    else if s == [] then []
    else [s[0]] + CollapsePairs(s[1..])
  }

  /** The first character survives the collapse. */
  lemma CollapsePairsFirst(s: string)
    requires |s| > 0
    ensures |CollapsePairs(s)| > 0 && CollapsePairs(s)[0] == s[0]
  {
  }

  /** Without a tripled vowel no pair survives the collapse. */
  lemma {:induction false} CollapsePairsNoPairs(s: string)
    requires !Contains(s, "aaa") && !Contains(s, "ooo")
    ensures !Contains(CollapsePairs(s), "aa") && !Contains(CollapsePairs(s), "oo")
    decreases |s|
  {
    if StartsWith(s, "aa") || StartsWith(s, "oo") {
      var rest := s[2..];
      NotContainsSuffix(s, "aaa", 2);
      NotContainsSuffix(s, "ooo", 2);
      CollapsePairsNoPairs(rest);
      if |rest| > 0 {
        CollapsePairsFirst(rest);
        assert s[..3] == s[..2] + [rest[0]];
      }
      TwoOpen([s[0]], CollapsePairs(rest));
      assert CollapsePairs(s) == [s[0]] + CollapsePairs(rest);
    } else if s != [] {
      var rest := s[1..];
      NotContainsSuffix(s, "aaa", 1);
      NotContainsSuffix(s, "ooo", 1);
      CollapsePairsNoPairs(rest);
      if |rest| > 0 {
        CollapsePairsFirst(rest);
        assert s[..2] == [s[0], rest[0]];
      }
      TwoOpen([s[0]], CollapsePairs(rest));
    }
  }

  /** A one-letter head followed by a text without pairs makes a pair only at the join. */
  lemma TwoOpen(h: string, r: string)
    requires |h| == 1 && !Contains(r, "aa") && !Contains(r, "oo")
    requires |r| > 0 ==> !(h[0] == 'a' && r[0] == 'a') && !(h[0] == 'o' && r[0] == 'o')
    ensures !Contains(h + r, "aa") && !Contains(h + r, "oo")
  {
    assert (h + r)[1..] == r;
    if |r| > 0 {
      assert (h + r)[..2] == [h[0], r[0]];
    }
  }

  /** Text without a doubled "a" or "o" is not changed. */
  lemma {:induction false} CollapsePairsIdentity(s: string)
    requires !Contains(s, "aa") && !Contains(s, "oo")
    ensures CollapsePairs(s) == s
    decreases |s|
  {
    if s != [] {
      CollapsePairsIdentity(s[1..]);
    }
  }

  /** The collapse only removes letters "a" and "o". */
  lemma {:induction false} CollapsePairsOnlyVowels(s: string)
    ensures |CollapsePairs(s)| <= |s|
    ensures forall c | c != 'a' && c != 'o' :: multiset(CollapsePairs(s))[c] == multiset(s)[c]
    decreases |s|
  {
    if StartsWith(s, "aa") || StartsWith(s, "oo") {
      CollapsePairsOnlyVowels(s[2..]);
      assert s == [s[0], s[0]] + s[2..];
      assert CollapsePairs(s) == [s[0]] + CollapsePairs(s[2..]);
      VowelsOnlyPrefix([s[0]], [s[0], s[0]], s[2..], CollapsePairs(s[2..]));
    } else if s != [] {
      CollapsePairsOnlyVowels(s[1..]);
      assert s == [s[0]] + s[1..];
      VowelsOnlyPrefix([s[0]], [s[0]], s[1..], CollapsePairs(s[1..]));
    }
  }

  /** Putting a head in front of a rest keeps "only vowels removed" when the head itself
      loses only vowels. */
  lemma VowelsOnlyPrefix(h: string, g: string, t: string, r: string)
    requires |h| <= |g| && forall c | c != 'a' && c != 'o' :: multiset(h)[c] == multiset(g)[c]
    requires |r| <= |t| && forall c | c != 'a' && c != 'o' :: multiset(r)[c] == multiset(t)[c]
    ensures |h + r| <= |g + t|
    ensures forall c | c != 'a' && c != 'o' :: multiset(h + r)[c] == multiset(g + t)[c]
  {
    assert multiset(h + r) == multiset(h) + multiset(r);
    assert multiset(g + t) == multiset(g) + multiset(t);
  }

  /** Non-overlapping collapse leaves a pair behind a tripled vowel. */
  lemma CollapsePairsTriple()
    ensures CollapsePairs("aaa") == "aa" && CollapsePairs("ooo") == "oo"
  {
    assert StartsWith("aaa", "aa") && "aaa"[2..] == "a";
    assert CollapsePairs("a") == "a";
    assert StartsWith("ooo", "oo") && "ooo"[2..] == "o";
    assert CollapsePairs("o") == "o";
  }

  /** A single word stays a single word. */
  lemma {:induction false} CollapsePairsWord(s: string)
    requires NoInnerSpace(s)
    ensures NoInnerSpace(CollapsePairs(s))
    decreases |s|
  {
    if StartsWith(s, "aa") || StartsWith(s, "oo") {
      CollapsePairsWord(s[2..]);
    } else if s != [] {
      CollapsePairsWord(s[1..]);
      if IsWhiteSpace(s[0]) {
        assert |s| == 1;
      }
    }
  }

  // ---------------------------------------------------------------------------
  // The merge

  function MergeIntoSingleWord(s: string, accents: map<char, char>): string {
    CollapsePairs(RemoveAccents(DeleteSpaceBeforeChar(JoinConjunction(s)), accents))
  }

  /** The merged denominator is one word: white space can only stand at its very end, so
      in particular no " e " is left. */
  lemma MergeIntoSingleWordIsWord(s: string, accents: map<char, char>)
    requires forall c | c in accents :: !IsWhiteSpace(accents[c])
    ensures NoInnerSpace(MergeIntoSingleWord(s, accents))
    ensures !Contains(MergeIntoSingleWord(s, accents), " e ")
  {
    var joined := DeleteSpaceBeforeChar(JoinConjunction(s));
    DeleteSpaceBeforeCharWord(JoinConjunction(s));
    RemoveAccentsWord(joined, accents);
    CollapsePairsWord(RemoveAccents(joined, accents));
    NoInnerSpaceExcludes(MergeIntoSingleWord(s, accents), " e ", 0);
  }

  /** A single word with no accented letter and no doubled "a" or "o" goes through the
      merge unchanged. */
  lemma MergeKeepsPlainWord(s: string, accents: map<char, char>)
    requires NoWhiteSpace(s) && forall i | 0 <= i < |s| :: s[i] !in accents
    requires !Contains(s, "aa") && !Contains(s, "oo")
    ensures MergeIntoSingleWord(s, accents) == s
  {
    NoInnerSpaceExcludes(s, " e ", 0);
    ReplaceAllIdentity(s, " e ", "i");
    DeleteSpaceBeforeNoSpace(s, CharNotParte);
    RemoveAccentsExact(s, accents);
    assert RemoveAccents(s, accents) == s;
    CollapsePairsIdentity(s);
  }
}
